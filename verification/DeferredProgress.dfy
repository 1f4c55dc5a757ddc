/**
 What the deferred scheduler grants, what finishing comes to, and that every token can be
 released: nothing is ever out that the remaining steps cannot bring home.
 */
module DeferredProgress {
  import opened Prelude
  import opened Totals
  import opened Terminals
  import opened DeferredIngress

  /**
   A request is admitted exactly when its connection has no marker, fewer than sixteen requests
   and debts are out and a nonce is left; then its marker carries the next nonce and the token.
   */
  lemma AdmittedExactly(events: seq<Event>, at: nat, conn: nat, binding: nat, token: Token)
    requires at <= |Run(Start(), events).pending| && !TokenOut(Run(Start(), events), token)
    ensures var s := Run(Start(), events);
      var free := forall i :: 0 <= i < |s.pending| ==> s.pending[i].conn != conn;
      var room := |s.pending| + |s.cancelled| + Total(Occupied, s.terminal) < 16;
      Step(s, Admit(at, conn, binding, Some(token))) ==
        if free && room && s.next + 1 < U64
        then s.(next := s.next + 1, admitted := s.admitted + [token],
                pending := s.pending[..at] + [Slot(conn, s.next + 1, binding, Some(token))] + s.pending[at..])
        else s
  {
    var s := Run(Start(), events);
    hide Run;
    if Find(s.pending, conn) < |s.pending| { assert s.pending[Find(s.pending, conn)].conn == conn; }
  }

  lemma FoundAt(pending: seq<Slot>, i: nat, next: nat)
    requires i < |pending| && MarkersOk(pending, next)
    ensures Find(pending, pending[i].conn) == i
  {
  }

  /**
   Work that is extracted and finished leaves everything as it was exactly when it is in time,
   its session is sound and there is no answer yet; otherwise the marker goes and the token is
   released.
   */
  lemma FinishExactly(events: seq<Event>, i: nat, join: Join)
    requires var s := Run(Start(), events); i < |s.pending| && s.pending[i].token.Some?
    ensures var s := Run(Start(), events);
      Step(Step(s, Extract(i)), Finish(|s.works|, join)) ==
        if !join.expired && join.sessionOk && !join.answered then s
        else s.(pending := Without(s.pending, i), released := s.released + [s.pending[i].token.value])
  {
    var s := Run(Start(), events);
    RunKeepsInv(events);
    hide Run;
    var t := Step(s, Extract(i));
    FoundAt(s.pending, i, s.next);
    SameFind(s.pending, t.pending, s.pending[i].conn);
    assert Without(t.works, |s.works|) == s.works;
    assert Without(t.pending, i) == Without(s.pending, i);
    assert s.pending[i := s.pending[i]] == s.pending;
    assert t.pending[i := s.pending[i]] == s.pending;
  }

  lemma {:induction false} SameFind(a: seq<Slot>, b: seq<Slot>, conn: nat)
    requires |a| == |b| && forall i :: 0 <= i < |a| ==> a[i].conn == b[i].conn
    ensures Find(a, conn) == Find(b, conn)
  {
    if a != [] { SameFind(a[1..], b[1..], conn); }
  }

  // ---- everything can be released ---------------------------------------------------

  predicate Home(s: State) {
    s.pending == [] && s.works == [] && s.cancelled == [] && FirstHeld(s.terminal) == |s.terminal|
  }

  function Distance(s: State): nat {
    2 * |s.pending| + |s.works| + |s.cancelled| + Total(Occupied, s.terminal)
  }

  lemma SomethingHelps(s: State) returns (e: Event)
    requires Inv(s) && !Home(s)
    ensures Distance(Step(s, e)) < Distance(s)
  {
    if s.pending != [] {
      e := Invalidate(s.pending[0].conn);
      FoundAt(s.pending, 0, s.next);
    } else if s.works != [] {
      e := Finish(0, Join(true, false, false));
    } else if s.cancelled != [] {
      e := ReleaseCancelled;
    } else {
      e := ReleaseTerminal;
      TakeCounts(s.terminal);
    }
  }

  lemma {:induction false} RunAppend(s: State, events: seq<Event>, more: seq<Event>)
    ensures Run(s, events + more) == Run(Run(s, events), more)
  {
    hide Step;
    if more == [] {
      assert events + more == events;
    } else {
      var front := more[..|more| - 1];
      RunAppend(s, events, front);
      assert (events + more)[..|events + more| - 1] == events + front;
    }
  }

  lemma {:induction false} BringHome(s: State) returns (more: seq<Event>)
    requires Inv(s)
    ensures Home(Run(s, more))
    decreases Distance(s)
  {
    hide Inv, Step, Distance, Home;
    if Home(s) {
      more := [];
    } else {
      var e := SomethingHelps(s);
      StepKeepsInv(s, e);
      var rest := BringHome(Step(s, e));
      RunAppend(s, [e], rest);
      assert [e][..0] == [] && Run(s, []) == s;
      assert Run(s, [e]) == Step(s, e);
      more := [e] + rest;
    }
  }

  lemma HomeHoldsNothing(s: State, t: Token)
    requires Home(s)
    ensures Places(s, t) == 0
  {
    TotalNone(InTable(t), s.terminal);
  }

  /** Wherever a run stands, it can be ended with every admission of every token released exactly once. */
  lemma EverythingCanBeReleased(events: seq<Event>)
    ensures exists more :: var s := Run(Start(), events + more);
      Home(s) && forall t: Token :: Total(InQueue(t), s.released) == Total(InQueue(t), s.admitted)
  {
    RunKeepsInv(events);
    var more := BringHome(Run(Start(), events));
    RunAppend(Start(), events, more);
    var s := Run(Start(), events + more);
    forall t: Token ensures Total(InQueue(t), s.released) == Total(InQueue(t), s.admitted) {
      TokensConserved(events + more, t);
      HomeHoldsNothing(s, t);
    }
    assert Home(Run(Start(), events + more));
  }

  /** The first nonce is one; nonces start again with a new server, and only when nothing of the old one is out. */
  lemma NoncesStart(s: State)
    ensures Start().next == 0 && Start().pending == [] && Start().works == [] && Start().cancelled == []
    ensures Step(s, NewServer) ==
      if s.pending == [] && s.works == [] && s.cancelled == [] then s.(next := 0) else s
  {
  }

  /** A request the adopter declines or answers at once spends its nonce and leaves no marker. */
  lemma DeclinedSpendsNonce(events: seq<Event>, at: nat, conn: nat, binding: nat)
    requires at <= |Run(Start(), events).pending|
    ensures var s := Run(Start(), events);
      var free := forall i :: 0 <= i < |s.pending| ==> s.pending[i].conn != conn;
      var room := |s.pending| + |s.cancelled| + Total(Occupied, s.terminal) < 16;
      Step(s, Admit(at, conn, binding, None)) == if free && room && s.next + 1 < U64 then s.(next := s.next + 1) else s
  {
    var s := Run(Start(), events);
    hide Run;
    if Find(s.pending, conn) < |s.pending| { assert s.pending[Find(s.pending, conn)].conn == conn; }
  }

  /** Invalidation removes the marker of its connection, whatever it holds, and queues a token it finds there. */
  lemma InvalidationExactly(events: seq<Event>, i: nat)
    requires i < |Run(Start(), events).pending|
    ensures var s := Run(Start(), events);
      var p := s.pending[i];
      Step(s, Invalidate(p.conn)) ==
        s.(pending := Without(s.pending, i),
           cancelled := if p.token.Some? then s.cancelled + [p.token.value] else s.cancelled)
  {
    var s := Run(Start(), events);
    RunKeepsInv(events);
    hide Run;
    FoundAt(s.pending, i, s.next);
  }
}
