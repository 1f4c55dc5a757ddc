/**
 What the stream side grants, and that its charges can always be returned: admission of a
 session, of a charge and of a context, and the way back of each.
 */
module StreamProgress {
  import opened Prelude
  import opened Totals
  import opened Terminals
  import S = StreamSession
  import N = StreamConnection
  import W = ContextWake
  import opened StreamOwners

  // ---- charges ---------------------------------------------------------------------

  /** A charge is granted exactly when fewer than sixteen are owned; markers and debt then leave room too. */
  lemma AdmittedExactly(events: seq<Event>)
    ensures var s := Run(Start(), events);
      Step(s, Admit) ==
        if s.owned < 16
        then s.(owned := s.owned + 1, charges := s.charges + [Charge(true, false, HeaderInSlot, NotYet, 0)])
        else s
  {
    MarkersAndDebt(events);
  }

  function Rank(c: Charge): nat {
    (if c.inSlot then 4 else 0) + (if c.inWork then 2 else 0)
    + (if c.receiver.WithCancelled? || c.receiver.WithTerminal? then 1 else 0)
  }

  function Distance(s: State): nat {
    Total(Rank, s.charges)
  }

  lemma PutNearer(s: State, i: nat, c: Charge)
    requires i < |s.charges| && Rank(c) < Rank(s.charges[i])
    ensures Distance(Put(s, i, c)) < Distance(s)
  {
    TotalUpdate(Rank, s.charges, i, c);
  }

  /** Any live charge can be brought nearer to its return. */
  lemma SomethingHelps(s: State, i: nat) returns (e: Event)
    requires Inv(s) && i < |s.charges| && Aliased(s.charges[i])
    ensures Distance(Step(s, e)) < Distance(s)
  {
    assert ChargeOk(s.charges[i]);
    var c := s.charges[i];
    if c.inSlot {
      e := Invalidate(i);
      PutNearer(s, i, WithoutSlot(c, if c.receiver.WithSlot? then WithCancelled else c.receiver));
    } else if c.inWork {
      e := DropWork(i);
      PutNearer(s, i, WithoutWork(c));
    } else if c.receiver.WithCancelled? {
      e := DropCancelled(i);
      PutNearer(s, i, c.(receiver := Destroyed));
    } else {
      e := TakeTerminal;
      TotalAtLeast(TerminalW, s.charges, i);
      TakeCounts(s.terminal);
      var k := FirstHeld(s.terminal);
      var j := s.terminal[k].value;
      PutNearer(s.(terminal := s.terminal[k := None]), j, s.charges[j].(receiver := Destroyed));
    }
  }

  lemma {:induction false} RunAppend(s: State, events: seq<Event>, more: seq<Event>)
    ensures Run(s, events + more) == Run(Run(s, events), more)
  {
    hide Step;
    if more == [] {
      assert events + more == events;
    } else {
      var front := more[..|more| - 1];
      RunAppend(s, events, front);
      assert (events + more)[..|events + more| - 1] == events + front;
    }
  }

  lemma {:induction false} BringBack(s: State) returns (more: seq<Event>)
    requires Inv(s)
    ensures Run(s, more).owned == 0
    decreases Distance(s)
  {
    hide Inv, Step, Distance;
    if s.owned == 0 {
      more := [];
    } else {
      var i := OwnedHasAlias(s);
      var e := SomethingHelps(s, i);
      StepKeepsInv(s, e);
      var rest := BringBack(Step(s, e));
      RunAppend(s, [e], rest);
      assert [e][..0] == [] && Run(s, []) == s;
      assert Run(s, [e]) == Step(s, e);
      more := [e] + rest;
    }
  }

  lemma OwnedHasAlias(s: State) returns (i: nat)
    requires Inv(s) && s.owned > 0
    ensures i < |s.charges| && Aliased(s.charges[i])
  {
    i := TotalWitness(AliasedW, s.charges);
  }

  /** Wherever a run stands, every charge can be returned. */
  lemma ChargesCanBeReturned(events: seq<Event>)
    ensures exists more :: Run(Start(), events + more).owned == 0
  {
    RunKeepsInv(events);
    var more := BringBack(Run(Start(), events));
    RunAppend(Start(), events, more);
  }

  /** One fragment that goes well: the receiver is made once, moves into work and back, and the charge stays out. */
  lemma ReceiverComesAndGoes(s: State, i: nat)
    requires i < |s.charges| && s.charges[i] == Charge(true, false, HeaderInSlot, NotYet, 0)
    ensures var begun := Step(Step(Step(s, Extract(i)), Begin(i, true)), Retain(i));
      var t := Step(begun, DropWork(i));
      && i < |t.charges| && t.charges[i] == Charge(true, false, HeaderUsed, WithSlot, 1)
      && t.owned == s.owned
  {
  }

  // ---- sessions on a connection ---------------------------------------------------------

  /** A session is admitted exactly when the connection has no slot and a nonce is left, under the next nonce. */
  lemma SessionAdmittedExactly(
    s: N.State, generation: nat, binding: Bytes, lease: nat, body: Bytes, length: nat)
    ensures var id := S.Identity(s.next + 1, generation, binding, lease);
      N.Step(s, N.Admit(generation, binding, lease, body, length)) ==
        if s.slot.None? && s.next + 1 < U64
        then N.State(s.next + 1, Some(S.Slot(id, true, false, length, [], false)),
                     s.sessions + [N.Session(id, body, length, S.Idle, 0, [], 0)])
        else s
  {
  }

  /** Every session's work can be served and finished, the last one's included, and it faces the slot that is there. */
  lemma WorkReachesItsSession(s: N.State, k: nat, begins: bool, push: S.Push, valid: bool)
    requires k < |s.sessions|
    ensures N.Step(s, N.Serve(k, begins, push)) == N.Back(s, k, S.Step(N.Facing(s, k), S.Serve(begins, push)))
    ensures N.Step(s, N.Finish(k, valid)) == N.Back(s, k, S.Step(N.Facing(s, k), S.Finish(valid)))
  {
  }

  /** Extraction, credit and invalidation go to the last session, and a nonce spent elsewhere changes nothing here. */
  lemma SlotBelongsToLast(s: N.State, context: bool, chunk: nat)
    requires s.sessions != []
    ensures var last := |s.sessions| - 1;
      && N.Step(s, N.Extract(context, chunk)) == N.Back(s, last, S.Step(N.Facing(s, last), S.Extract(context, chunk)))
      && N.Step(s, N.CreditReady) == N.Back(s, last, S.Step(N.Facing(s, last), S.CreditReady))
      && N.Step(s, N.Invalidate) == N.Back(s, last, S.Step(N.Facing(s, last), S.Invalidate))
    ensures N.Step(s, N.SpendNonce) == if s.next + 1 < U64 then s.(next := s.next + 1) else s
  {
  }

  // ---- the context charge ---------------------------------------------------------------

  /** A held charge comes back in four steps, with both schedulers told. */
  lemma ContextComesBack(s: W.State, callback: bool)
    requires s.holder.Held? && s.clearing == 0 && s.telling == 0
    ensures var t := W.Step(W.Step(W.Step(W.Step(s, W.Refund(callback)), W.Clear), W.NotifyDeferred), W.NotifyStream);
      t.holder.Nobody? && !t.busy && t.clearing == 0 && t.telling == 0 && t.deferred.revision && t.stream.revision
  {
  }

  /** At the start nobody holds the charge and the deferred scheduler alone has its flag up. */
  lemma FirstWake()
    ensures var s := W.Start();
      && s.holder.Nobody? && !s.busy && s.clearing == 0 && s.telling == 0
      && s.deferred == W.Scheduler(false, false, true) && s.stream == W.Scheduler(false, false, false)
  {
  }

  /** A raised flag wakes its scheduler, once; with the charge free its try takes it and storage decides the rest. */
  lemma WokenTakesCharge(s: W.State, who: W.Who, bytes: nat)
    requires W.Get(s, who).revision && s.holder.Nobody? && !s.busy && bytes <= 131072
    ensures var t := W.Step(W.Step(s, W.Take(who)), W.Try(who, bytes));
      && t.holder.Reserving? && t.busy && !W.Get(t, who).revision && !W.Get(t, who).woken && !W.Get(t, who).waits
      && W.Step(t, W.Storage(true)).holder.Held? && W.Step(t, W.Storage(false)).holder.Refunded?
  {
  }

  /** A refund may ring both flags at once, before the charge is free; without the callback it rings none. */
  lemma RefundRings(s: W.State, callback: bool)
    requires s.holder.Held?
    ensures var t := W.Step(s, W.Refund(callback));
      && t.holder.Refunded? && t.busy == s.busy
      && t.deferred == s.deferred.(revision := callback || s.deferred.revision)
      && t.stream == s.stream.(revision := callback || s.stream.revision)
  {
  }
}
