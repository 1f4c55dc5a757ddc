/**
 One service quantum over the deferred requests: up to sixteen turns, each releasing one
 terminal and one cancelled token and polling the next marker in cyclic connection order.
 */
module DeferredService {
  import opened Prelude
  import opened Totals
  import opened Terminals
  import opened DeferredIngress

  // ---- selection ---------------------------------------------------------------

  predicate Eligible(p: Slot, seen: seq<nat>) {
    p.token.Some? && p.nonce !in seen
  }

  function First(slots: seq<Slot>, pred: Slot -> bool): (k: nat)
    ensures k <= |slots| && (k < |slots| ==> pred(slots[k])) && forall i :: 0 <= i < k ==> !pred(slots[i])
  {
    if slots == [] || pred(slots[0]) then 0 else 1 + First(slots[1..], pred)
  }

  /** The first eligible marker behind the cursor, otherwise the first eligible one at all. */
  function SelectPending(slots: seq<Slot>, cursor: nat, seen: seq<nat>): Option<nat> {
    var k := First(slots, (p: Slot) => p.conn > cursor && Eligible(p, seen));
    if k < |slots| then Some(k)
    else
      var m := First(slots, (p: Slot) => Eligible(p, seen));
      if m < |slots| then Some(m) else None
  }

  predicate Ascending(slots: seq<Slot>) {
    forall i, j :: 0 <= i < j < |slots| ==> slots[i].conn < slots[j].conn
  }

  predicate NoncesDiffer(slots: seq<Slot>) {
    forall i, j :: 0 <= i < j < |slots| ==> slots[i].nonce != slots[j].nonce
  }

  /** Connection `a` comes before `b` in the cyclic order that starts behind the cursor. */
  predicate Before(cursor: nat, a: nat, b: nat) {
    if a > cursor then b <= cursor || a < b else b <= cursor && a < b
  }

  /** Selection finds the cyclically first eligible marker, and fails only when there is none. */
  lemma SelectionIsCyclic(slots: seq<Slot>, cursor: nat, seen: seq<nat>)
    requires Ascending(slots)
    ensures match SelectPending(slots, cursor, seen)
      case None => forall i :: 0 <= i < |slots| ==> !Eligible(slots[i], seen)
      case Some(k) =>
        && k < |slots| && Eligible(slots[k], seen)
        && forall i :: 0 <= i < |slots| && i != k && Eligible(slots[i], seen) ==>
          Before(cursor, slots[k].conn, slots[i].conn)
  {
  }

  /** The selected marker is the next one behind the cursor, or the lowest of all when none is behind it. */
  lemma SelectionIsNext(slots: seq<Slot>, cursor: nat, seen: seq<nat>, i: nat)
    requires Ascending(slots) && i < |slots| && slots[i].token.Some? && slots[i].nonce !in seen
    ensures SelectPending(slots, cursor, seen).Some?
    ensures var c := slots[SelectPending(slots, cursor, seen).value].conn;
      if c > cursor then slots[i].conn <= cursor || c <= slots[i].conn
      else slots[i].conn <= cursor && c <= slots[i].conn
  {
    SelectionIsCyclic(slots, cursor, seen);
    assert Eligible(slots[i], seen);
  }

  /** Moving the cursor to a connection already passed does not change the order of those ahead. */
  lemma CursorMoves(start: nat, cursor: nat, a: nat, b: nat)
    requires cursor == start || (Before(start, cursor, a) && Before(start, cursor, b))
    requires Before(cursor, a, b)
    ensures Before(start, a, b)
  {
  }

  // ---- what a quantum has done so far ------------------------------------------------

  predicate Polled(p: Slot, polled: seq<nat>) {
    p.conn in polled
  }

  function Unpolled(polled: seq<nat>): Slot -> nat {
    (p: Slot) => if p.token.Some? && !Polled(p, polled) then 1 else 0
  }

  predicate Keeps(join: Join) {
    !join.expired && join.sessionOk && !join.answered
  }

  /** The markers still pending are the old ones less those polled and not kept. */
  ghost predicate Remain(start: seq<Slot>, joins: nat -> Join, pending: seq<Slot>, polled: seq<nat>) {
    && Ascending(pending) && NoncesDiffer(pending)
    && forall p :: p in pending <==> p in start && (!Polled(p, polled) || Keeps(joins(p.conn)))
  }

  /** The polled connections lie in cyclic order, ahead of every one still to be polled. */
  ghost predicate InOrder(start: seq<Slot>, from: nat, polled: seq<nat>) {
    && (forall i, j :: 0 <= i < j < |polled| ==> Before(from, polled[i], polled[j]))
    && (forall i, p :: 0 <= i < |polled| && p in start && p.token.Some? && !Polled(p, polled) ==>
      Before(from, polled[i], p.conn))
    && (forall i :: 0 <= i < |polled| ==> exists p :: p in start && p.token.Some? && p.conn == polled[i])
  }

  ghost predicate Progressed(start: seq<Slot>, from: nat, joins: nat -> Join, pending: seq<Slot>, cursor: nat,
    polled: seq<nat>, seen: seq<nat>)
  {
    && Ascending(start) && NoncesDiffer(start)
    && Remain(start, joins, pending, polled)
    && InOrder(start, from, polled)
    && (forall p :: p in start ==> (p.nonce in seen <==> Polled(p, polled)))
    && cursor == (if polled == [] then from else polled[|polled| - 1])
    && Total(Unpolled(polled), start) + |polled| == Total(Unpolled([]), start)
  }

  /** What is eligible now is what had a token and was not polled. */
  lemma EligibleIsUnpolled(start: seq<Slot>, from: nat, joins: nat -> Join, pending: seq<Slot>, cursor: nat,
    polled: seq<nat>, seen: seq<nat>, p: Slot)
    requires Progressed(start, from, joins, pending, cursor, polled, seen)
    ensures p in pending && Eligible(p, seen) <==> p in start && p.token.Some? && !Polled(p, polled)
  {
  }

  lemma OrderGrows(start: seq<Slot>, from: nat, joins: nat -> Join, pending: seq<Slot>, cursor: nat, polled: seq<nat>,
    seen: seq<nat>, k: nat)
    requires Progressed(start, from, joins, pending, cursor, polled, seen) &&
      SelectPending(pending, cursor, seen) == Some(k)
    ensures k < |pending| && !Polled(pending[k], polled) && pending[k] in start && pending[k].token.Some?
    ensures InOrder(start, from, polled + [pending[k].conn])
  {
    SelectionIsCyclic(pending, cursor, seen);
    var c := pending[k];
    EligibleIsUnpolled(start, from, joins, pending, cursor, polled, seen, c);
    var longer := polled + [c.conn];
    forall p | p in start && p.token.Some? && !Polled(p, longer) ensures Before(from, c.conn, p.conn) {
      assert !Polled(p, polled) by { assert forall x :: x in polled ==> x in longer; }
      EligibleIsUnpolled(start, from, joins, pending, cursor, polled, seen, p);
      var i :| 0 <= i < |pending| && pending[i] == p;
      assert c.conn in longer;
      CursorMoves(from, cursor, c.conn, p.conn);
    }
    forall i, p | 0 <= i < |longer| && p in start && p.token.Some? && !Polled(p, longer)
      ensures Before(from, longer[i], p.conn)
    {
      assert !Polled(p, polled) by { assert forall x :: x in polled ==> x in longer; }
    }
  }

  lemma SameSlot(start: seq<Slot>, p: Slot, q: Slot)
    requires Ascending(start) && NoncesDiffer(start) && p in start && q in start &&
      (p.conn == q.conn || p.nonce == q.nonce)
    ensures p == q
  {
    var i :| 0 <= i < |start| && start[i] == p;
    var j :| 0 <= j < |start| && start[j] == q;
  }

  lemma CountFalls(start: seq<Slot>, polled: seq<nat>, c: Slot)
    requires Ascending(start) && NoncesDiffer(start) && c in start && c.token.Some? && !Polled(c, polled)
    ensures Total(Unpolled(polled + [c.conn]), start) + 1 == Total(Unpolled(polled), start)
  {
    var k :| 0 <= k < |start| && start[k] == c;
    TotalDiffer(Unpolled(polled + [c.conn]), Unpolled(polled), start, k);
  }

  lemma PolledSnoc(p: Slot, polled: seq<nat>, c: nat)
    ensures Polled(p, polled + [c]) <==> Polled(p, polled) || p.conn == c
  {
  }

  lemma WithoutOrdered(s: seq<Slot>, k: nat)
    requires Ascending(s) && NoncesDiffer(s) && k < |s|
    ensures Ascending(Without(s, k)) && NoncesDiffer(Without(s, k))
  {
    var w := Without(s, k);
    forall i | 0 <= i < |w| ensures w[i] == s[if i < k then i else i + 1] {}
  }

  lemma RemainMember(start: seq<Slot>, joins: nat -> Join, pending: seq<Slot>, polled: seq<nat>, k: nat, p: Slot)
    requires Ascending(start) && NoncesDiffer(start) && Remain(start, joins, pending, polled)
    requires k < |pending| && !Polled(pending[k], polled)
    ensures var c := pending[k].conn;
      p in (if Keeps(joins(c)) then pending else Without(pending, k)) <==>
        p in start && (!Polled(p, polled + [c]) || Keeps(joins(p.conn)))
  {
    var c := pending[k];
    assert c in pending;
    PolledSnoc(p, polled, c.conn);
    MemberWithout(pending, k, p);
    if p in start && p.conn == c.conn { SameSlot(start, p, c); }
  }

  lemma RemainAfter(start: seq<Slot>, joins: nat -> Join, pending: seq<Slot>, polled: seq<nat>, k: nat)
    requires Ascending(start) && NoncesDiffer(start) && Remain(start, joins, pending, polled)
    requires k < |pending| && !Polled(pending[k], polled)
    ensures var c := pending[k].conn;
      Remain(start, joins, if Keeps(joins(c)) then pending else Without(pending, k), polled + [c])
  {
    var c := pending[k].conn;
    var now := if Keeps(joins(c)) then pending else Without(pending, k);
    WithoutOrdered(pending, k);
    forall p ensures p in now <==> p in start && (!Polled(p, polled + [c]) || Keeps(joins(p.conn))) {
      RemainMember(start, joins, pending, polled, k, p);
    }
  }

  lemma MemberWithout(s: seq<Slot>, k: nat, p: Slot)
    requires Ascending(s) && k < |s|
    ensures p in Without(s, k) <==> p in s && p != s[k]
  {
    var w := Without(s, k);
    forall i | 0 <= i < |w| ensures w[i] == s[if i < k then i else i + 1] {}
    if p in s && p != s[k] {
      var i :| 0 <= i < |s| && s[i] == p;
      assert w[if i < k then i else i - 1] == p;
    }
  }

  lemma TurnProgresses(start: seq<Slot>, from: nat, joins: nat -> Join, pending: seq<Slot>, cursor: nat,
    polled: seq<nat>, seen: seq<nat>, k: nat)
    requires Progressed(start, from, joins, pending, cursor, polled, seen) &&
      SelectPending(pending, cursor, seen) == Some(k)
    ensures k < |pending| &&
      var c := pending[k];
      Progressed(start, from, joins, if Keeps(joins(c.conn)) then pending else Without(pending, k),
                 c.conn, polled + [c.conn], seen + [c.nonce])
  {
    OrderGrows(start, from, joins, pending, cursor, polled, seen, k);
    var c := pending[k];
    RemainAfter(start, joins, pending, polled, k);
    CountFalls(start, polled, c);
    SeenGrows(start, polled, seen, c);
    var longer := polled + [c.conn];
    assert longer[|longer| - 1] == c.conn;
  }

  lemma SeenGrows(start: seq<Slot>, polled: seq<nat>, seen: seq<nat>, c: Slot)
    requires Ascending(start) && NoncesDiffer(start) && c in start
    requires forall p :: p in start ==> (p.nonce in seen <==> Polled(p, polled))
    ensures forall p :: p in start ==> (p.nonce in seen + [c.nonce] <==> Polled(p, polled + [c.conn]))
  {
    forall p | p in start ensures p.nonce in seen + [c.nonce] <==> Polled(p, polled + [c.conn]) {
      PolledSnoc(p, polled, c.conn);
      if p.nonce == c.nonce || p.conn == c.conn { SameSlot(start, p, c); }
    }
  }

  /** With nothing left to select every marker that held a token has been polled. */
  lemma NothingLeft(start: seq<Slot>, from: nat, joins: nat -> Join, pending: seq<Slot>, cursor: nat, polled: seq<nat>,
    seen: seq<nat>)
    requires Progressed(start, from, joins, pending, cursor, polled, seen)
    requires SelectPending(pending, cursor, seen).None? || Total(Unpolled(polled), start) == 0
    ensures forall p :: p in start ==> (p.token.Some? <==> Polled(p, polled))
  {
    SelectionIsCyclic(pending, cursor, seen);
    forall p | p in start ensures p.token.Some? <==> Polled(p, polled) {
      EligibleIsUnpolled(start, from, joins, pending, cursor, polled, seen, p);
      var i :| 0 <= i < |start| && start[i] == p;
      TotalAtLeast(Unpolled(polled), start, i);
      if Polled(p, polled) {
        var j :| 0 <= j < |polled| && polled[j] == p.conn;
        var q :| q in start && q.token.Some? && q.conn == polled[j];
        SameSlot(start, p, q);
      }
    }
  }

  /** Each marker that held a token was polled once, in cyclic order, and the others were left alone. */
  ghost predicate Quantum(start: seq<Slot>, from: nat, joins: nat -> Join, pending: seq<Slot>, polled: seq<nat>) {
    && (forall i, j :: 0 <= i < j < |polled| ==> Before(from, polled[i], polled[j]))
    && (forall p :: p in start ==> (p.token.Some? <==> Polled(p, polled)))
    && (forall i :: 0 <= i < |polled| ==> exists p :: p in start && p.token.Some? && p.conn == polled[i])
    && (forall p :: p in pending <==> p in start && (p.token.None? || Keeps(joins(p.conn))))
  }

  lemma QuantumDone(start: seq<Slot>, from: nat, joins: nat -> Join, pending: seq<Slot>, cursor: nat, polled: seq<nat>,
    seen: seq<nat>)
    requires |start| <= MAX_REQUESTS && Progressed(start, from, joins, pending, cursor, polled, seen)
    requires |polled| == MAX_REQUESTS || SelectPending(pending, cursor, seen).None?
    ensures Quantum(start, from, joins, pending, polled)
  {
    TotalOnes(Unpolled([]), start);
    NothingLeft(start, from, joins, pending, cursor, polled, seen);
  }

  // ---- the server side -------------------------------------------------------------

  /** Finishing the work of a marker without its token restores the marker or removes it. */
  lemma PollOutcome(was: seq<Slot>, k: nat, joins: nat -> Join)
    requires Ascending(was) && NoncesDiffer(was) && k < |was| && was[k].token.Some?
    ensures var p := was[k];
      var away := was[k := p.(token := None)];
      var s := State(0, away, [Work(p.conn, p.nonce, p.binding, p.token.value)], [], [], [], [], false);
      var t := DoFinish(s, 0, joins(p.conn));
      && t.pending == (if Keeps(joins(p.conn)) then was else Without(was, k))
      && (t.released == [] <==> Keeps(joins(p.conn)))
      && Ascending(t.pending) && NoncesDiffer(t.pending) && |t.pending| <= |was|
  {
    var p := was[k];
    var away := was[k := p.(token := None)];
    assert Find(away, p.conn) == k by { assert away[k].conn == p.conn; }
    assert away[k := p] == was;
    assert Without(away, k) == Without(was, k);
    WithoutOrdered(was, k);
  }

  class DeferredServer {
    var pending: seq<Slot>
    var cursor: nat
    var cancelled: seq<Token>
    const terminal: Table<Token>

    ghost predicate Valid() reads this {
      Ascending(pending) && NoncesDiffer(pending) && |pending| <= MAX_REQUESTS && terminal.places.Length == MAX_REQUESTS
    }

    constructor ()
      ensures Valid() && pending == [] && cancelled == [] && fresh(terminal) && fresh(terminal.places)
    {
      pending, cursor, cancelled := [], 0, [];
      terminal := new Table<Token>(MAX_REQUESTS);
    }

    method TakeDeferred(seen: seq<nat>) returns (work: Option<Work>)
      modifies this
      ensures cancelled == old(cancelled)
      ensures match SelectPending(old(pending), old(cursor), seen)
        case None => work == None && pending == old(pending) && cursor == old(cursor)
        case Some(k) =>
          k < |old(pending)| && old(pending)[k].token.Some? &&
          var p := old(pending)[k];
          work == Some(Work(p.conn, p.nonce, p.binding, p.token.value))
          && pending == old(pending)[k := p.(token := None)] && cursor == p.conn
    {
      var k := SelectPending(pending, cursor, seen);
      if k == None { return None; }
      var p := pending[k.value];
      cursor := p.conn;
      pending := pending[k.value := p.(token := None)];
      return Some(Work(p.conn, p.nonce, p.binding, p.token.value));
    }

    /** True when the token went back to its marker; otherwise the caller releases it. */
    method FinishDeferred(work: Work, join: Join) returns (retained: bool)
      modifies this
      ensures cancelled == old(cancelled) && cursor == old(cursor)
      ensures var s := State(0, old(pending), [work], [], [], [], [], false);
        pending == DoFinish(s, 0, join).pending && (retained <==> DoFinish(s, 0, join).released == [])
    {
      var j := Find(pending, work.conn);
      if j >= |pending| { return false; }
      if !MatchesInflight(pending[j], work, join.expired) {
        if pending[j].nonce == work.nonce { pending := Without(pending, j); }
        return false;
      }
      if !join.sessionOk {
        pending := Without(pending, j);
        return false;
      }
      if !join.answered {
        pending := pending[j := pending[j].(token := Some(work.token))];
        return true;
      }
      pending := Without(pending, j);
      return false;
    }

    /** Poll one marker: its token returns to it or the marker goes. */
    method PollOne(seen: seq<nat>, joins: nat -> Join) returns (polled: Option<Slot>, released: Option<Token>)
      requires Valid()
      modifies this
      ensures Valid() && cancelled == old(cancelled)
      ensures match SelectPending(old(pending), old(cursor), seen)
        case None => polled == None && released == None && pending == old(pending) && cursor == old(cursor)
        case Some(k) =>
          k < |old(pending)| &&
          var p := old(pending)[k];
          && polled == Some(p) && cursor == p.conn
          && (if Keeps(joins(p.conn)) then pending == old(pending) && released == None
              else pending == Without(old(pending), k) && released == p.token)
    {
      ghost var was := pending;
      ghost var k := SelectPending(was, cursor, seen);
      if k.Some? { SelectionIsCyclic(was, cursor, seen); PollOutcome(was, k.value, joins); }
      var work := TakeDeferred(seen);
      if work == None { return None, None; }
      var w := work.value;
      var retained := FinishDeferred(w, joins(w.conn));
      polled := Some(Slot(w.conn, w.nonce, w.binding, Some(w.token)));
      released := if retained then None else Some(w.token);
    }

    /** One turn: release a terminal and a cancelled token, then poll one marker. */
    method Turn(seen: seq<nat>, joins: nat -> Join) returns (polled: Option<Slot>, busy: bool)
      requires Valid()
      modifies this, terminal.places
      ensures Valid()
      ensures cancelled == if old(cancelled) == [] then [] else old(cancelled)[1..]
      ensures var held := Total(Occupied, old(terminal.places[..]));
        Total(Occupied, terminal.places[..]) == if held == 0 then 0 else held - 1
      ensures !busy ==> old(cancelled) == [] && Total(Occupied, terminal.places[..]) == 0
      ensures match SelectPending(old(pending), old(cursor), seen)
        case None => polled == None && pending == old(pending) && cursor == old(cursor)
        case Some(k) =>
          k < |old(pending)| &&
          var p := old(pending)[k];
          && polled == Some(p) && cursor == p.conn && busy
          && pending == if Keeps(joins(p.conn)) then old(pending) else Without(old(pending), k)
    {
      ghost var table := terminal.places[..];
      TakeCounts(table);
      var taken := terminal.Take();
      var popped := cancelled != [];
      if popped { cancelled := cancelled[1..]; }
      var token;
      polled, token := PollOne(seen, joins);
      busy := taken.Some? || popped || polled.Some?;
    }

    /** The turns of one quantum. */
    method Turns(joins: nat -> Join) returns (polled: seq<nat>, seen: seq<nat>)
      requires Valid()
      modifies this, terminal.places
      ensures Valid() && Progressed(old(pending), old(cursor), joins, pending, cursor, polled, seen)
      ensures |polled| == MAX_REQUESTS || SelectPending(pending, cursor, seen).None?
      ensures |old(cancelled)| <= MAX_REQUESTS ==> cancelled == []
      ensures Total(Occupied, terminal.places[..]) == 0
    {
      seen, polled := [], [];
      ghost var start, from := pending, cursor;
      FullTable(terminal.places[..]);
      for i := 0 to MAX_REQUESTS
        invariant Valid() && Progressed(start, from, joins, pending, cursor, polled, seen)
        invariant |polled| == i || SelectPending(pending, cursor, seen).None?
        invariant |cancelled| + i <= |old(cancelled)| || cancelled == []
        invariant Total(Occupied, terminal.places[..]) + i <= MAX_REQUESTS || Total(Occupied, terminal.places[..]) == 0
      {
        var p, busy := TurnOn(start, from, joins, polled, seen);
        if p.None? {
          if !busy { break; }
          continue;
        }
        seen := seen + [p.value.nonce];
        polled := polled + [p.value.conn];
      }
    }

    /** A turn with the quantum's progress carried along. */
    method TurnOn(ghost start: seq<Slot>, ghost from: nat, joins: nat -> Join, ghost polled: seq<nat>, seen: seq<nat>)
      returns (p: Option<Slot>, busy: bool)
      requires Valid() && Progressed(start, from, joins, pending, cursor, polled, seen)
      modifies this, terminal.places
      ensures Valid()
      ensures cancelled == if old(cancelled) == [] then [] else old(cancelled)[1..]
      ensures var held := Total(Occupied, old(terminal.places[..]));
        Total(Occupied, terminal.places[..]) == if held == 0 then 0 else held - 1
      ensures !busy ==> old(cancelled) == [] && Total(Occupied, terminal.places[..]) == 0
      ensures p.None? <==> SelectPending(old(pending), old(cursor), seen).None?
      ensures p.None? ==> pending == old(pending) && cursor == old(cursor)
      ensures p.Some? ==>
        Progressed(start, from, joins, pending, cursor, polled + [p.value.conn], seen + [p.value.nonce])
    {
      ghost var k := SelectPending(pending, cursor, seen);
      if k.Some? { TurnProgresses(start, from, joins, pending, cursor, polled, seen, k.value); }
      p, busy := Turn(seen, joins);
    }

    /**
     One quantum. Every marker that held a token is polled exactly once, in cyclic order
     behind the cursor; those not kept are gone, the rest stand as they were; the terminal
     table and a cancelled queue of up to sixteen are empty afterwards.
     */
    method Progress(joins: nat -> Join) returns (polled: seq<nat>)
      requires Valid()
      modifies this, terminal.places
      ensures Valid() && Quantum(old(pending), old(cursor), joins, pending, polled)
      ensures |old(cancelled)| <= MAX_REQUESTS ==> cancelled == []
      ensures Total(Occupied, terminal.places[..]) == 0
    {
      ghost var start, from := pending, cursor;
      var seen;
      polled, seen := Turns(joins);
      QuantumDone(start, from, joins, pending, cursor, polled, seen);
    }
  }
}
