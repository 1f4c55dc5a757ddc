/**
 The stream sessions of one connection, one after the other: a session can be admitted
 while work of an earlier one is still out. The connection has at most one slot, and a
 finishing piece of work looks at whatever slot stands there then.
 */
module StreamConnection {
  import opened Prelude
  import S = StreamSession

  /** A session without its slot. */
  datatype Session = Session(
    id: S.Identity, body: Bytes, length: nat, stage: S.Stage, read: nat, consumed: Bytes, finishes: nat)

  /** `next` is the last nonce the server gave out, on this connection or another. */
  datatype State = State(next: nat, slot: Option<S.Slot>, sessions: seq<Session>)

  datatype Event =
    | Admit(generation: nat, binding: Bytes, lease: nat, body: Bytes, length: nat)
    | SpendNonce
    | Extract(context: bool, chunk: nat)
    | Serve(k: nat, begins: bool, push: S.Push)
    | Finish(k: nat, valid: bool)
    | CreditReady
    | Invalidate

  /** A session facing the slot that the connection has now, its own or not. */
  function Facing(s: State, k: nat): S.State
    requires k < |s.sessions|
  {
    var x := s.sessions[k];
    S.State(x.body, x.length, s.slot, x.stage, x.read, x.consumed, x.finishes)
  }

  function Back(s: State, k: nat, t: S.State): State
    requires k < |s.sessions|
  {
    var x := Session(s.sessions[k].id, t.body, t.length, t.stage, t.read, t.consumed, t.finishes);
    s.(slot := t.slot, sessions := s.sessions[k := x])
  }

  /** Work is named by its session; everything else on a connection goes to the current slot. */
  function Target(s: State, e: Event): (r: Option<(nat, S.Event)>)
    ensures r.Some? ==> r.value.0 < |s.sessions|
  {
    if s.sessions == [] then None
    else
      var last := |s.sessions| - 1;
      match e
      case Admit(_, _, _, _, _) => None
      case SpendNonce => None
      case Extract(context, chunk) => Some((last, S.Extract(context, chunk)))
      case Serve(k, begins, push) => if k <= last then Some((k, S.Serve(begins, push))) else None
      case Finish(k, valid) => if k <= last then Some((k, S.Finish(valid))) else None
      case CreditReady => Some((last, S.CreditReady))
      case Invalidate => Some((last, S.Invalidate))
  }

  function DoAdmit(s: State, generation: nat, binding: Bytes, lease: nat, body: Bytes, length: nat): State {
    var id := S.Identity(s.next + 1, generation, binding, lease);
    State(s.next + 1, Some(S.Slot(id, true, false, length, [], false)),
          s.sessions + [Session(id, body, length, S.Idle, 0, [], 0)])
  }

  function Step(s: State, e: Event): State {
    match Target(s, e)
    case Some((k, x)) => Back(s, k, S.Step(Facing(s, k), x))
    case None =>
      if s.next + 1 >= U64 then s
      else match e
        case Admit(generation, binding, lease, body, length) =>
          if s.slot.Some? then s else DoAdmit(s, generation, binding, lease, body, length)
        case SpendNonce => s.(next := s.next + 1)
        case _ => s
  }

  function Run(events: seq<Event>): State {
    if events == [] then State(0, None, [])
    else Step(Run(events[..|events| - 1]), events[|events| - 1])
  }

  // ---- what every reachable state satisfies -----------------------------------------

  predicate OwnWork(x: Session) {
    match x.stage case Idle => true case Taken(w) => w.id == x.id case Done(w, _) => w.id == x.id
  }

  /** Nonces grow from session to session, and a slot belongs to the last one. */
  predicate Inv(s: State) {
    && (forall i :: 0 <= i < |s.sessions| ==> OwnWork(s.sessions[i]) && s.sessions[i].id.nonce <= s.next)
    && (forall i, j :: 0 <= i < j < |s.sessions| ==> s.sessions[i].id.nonce < s.sessions[j].id.nonce)
    && (s.slot.Some? ==> s.sessions != [] && s.slot.value.id == s.sessions[|s.sessions| - 1].id)
  }

  /** No step of a session changes the identity of a slot or of a piece of work. */
  lemma IdentitiesKept(t: S.State, x: S.Event)
    ensures var u := S.Step(t, x);
      && u.body == t.body && u.length == t.length
      && (u.slot.Some? ==> t.slot.Some? && u.slot.value.id == t.slot.value.id)
      && (match u.stage
          case Idle => true
          case Taken(w) => (t.stage.Taken? && w.id == t.stage.work.id) || (t.slot.Some? && w.id == t.slot.value.id)
          case Done(w, _) => !t.stage.Idle? && w.id == t.stage.work.id)
  {
  }

  lemma BackKeepsInv(s: State, k: nat, x: S.Event)
    requires Inv(s) && k < |s.sessions| && (x.Extract? ==> k == |s.sessions| - 1)
    ensures Inv(Back(s, k, S.Step(Facing(s, k), x)))
  {
    var t := Facing(s, k);
    IdentitiesKept(t, x);
    if !x.Extract? { OnlyExtractTakes(t, x); }
    hide S.Step;
    var u := S.Step(t, x);
    assert OwnWork(Back(s, k, u).sessions[k]);
  }

  lemma OnlyExtractTakes(t: S.State, x: S.Event)
    requires !x.Extract?
    ensures S.Step(t, x).stage.Taken? ==> t.stage == S.Step(t, x).stage
  {
  }

  lemma StepKeepsInv(s: State, e: Event)
    requires Inv(s)
    ensures Inv(Step(s, e))
  {
    if Target(s, e).Some? {
      var (k, x) := Target(s, e).value;
      BackKeepsInv(s, k, x);
    }
  }

  lemma {:induction false} RunKeepsInv(events: seq<Event>)
    ensures Inv(Run(events))
  {
    hide Inv, Step;
    if events == [] {
      assert Inv(State(0, None, [])) by { NothingInv(); }
    } else {
      RunKeepsInv(events[..|events| - 1]);
      StepKeepsInv(Run(events[..|events| - 1]), events[|events| - 1]);
    }
  }

  lemma NothingInv()
    ensures Inv(State(0, None, []))
  {
  }

  // ---- every session runs as if it were alone ------------------------------------------

  /** A session with the slot when that is its own, and without one otherwise. */
  function View(s: State, k: nat): S.State
    requires k < |s.sessions|
  {
    Facing(s, k).(slot := if s.slot.Some? && s.slot.value.id == s.sessions[k].id then s.slot else None)
  }

  /** Work that faces another session's slot, or none, leaves it and ends the same way. */
  lemma StrangeSlot(t: S.State, x: S.Event, id: S.Identity)
    requires (x.Serve? || x.Finish?) && (!t.stage.Idle? ==> t.stage.work.id == id)
    requires t.slot.Some? ==> t.slot.value.id.nonce != id.nonce
    ensures S.Step(t, x).slot == t.slot && S.Step(t.(slot := None), x) == S.Step(t, x).(slot := None)
  {
  }

  lemma OwnView(s: State, k: nat, x: S.Event)
    requires Inv(s) && k < |s.sessions| && (k < |s.sessions| - 1 ==> x.Serve? || x.Finish?)
    ensures View(Back(s, k, S.Step(Facing(s, k), x)), k) == S.Step(View(s, k), x)
  {
    var t := Facing(s, k);
    IdentitiesKept(t, x);
    if k < |s.sessions| - 1 {
      assert s.sessions[k].id.nonce < s.sessions[|s.sessions| - 1].id.nonce;
      assert OwnWork(s.sessions[k]);
      StrangeSlot(t, x, s.sessions[k].id);
      hide S.Step;
      assert View(s, k) == t.(slot := None);
    } else {
      hide S.Step;
      assert View(s, k) == t;
    }
  }

  lemma OtherView(s: State, k: nat, x: S.Event, j: nat)
    requires Inv(s) && k < |s.sessions| && (k < |s.sessions| - 1 ==> x.Serve? || x.Finish?)
    requires j < |s.sessions| && j != k
    ensures View(Back(s, k, S.Step(Facing(s, k), x)), j) == View(s, j)
  {
    var t := Facing(s, k);
    var last := |s.sessions| - 1;
    IdentitiesKept(t, x);
    if k < last {
      assert s.sessions[k].id.nonce < s.sessions[last].id.nonce;
      assert OwnWork(s.sessions[k]);
      StrangeSlot(t, x, s.sessions[k].id);
    } else {
      assert s.sessions[j].id.nonce < s.sessions[last].id.nonce;
    }
    hide S.Step;
  }

  /** What a step is to session `k`. */
  function Local(s: State, e: Event, k: nat): seq<S.Event> {
    if Target(s, e).Some? && Target(s, e).value.0 == k then [Target(s, e).value.1] else []
  }

  lemma TargetView(s: State, e: Event, k: nat)
    requires Inv(s) && k < |s.sessions| && Target(s, e).Some?
    ensures k < |Step(s, e).sessions| && View(Step(s, e), k) == S.Run(View(s, k), Local(s, e, k))
  {
    var (j, x) := Target(s, e).value;
    if j == k {
      OwnView(s, k, x);
      hide S.Step, View;
      assert S.Run(View(s, k), []) == View(s, k) && [x][..0] == [];
    } else {
      OtherView(s, j, x, k);
    }
  }

  lemma StepView(s: State, e: Event, k: nat)
    requires Inv(s) && k < |s.sessions|
    ensures k < |Step(s, e).sessions| && View(Step(s, e), k) == S.Run(View(s, k), Local(s, e, k))
  {
    if Target(s, e).Some? {
      TargetView(s, e, k);
    } else if e.Admit? && s.slot.None? && s.next + 1 < U64 {
      assert s.sessions[k].id.nonce <= s.next;
    }
  }

  /** The steps of session `k` since it was admitted. */
  function Projection(events: seq<Event>, k: nat): seq<S.Event> {
    if events == [] || k >= |Run(events[..|events| - 1]).sessions| then []
    else
      var front := events[..|events| - 1];
      Projection(front, k) + Local(Run(front), events[|events| - 1], k)
  }

  function Beginning(x: Session): S.State {
    S.Admitted(x.id, x.body, x.length)
  }

  lemma NamesKept(s: State, e: Event, k: nat)
    requires k < |s.sessions|
    ensures k < |Step(s, e).sessions| && Beginning(Step(s, e).sessions[k]) == Beginning(s.sessions[k])
  {
    if Target(s, e).Some? {
      var (j, x) := Target(s, e).value;
      IdentitiesKept(Facing(s, j), x);
    }
  }

  lemma FreshSession(s: State, e: Event, k: nat)
    requires |s.sessions| <= k < |Step(s, e).sessions|
    ensures View(Step(s, e), k) == Beginning(Step(s, e).sessions[k])
  {
  }

  lemma RunThenOne(s: S.State, events: seq<S.Event>, more: seq<S.Event>)
    requires |more| <= 1
    ensures S.Run(s, events + more) == S.Run(S.Run(s, events), more)
  {
    hide S.Step;
    if more == [] {
      assert events + more == events;
    } else {
      assert (events + more)[..|events|] == events && more[..0] == [];
      assert S.Run(S.Run(s, events), []) == S.Run(s, events);
    }
  }

  /**
   In every run of a connection each session that was ever admitted on it is where it
   would be had its own steps been the only ones: sessions before and after it, and their
   work finishing late, make no difference to it.
   */
  lemma {:induction false} SessionsRunAlone(events: seq<Event>, k: nat)
    requires k < |Run(events).sessions|
    ensures View(Run(events), k) == S.Run(Beginning(Run(events).sessions[k]), Projection(events, k))
  {
    hide Inv, Step, S.Step, View, Beginning;
    var front := events[..|events| - 1];
    var (s, e) := (Run(front), events[|events| - 1]);
    if k < |s.sessions| {
      SessionsRunAlone(front, k);
      RunKeepsInv(front);
      StepView(s, e, k);
      NamesKept(s, e, k);
      RunThenOne(Beginning(s.sessions[k]), Projection(front, k), Local(s, e, k));
    } else {
      FreshSession(s, e, k);
    }
  }

  /** Every session of a connection has consumed a prefix of its own body, and finished at most once, with all of it. */
  lemma EachConsumesItsOwn(events: seq<Event>, k: nat)
    requires k < |Run(events).sessions|
    ensures var x := Run(events).sessions[k];
      && x.consumed <= x.body && |x.consumed| <= x.length
      && x.finishes <= 1 && (x.finishes == 1 ==> |x.consumed| == x.length)
  {
    var x := Run(events).sessions[k];
    SessionsRunAlone(events, k);
    hide Run, Projection, S.Run;
    S.ConsumedIsBodyPrefix(x.id, x.body, x.length, Projection(events, k));
  }

  /**
   Finishing work of a session that is not the last one, whatever its outcome, changes
   neither the slot nor any other session: a later session on the connection goes on untouched.
   */
  lemma LateFinishTouchesNothing(events: seq<Event>, k: nat, valid: bool)
    requires k < |Run(events).sessions| - 1
    ensures var s := Run(events);
      Run(events + [Finish(k, valid)]) ==
        (if s.sessions[k].stage.Done? then s.(sessions := s.sessions[k := s.sessions[k].(stage := S.Idle)]) else s)
  {
    hide *;
    var s := Run(events);
    RunKeepsInv(events);
    LateFinish(s, k, valid);
    RunOne(events, Finish(k, valid));
  }

  lemma RunOne(events: seq<Event>, e: Event)
    ensures Run(events + [e]) == Step(Run(events), e)
  {
    hide Step;
    assert (events + [e])[..|events|] == events;
  }

  lemma LateFinish(s: State, k: nat, valid: bool)
    requires Inv(s) && k < |s.sessions| - 1
    ensures Step(s, Finish(k, valid)) ==
      (if s.sessions[k].stage.Done? then s.(sessions := s.sessions[k := s.sessions[k].(stage := S.Idle)]) else s)
  {
    assert s.sessions[k].id.nonce < s.sessions[|s.sessions| - 1].id.nonce;
    assert OwnWork(s.sessions[k]);
    var t := Facing(s, k);
    StrangeFinish(t, valid, s.sessions[k].id);
    hide S.Step;
    assert s.sessions[k := s.sessions[k]] == s.sessions;
  }

  lemma StrangeFinish(t: S.State, valid: bool, id: S.Identity)
    requires !t.stage.Idle? ==> t.stage.work.id == id
    requires t.slot.Some? ==> t.slot.value.id.nonce != id.nonce
    ensures S.Step(t, S.Finish(valid)) == if t.stage.Done? then t.(stage := S.Idle) else t
  {
  }
}
