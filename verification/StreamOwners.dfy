/**
 Who owns what among the stream sessions: sixteen slot charges, aliased by the slot, by
 extracted work and by a charged receiver wherever it waits. A charge is one row.
 */
module StreamOwners {
  import opened Prelude
  import opened Totals
  import opened Terminals

  const MAX_SESSIONS: nat := 16

  datatype HeaderAt = HeaderInSlot | HeaderInWork | HeaderUsed
  datatype ReceiverAt = NotYet | WithSlot | WithWork | WithCancelled | WithTerminal | Destroyed

  /** `created` counts the receivers ever made for the charge. */
  datatype Charge = Charge(inSlot: bool, inWork: bool, header: HeaderAt, receiver: ReceiverAt, created: nat)

  /** `owned` is the shared counter; `panicked` records a hand-off that found no place. */
  datatype State = State(owned: nat, charges: seq<Charge>, terminal: seq<Option<nat>>, panicked: bool)

  /** Some alias of the charge exists: a bare receiver inside work has none of its own. */
  predicate Aliased(c: Charge) {
    c.inSlot || c.inWork || c.receiver.WithSlot? || c.receiver.WithCancelled? || c.receiver.WithTerminal?
  }

  function AliasedW(c: Charge): nat { if Aliased(c) then 1 else 0 }

  function PendingW(c: Charge): nat { if c.inSlot then 1 else 0 }

  function CancelledW(c: Charge): nat { if c.receiver.WithCancelled? then 1 else 0 }

  function TerminalW(c: Charge): nat { if c.receiver.WithTerminal? then 1 else 0 }

  datatype Event =
    | Admit
    | Extract(i: nat)
    | Begin(i: nat, ok: bool)
    | Push(i: nat, keeps: bool)
    | Retain(i: nat)
    | DropWork(i: nat)
    | Remove(i: nat)
    | Invalidate(i: nat)
    | DropCancelled(i: nat)
    | HandOff(i: nat)
    | TakeTerminal

  // ---- the effect of each step ------------------------------------------------

  /** Replacing a row returns the charge when its last alias goes. */
  function Put(s: State, i: nat, c: Charge): State
    requires i < |s.charges|
  {
    s.(charges := s.charges[i := c],
       owned := if Aliased(s.charges[i]) && !Aliased(c) && s.owned > 0 then s.owned - 1 else s.owned)
  }

  function DoAdmit(s: State): State {
    if Total(PendingW, s.charges) + Total(CancelledW, s.charges) + Total(Occupied, s.terminal) >= MAX_SESSIONS then s
    else if s.owned >= MAX_SESSIONS then s
    else s.(owned := s.owned + 1, charges := s.charges + [Charge(true, false, HeaderInSlot, NotYet, 0)])
  }

  /** Dropping work destroys a receiver still in it before its alias goes. */
  function WithoutWork(c: Charge): Charge {
    c.(inWork := false,
       receiver := if c.receiver.WithWork? then Destroyed else c.receiver,
       header := if c.header.HeaderInWork? then HeaderUsed else c.header)
  }

  function WithoutSlot(c: Charge, receiver: ReceiverAt): Charge {
    c.(inSlot := false, receiver := receiver, header := if c.header.HeaderInSlot? then HeaderUsed else c.header)
  }

  /** A destroyed owner moves a receiver of its slots or its cancelled queue to the first free place. */
  function DoHandOff(s: State, i: nat): State
    requires i < |s.charges|
  {
    var k := FirstFree(s.terminal);
    if k >= |s.terminal| then s.(panicked := true)
    else Put(s.(terminal := s.terminal[k := Some(i)]), i, WithoutSlot(s.charges[i], WithTerminal))
  }

  function DoTakeTerminal(s: State): State {
    var k := FirstHeld(s.terminal);
    if k >= |s.terminal| || s.terminal[k].value >= |s.charges| then s
    else
      var i := s.terminal[k].value;
      Put(s.(terminal := s.terminal[k := None]), i, s.charges[i].(receiver := Destroyed))
  }

  function OnCharge(s: State, e: Event, i: nat): State
    requires i < |s.charges|
  {
    var c := s.charges[i];
    match e
    case Extract(_) =>
      if !c.inSlot || c.inWork then s
      else Put(s, i, c.(inWork := true,
                        header := if c.header.HeaderInSlot? then HeaderInWork else c.header,
                        receiver := if c.receiver.WithSlot? then WithWork else c.receiver))
    case Begin(_, ok) =>
      if !c.header.HeaderInWork? then s
      else if ok then Put(s, i, c.(header := HeaderUsed, receiver := WithWork, created := c.created + 1))
      else Put(s, i, c.(header := HeaderUsed))
    case Push(_, keeps) => if !c.receiver.WithWork? || keeps then s else Put(s, i, c.(receiver := Destroyed))
    case Retain(_) => if c.inSlot && c.inWork && c.receiver.WithWork? then Put(s, i, c.(receiver := WithSlot)) else s
    case DropWork(_) => if c.inWork then Put(s, i, WithoutWork(c)) else s
    case Remove(_) => if c.inSlot && !c.receiver.WithSlot? then Put(s, i, WithoutSlot(c, c.receiver)) else s
    case Invalidate(_) =>
      if c.inSlot then Put(s, i, WithoutSlot(c, if c.receiver.WithSlot? then WithCancelled else c.receiver)) else s
    case DropCancelled(_) => if c.receiver.WithCancelled? then Put(s, i, c.(receiver := Destroyed)) else s
    case HandOff(_) => if c.receiver.WithSlot? || c.receiver.WithCancelled? then DoHandOff(s, i) else s
    case Admit => s
    case TakeTerminal => s
  }

  function Step(s: State, e: Event): State {
    match e
    case Admit => DoAdmit(s)
    case TakeTerminal => DoTakeTerminal(s)
    case Extract(i) => if i < |s.charges| then OnCharge(s, e, i) else s
    case Begin(i, _) => if i < |s.charges| then OnCharge(s, e, i) else s
    case Push(i, _) => if i < |s.charges| then OnCharge(s, e, i) else s
    case Retain(i) => if i < |s.charges| then OnCharge(s, e, i) else s
    case DropWork(i) => if i < |s.charges| then OnCharge(s, e, i) else s
    case Remove(i) => if i < |s.charges| then OnCharge(s, e, i) else s
    case Invalidate(i) => if i < |s.charges| then OnCharge(s, e, i) else s
    case DropCancelled(i) => if i < |s.charges| then OnCharge(s, e, i) else s
    case HandOff(i) => if i < |s.charges| then OnCharge(s, e, i) else s
  }

  function Run(s: State, events: seq<Event>): State {
    if events == [] then s else Step(Run(s, events[..|events| - 1]), events[|events| - 1])
  }

  function Start(): State {
    State(0, [], seq(MAX_SESSIONS, _ => None), false)
  }

  // ---- what every reachable state satisfies --------------------------------------

  predicate ChargeOk(c: Charge) {
    && (c.receiver.WithSlot? ==> c.inSlot)
    && (c.receiver.WithWork? ==> c.inWork)
    && (c.receiver.WithCancelled? || c.receiver.WithTerminal? ==> !c.inSlot)
    && (c.header.HeaderInSlot? ==> c.inSlot && !c.inWork && c.receiver.NotYet?)
    && (c.header.HeaderInWork? ==> c.inWork && c.receiver.NotYet?)
    && c.created == if c.receiver.NotYet? then 0 else 1
  }

  /** The table names exactly the charges whose receiver waits there, each once. */
  ghost predicate TableOk(s: State) {
    && |s.terminal| == MAX_SESSIONS
    && Total(Occupied, s.terminal) == Total(TerminalW, s.charges)
    && (forall k :: 0 <= k < |s.terminal| && s.terminal[k].Some? ==>
         s.terminal[k].value < |s.charges| && s.charges[s.terminal[k].value].receiver.WithTerminal?)
    && (forall j, k :: 0 <= j < k < |s.terminal| && s.terminal[j].Some? ==> s.terminal[j] != s.terminal[k])
  }

  ghost predicate Inv(s: State) {
    && s.owned == Total(AliasedW, s.charges) <= MAX_SESSIONS
    && (forall i :: 0 <= i < |s.charges| ==> ChargeOk(s.charges[i]))
    && TableOk(s)
    && !s.panicked
  }

  // ---- preservation ----------------------------------------------------------------

  /** A row change that leaves the terminal table alone. */
  lemma PutKeepsInv(s: State, i: nat, c: Charge)
    requires Inv(s) && i < |s.charges| && ChargeOk(c)
    requires !s.charges[i].receiver.WithTerminal? && !c.receiver.WithTerminal?
    requires Aliased(c) ==> Aliased(s.charges[i])
    ensures Inv(Put(s, i, c))
  {
    TotalUpdate(AliasedW, s.charges, i, c);
    TotalUpdate(TerminalW, s.charges, i, c);
    TotalAtLeast(AliasedW, s.charges, i);
  }

  lemma AdmitKeepsInv(s: State)
    requires Inv(s)
    ensures Inv(DoAdmit(s))
  {
    var c := Charge(true, false, HeaderInSlot, NotYet, 0);
    TotalSnoc(AliasedW, s.charges, c);
    TotalSnoc(TerminalW, s.charges, c);
  }

  /** A receiver still to be handed off has a charge of its own, so fewer than sixteen places are taken. */
  lemma PlaceForDebt(s: State, i: nat)
    requires Inv(s) && i < |s.charges| && Aliased(s.charges[i]) && !s.charges[i].receiver.WithTerminal?
    ensures FirstFree(s.terminal) < |s.terminal|
  {
    var without := s.charges[i := s.charges[i].(receiver := WithTerminal)];
    TotalUpdate(TerminalW, s.charges, i, without[i]);
    TotalUpdate(AliasedW, s.charges, i, without[i]);
    TotalAtMost(TerminalW, AliasedW, without);
    RoomFound(s.terminal);
  }

  lemma HandOffKeepsInv(s: State, i: nat)
    requires Inv(s) && i < |s.charges| && (s.charges[i].receiver.WithSlot? || s.charges[i].receiver.WithCancelled?)
    ensures Inv(DoHandOff(s, i))
  {
    PlaceForDebt(s, i);
    var k := FirstFree(s.terminal);
    var c := WithoutSlot(s.charges[i], WithTerminal);
    TotalUpdate(AliasedW, s.charges, i, c);
    TotalUpdate(TerminalW, s.charges, i, c);
    TotalUpdate(Occupied, s.terminal, k, Some(i));
  }

  lemma TakeKeepsInv(s: State)
    requires Inv(s)
    ensures Inv(DoTakeTerminal(s))
  {
    var k := FirstHeld(s.terminal);
    if k < |s.terminal| {
      var i := s.terminal[k].value;
      var c := s.charges[i].(receiver := Destroyed);
      TotalUpdate(AliasedW, s.charges, i, c);
      TotalAtLeast(AliasedW, s.charges, i);
      TotalUpdate(TerminalW, s.charges, i, c);
      TotalUpdate(Occupied, s.terminal, k, None);
    }
  }

  lemma OnChargeKeepsInv(s: State, e: Event, i: nat)
    requires Inv(s) && i < |s.charges|
    ensures Inv(OnCharge(s, e, i))
  {
    var c := s.charges[i];
    assert ChargeOk(c);
    if e.HandOff? {
      if c.receiver.WithSlot? || c.receiver.WithCancelled? { HandOffKeepsInv(s, i); }
    } else if OnCharge(s, e, i) != s && !c.receiver.WithTerminal? {
      var d := OnCharge(s, e, i).charges[i];
      PutKeepsInv(s, i, d);
    } else if OnCharge(s, e, i) != s {
      TerminalRowKeepsInv(s, e, i);
    }
  }

  /** Work may outlive a receiver that already waits in the table. */
  lemma TerminalRowKeepsInv(s: State, e: Event, i: nat)
    requires Inv(s) && i < |s.charges| && s.charges[i].receiver.WithTerminal? && !e.HandOff?
    ensures Inv(OnCharge(s, e, i))
  {
    var t := OnCharge(s, e, i);
    assert ChargeOk(s.charges[i]);
    TotalUpdate(AliasedW, s.charges, i, t.charges[i]);
    TotalUpdate(TerminalW, s.charges, i, t.charges[i]);
  }

  lemma StepKeepsInv(s: State, e: Event)
    requires Inv(s)
    ensures Inv(Step(s, e))
  {
    match e
    case Admit => AdmitKeepsInv(s);
    case TakeTerminal => TakeKeepsInv(s);
    case _ => if e.i < |s.charges| { OnChargeKeepsInv(s, e, e.i); }
  }

  lemma {:induction false} RunKeepsInv(events: seq<Event>)
    ensures Inv(Run(Start(), events))
  {
    if events == [] {
      TotalNone(Occupied, Start().terminal);
    } else {
      RunKeepsInv(events[..|events| - 1]);
      StepKeepsInv(Run(Start(), events[..|events| - 1]), events[|events| - 1]);
    }
  }

  // ---- whole runs --------------------------------------------------------------------

  /** At most sixteen charges are live and each ever had at most one receiver. */
  lemma AtMostSixteen(events: seq<Event>)
    ensures var s := Run(Start(), events);
      && s.owned == Total(AliasedW, s.charges) <= 16
      && forall i :: 0 <= i < |s.charges| ==> s.charges[i].created <= 1
  {
    RunKeepsInv(events);
  }

  /** No hand-off ever finds the table full. */
  lemma HandOffFindsPlace(events: seq<Event>, i: nat)
    ensures var s := Run(Start(), events);
      && !s.panicked
      && (i < |s.charges| && (s.charges[i].receiver.WithSlot? || s.charges[i].receiver.WithCancelled?) ==>
           FirstFree(s.terminal) < |s.terminal|)
  {
    RunKeepsInv(events);
    var s := Run(Start(), events);
    if i < |s.charges| && (s.charges[i].receiver.WithSlot? || s.charges[i].receiver.WithCancelled?) {
      PlaceForDebt(s, i);
    }
  }

  function DebtW(c: Charge): nat {
    CancelledW(c) + TerminalW(c)
  }

  function HeldW(c: Charge): nat {
    PendingW(c) + DebtW(c)
  }

  /** Markers, cancelled receivers and terminal debt together never exceed sixteen. */
  lemma MarkersAndDebt(events: seq<Event>)
    ensures var s := Run(Start(), events);
      Total(PendingW, s.charges) + Total(CancelledW, s.charges) + Total(Occupied, s.terminal) <= s.owned <= 16
  {
    RunKeepsInv(events);
    var s := Run(Start(), events);
    TotalSum(CancelledW, TerminalW, DebtW, s.charges);
    TotalSum(PendingW, DebtW, HeldW, s.charges);
    forall i | 0 <= i < |s.charges| ensures HeldW(s.charges[i]) <= AliasedW(s.charges[i]) {
      assert ChargeOk(s.charges[i]);
    }
    TotalAtMost(HeldW, AliasedW, s.charges);
  }

  /** A receiver that can still act keeps its charge out. */
  lemma ReceiverIsCharged(events: seq<Event>, i: nat)
    requires i < |Run(Start(), events).charges|
    ensures var c := Run(Start(), events).charges[i]; !c.receiver.NotYet? && !c.receiver.Destroyed? ==> Aliased(c)
  {
    RunKeepsInv(events);
    assert ChargeOk(Run(Start(), events).charges[i]);
  }
}
