/**
 The allocation pool and its shared owners as a step system. A cell is one reservation
 and whatever it becomes: a construction, a shared block, a credit on its way back.
 Aliases clone and drop in halves, and the last one to drop runs the destructor in between,
 so every interleaving of them is a run.
 */
module Allocation {
  import opened Prelude
  import opened Totals

  datatype Phase =
    | Charged                                        // credit taken, the gross count not yet raised
    | Reserved                                       // a lease in hand, no value yet
    | Building(container: bool)                      // a value, and the credit container if allocated
    | Failed(container: bool)                        // the value is destroyed, the lease still held
    | Shared(payloadRefs: nat, creditRefs: nat, value: bool)  // the reference counts; whether the value stands
    | Returning                                      // the lease is out of its storage, being dropped
    | Ringing                                        // credit returned, the release callback is due
    | Done

  datatype Cell = Cell(bytes: nat, notify: bool, hadValue: bool, phase: Phase)

  /** `Destroying` is the alias that took the payload count to zero and still runs the destructor. */
  datatype Stage = Whole | HalfCloned(source: nat) | Destroying | HalfDropped | Gone
  datatype Alias = Alias(cell: nat, stage: Stage)

  datatype Note = Destroyed(cell: nat) | Refunded(cell: nat) | Notified(cell: nat)

  datatype State = State(
    capacity: nat, callback: bool, used: nat, gross: nat, cells: seq<Cell>, aliases: seq<Alias>, log: seq<Note>)

  datatype Event =
    | Reserve(bytes: nat, notify: bool)
    | CountGross(cell: nat)
    | Activate(cell: nat)
    | StartBuild(cell: nat)
    | AllocateContainer(cell: nat, ok: bool)
    | AllocatePayload(cell: nat, ok: bool)
    | FreeContainer(cell: nat)
    | DropLease(cell: nat)
    | CloneStart(alias: nat)
    | CloneEnd(alias: nat)
    | DropPayload(alias: nat)
    | Destroy(alias: nat)
    | DropCredit(alias: nat)
    | Refund(cell: nat)
    | Ring(cell: nat)

  // ---- the effect of each step ------------------------------------------------

  function SetPhase(s: State, c: nat, p: Phase): State
    requires c < |s.cells|
  {
    s.(cells := s.cells[c := s.cells[c].(phase := p)])
  }

  function Log(s: State, n: Note): State {
    s.(log := s.log + [n])
  }

  predicate At(s: State, c: nat, p: Phase) {
    c < |s.cells| && s.cells[c].phase == p
  }

  predicate Stands(s: State, a: nat, stage: Stage) {
    a < |s.aliases| && s.aliases[a].stage == stage && s.aliases[a].cell < |s.cells| &&
      s.cells[s.aliases[a].cell].phase.Shared?
  }

  /** An alias is lent out while a clone of it is under way. */
  predicate Lent(s: State, a: nat) {
    exists i :: 0 <= i < |s.aliases| && s.aliases[i].stage == HalfCloned(a)
  }

  /** Zero-sized, overflowing and unaffordable requests take nothing. */
  function DoReserve(s: State, bytes: nat, notify: bool): State {
    if bytes == 0 || s.used + bytes > USIZE_MAX || s.used + bytes > s.capacity then s
    else s.(used := s.used + bytes, cells := s.cells + [Cell(bytes, notify, false, Charged)])
  }

  function DoCountGross(s: State, c: nat): State
    requires At(s, c, Charged)
  {
    SetPhase(s, c, Reserved).(gross := Min(s.gross + s.cells[c].bytes, USIZE_MAX))
  }

  function DoCloneStart(s: State, a: nat): State
    requires Stands(s, a, Whole)
  {
    var c := s.aliases[a].cell;
    var p := s.cells[c].phase;
    SetPhase(s, c, p.(payloadRefs := p.payloadRefs + 1)).(aliases := s.aliases + [Alias(c, HalfCloned(a))])
  }

  function SetStage(s: State, a: nat, stage: Stage): State
    requires a < |s.aliases|
  {
    s.(aliases := s.aliases[a := s.aliases[a].(stage := stage)])
  }

  function DoCloneEnd(s: State, a: nat): State
    requires a < |s.aliases| && s.aliases[a].stage.HalfCloned? && s.aliases[a].cell < |s.cells|
    requires s.cells[s.aliases[a].cell].phase.Shared?
  {
    var c := s.aliases[a].cell;
    var p := s.cells[c].phase;
    SetStage(SetPhase(s, c, p.(creditRefs := p.creditRefs + 1)), a, Whole)
  }

  function Less(n: nat): nat {
    if n == 0 then 0 else n - 1
  }

  function DoDropPayload(s: State, a: nat): State
    requires Stands(s, a, Whole)
  {
    var c := s.aliases[a].cell;
    var p := s.cells[c].phase;
    var left := Less(p.payloadRefs);
    SetStage(SetPhase(s, c, p.(payloadRefs := left)), a, if left == 0 then Destroying else HalfDropped)
  }

  function DoDestroy(s: State, a: nat): State
    requires Stands(s, a, Destroying)
  {
    var c := s.aliases[a].cell;
    Log(SetStage(SetPhase(s, c, s.cells[c].phase.(value := false)), a, HalfDropped), Destroyed(c))
  }

  function DoDropCredit(s: State, a: nat): State
    requires Stands(s, a, HalfDropped)
  {
    var c := s.aliases[a].cell;
    var p := s.cells[c].phase;
    var left := Less(p.creditRefs);
    SetStage(SetPhase(s, c, if left == 0 then Returning else p.(creditRefs := left)), a, Gone)
  }

  function DoRefund(s: State, c: nat): State
    requires At(s, c, Returning)
  {
    var cell := s.cells[c];
    var t := Log(SetPhase(s, c, if cell.notify && s.callback then Ringing else Done), Refunded(c));
    t.(used := if s.used < cell.bytes then s.used + U64 - Min(cell.bytes, USIZE_MAX) else s.used - cell.bytes)
  }

  function Step(s: State, e: Event): State {
    match e
    case Reserve(bytes, notify) => DoReserve(s, bytes, notify)
    case CountGross(c) => if At(s, c, Charged) then DoCountGross(s, c) else s
    case Activate(c) =>
      if c < |s.cells| && (s.cells[c].phase.Reserved? || s.cells[c].phase.Shared?)
      then s.(cells := s.cells[c := s.cells[c].(notify := true)]) else s
    case StartBuild(c) =>
      if At(s, c, Reserved)
      then s.(cells := s.cells[c := s.cells[c].(hadValue := true, phase := Building(false))]) else s
    case AllocateContainer(c, ok) =>
      if !At(s, c, Building(false)) then s
      else if ok then SetPhase(s, c, Building(true))
      else Log(SetPhase(s, c, Failed(false)), Destroyed(c))
    case AllocatePayload(c, ok) =>
      if !At(s, c, Building(true)) then s
      else if ok then SetPhase(s, c, Shared(1, 1, true)).(aliases := s.aliases + [Alias(c, Whole)])
      else Log(SetPhase(s, c, Failed(true)), Destroyed(c))
    case FreeContainer(c) => if At(s, c, Failed(true)) then SetPhase(s, c, Failed(false)) else s
    case DropLease(c) => if At(s, c, Reserved) || At(s, c, Failed(false)) then SetPhase(s, c, Returning) else s
    case CloneStart(a) => if Stands(s, a, Whole) then DoCloneStart(s, a) else s
    case CloneEnd(a) =>
      if a < |s.aliases| && s.aliases[a].stage.HalfCloned? && Stands(s, a, s.aliases[a].stage)
      then DoCloneEnd(s, a) else s
    case DropPayload(a) => if Stands(s, a, Whole) && !Lent(s, a) then DoDropPayload(s, a) else s
    case Destroy(a) => if Stands(s, a, Destroying) then DoDestroy(s, a) else s
    case DropCredit(a) => if Stands(s, a, HalfDropped) then DoDropCredit(s, a) else s
    case Refund(c) => if At(s, c, Returning) then DoRefund(s, c) else s
    case Ring(c) => if At(s, c, Ringing) then Log(SetPhase(s, c, Done), Notified(c)) else s
  }

  function Run(s: State, events: seq<Event>): State {
    if events == [] then s else Step(Run(s, events[..|events| - 1]), events[|events| - 1])
  }

  function Fresh(capacity: nat, callback: bool): State {
    State(capacity, callback, 0, 0, [], [], [])
  }

  // ---- what every reachable state satisfies --------------------------------------

  function LiveBytes(c: Cell): nat {
    if c.phase.Ringing? || c.phase.Done? then 0 else c.bytes
  }

  function AllBytes(c: Cell): nat {
    c.bytes
  }

  function GrossBytes(c: Cell): nat {
    if c.phase.Charged? then 0 else c.bytes
  }

  ghost predicate Accounts(s: State) {
    && s.used == Total(LiveBytes, s.cells) <= s.capacity <= USIZE_MAX
    && s.gross == Min(Total(GrossBytes, s.cells), USIZE_MAX)
  }

  predicate HoldsPayload(a: Alias, c: nat) {
    a.cell == c && (a.stage.Whole? || a.stage.HalfCloned?)
  }

  predicate HoldsCredit(a: Alias, c: nat) {
    a.cell == c && (a.stage.Whole? || a.stage.Destroying? || a.stage.HalfDropped?)
  }

  function PayloadRef(c: nat): Alias -> nat {
    (a: Alias) => if HoldsPayload(a, c) then 1 else 0
  }

  function CreditRef(c: nat): Alias -> nat {
    (a: Alias) => if HoldsCredit(a, c) then 1 else 0
  }

  function DestroyerRef(c: nat): Alias -> nat {
    (a: Alias) => if a == Alias(c, Destroying) then 1 else 0
  }

  /** A value nobody refers to any more has exactly one alias destroying it. */
  function Destroyers(p: Phase): nat
    requires p.Shared?
  {
    if p.value && p.payloadRefs == 0 then 1 else 0
  }

  ghost predicate CellCounted(s: State, c: nat)
    requires c < |s.cells|
  {
    var p := s.cells[c].phase;
    p.Shared? ==>
      && p.payloadRefs == Total(PayloadRef(c), s.aliases) && p.creditRefs == Total(CreditRef(c), s.aliases) > 0
      && Destroyers(p) == Total(DestroyerRef(c), s.aliases)
      && (p.payloadRefs > 0 ==> p.value)
  }

  ghost predicate Counted(s: State) {
    forall c :: 0 <= c < |s.cells| ==> CellCounted(s, c)
  }

  ghost predicate AliasOk(s: State, a: nat)
    requires a < |s.aliases|
  {
    var x := s.aliases[a];
    && (x.stage.Gone? || (x.cell < |s.cells| && s.cells[x.cell].phase.Shared?))
    && (x.stage.HalfCloned? ==> x.stage.source < |s.aliases| && s.aliases[x.stage.source] == Alias(x.cell, Whole))
  }

  ghost predicate AliasesOk(s: State) {
    forall a :: 0 <= a < |s.aliases| ==> AliasOk(s, a)
  }

  predicate ValueLive(p: Phase) {
    p.Building? || (p.Shared? && p.value)
  }

  predicate Returned(p: Phase) {
    p.Ringing? || p.Done?
  }

  /** Which notes on a cell are in the log follows from its phase. */
  ghost predicate CellLogged(log: seq<Note>, callback: bool, c: nat, cell: Cell) {
    && (Destroyed(c) in log <==> cell.hadValue && !ValueLive(cell.phase))
    && (Refunded(c) in log <==> Returned(cell.phase))
    && (Notified(c) in log <==> cell.phase.Done? && cell.notify && callback)
    && (cell.phase.Charged? || cell.phase.Reserved? ==> !cell.hadValue)
    && (cell.phase.Building? || cell.phase.Failed? || cell.phase.Shared? ==> cell.hadValue)
    && (cell.phase.Ringing? ==> cell.notify && callback)
  }

  ghost predicate Logged(s: State) {
    && (forall c :: 0 <= c < |s.cells| ==> CellLogged(s.log, s.callback, c, s.cells[c]))
    && (forall i :: 0 <= i < |s.log| ==> s.log[i].cell < |s.cells|)
  }

  predicate Distinct<T(==)>(log: seq<T>) {
    forall i, j :: 0 <= i < j < |log| ==> log[i] != log[j]
  }

  /** A note on a cell stands behind the notes it must follow. */
  predicate Follows(cells: seq<Cell>, log: seq<Note>, n: Note) {
    && n.cell < |cells|
    && (n.Refunded? && cells[n.cell].hadValue ==> Destroyed(n.cell) in log)
    && (n.Notified? ==> Refunded(n.cell) in log)
  }

  /** Each note stands once, destruction before refund before notification. */
  ghost predicate Ordered(s: State) {
    Distinct(s.log) && forall j :: 0 <= j < |s.log| ==> Follows(s.cells, s.log[..j], s.log[j])
  }

  ghost predicate Inv(s: State) {
    Accounts(s) && Counted(s) && AliasesOk(s) && Logged(s) && Ordered(s)
  }

  // ---- accounts -------------------------------------------------------------------

  lemma CellUpdate(cells: seq<Cell>, c: nat, x: Cell)
    requires c < |cells| && x.bytes == cells[c].bytes
    ensures Total(LiveBytes, cells[c := x]) + LiveBytes(cells[c]) == Total(LiveBytes, cells) + LiveBytes(x)
    ensures Total(GrossBytes, cells[c := x]) + GrossBytes(cells[c]) == Total(GrossBytes, cells) + GrossBytes(x)
    ensures LiveBytes(cells[c]) <= Total(LiveBytes, cells)
  {
    TotalUpdate(LiveBytes, cells, c, x);
    TotalUpdate(GrossBytes, cells, c, x);
    TotalAtLeast(LiveBytes, cells, c);
  }

  /** Which cell a step touches, when it touches an existing one. */
  function Touched(s: State, e: Event): Option<nat> {
    match e
    case Reserve(_, _) => None
    case CountGross(c) => Some(c)
    case Activate(c) => Some(c)
    case StartBuild(c) => Some(c)
    case AllocateContainer(c, _) => Some(c)
    case AllocatePayload(c, _) => Some(c)
    case FreeContainer(c) => Some(c)
    case DropLease(c) => Some(c)
    case CloneStart(a) => if a < |s.aliases| then Some(s.aliases[a].cell) else None
    case CloneEnd(a) => if a < |s.aliases| then Some(s.aliases[a].cell) else None
    case DropPayload(a) => if a < |s.aliases| then Some(s.aliases[a].cell) else None
    case Destroy(a) => if a < |s.aliases| then Some(s.aliases[a].cell) else None
    case DropCredit(a) => if a < |s.aliases| then Some(s.aliases[a].cell) else None
    case Refund(c) => Some(c)
    case Ring(c) => Some(c)
  }

  /** A step other than a reservation changes at most the cell it touches, and never its size. */
  lemma OneCell(s: State, e: Event)
    requires !e.Reserve?
    ensures var t := Step(s, e);
      t.cells == s.cells
      || (Touched(s, e).Some? && var c := Touched(s, e).value;
          c < |s.cells| && |t.cells| == |s.cells| && t.cells == s.cells[c := t.cells[c]] &&
            t.cells[c].bytes == s.cells[c].bytes)
  {
  }

  lemma ReserveAccounts(s: State, bytes: nat, notify: bool)
    requires Accounts(s)
    ensures Accounts(DoReserve(s, bytes, notify))
  {
    var cell := Cell(bytes, notify, false, Charged);
    TotalSnoc(LiveBytes, s.cells, cell);
    TotalSnoc(GrossBytes, s.cells, cell);
  }

  lemma CountAccounts(s: State, c: nat)
    requires Accounts(s) && At(s, c, Charged)
    ensures Accounts(DoCountGross(s, c))
  {
    CellUpdate(s.cells, c, s.cells[c].(phase := Reserved));
  }

  lemma RefundAccounts(s: State, c: nat)
    requires Accounts(s) && At(s, c, Returning)
    ensures Accounts(DoRefund(s, c)) && DoRefund(s, c).used == s.used - s.cells[c].bytes
  {
    CellUpdate(s.cells, c, DoRefund(s, c).cells[c]);
  }

  /** No other step moves credit. */
  lemma OtherAccounts(s: State, e: Event)
    requires !e.Reserve? && !(e.Refund? && At(s, e.cell, Returning)) && !(e.CountGross? && At(s, e.cell, Charged))
    ensures var t := Step(s, e);
      && t.used == s.used && t.gross == s.gross && t.capacity == s.capacity
      && (t.cells != s.cells ==> var c := Touched(s, e).value;
           LiveBytes(t.cells[c]) == LiveBytes(s.cells[c]) && GrossBytes(t.cells[c]) == GrossBytes(s.cells[c]))
  {
  }

  lemma AccountsKept(s: State, e: Event)
    requires Accounts(s)
    ensures Accounts(Step(s, e))
  {
    if e.Reserve? {
      ReserveAccounts(s, e.bytes, e.notify);
    } else if e.CountGross? && At(s, e.cell, Charged) {
      CountAccounts(s, e.cell);
    } else if e.Refund? && At(s, e.cell, Returning) {
      RefundAccounts(s, e.cell);
    } else {
      OtherAccounts(s, e);
      OneCell(s, e);
      SameAccounts(s, Step(s, e), Touched(s, e));
    }
  }

  lemma SameAccounts(s: State, t: State, touched: Option<nat>)
    requires Accounts(s) && t.used == s.used && t.gross == s.gross && t.capacity == s.capacity
    requires t.cells == s.cells
      || (touched.Some? && touched.value < |s.cells| == |t.cells|
          && t.cells == s.cells[touched.value := t.cells[touched.value]]
          && t.cells[touched.value].bytes == s.cells[touched.value].bytes
          && LiveBytes(t.cells[touched.value]) == LiveBytes(s.cells[touched.value])
          && GrossBytes(t.cells[touched.value]) == GrossBytes(s.cells[touched.value]))
    ensures Accounts(t)
  {
    if t.cells != s.cells { CellUpdate(s.cells, touched.value, t.cells[touched.value]); }
  }

  // ---- reference counts --------------------------------------------------------------

  /** Cells without a new count keep theirs while aliases stay put. */
  lemma CountedSame(s: State, t: State)
    requires Counted(s) && t.aliases == s.aliases && |s.cells| <= |t.cells|
    requires forall c :: 0 <= c < |s.cells| && t.cells[c].phase.Shared? ==> t.cells[c].phase == s.cells[c].phase
    requires forall c :: |s.cells| <= c < |t.cells| ==> !t.cells[c].phase.Shared?
    ensures Counted(t)
  {
    forall c | 0 <= c < |t.cells| ensures CellCounted(t, c) {
      if t.cells[c].phase.Shared? { assert CellCounted(s, c); }
    }
  }

  lemma AliasUpdate(aliases: seq<Alias>, a: nat, x: Alias, c: nat)
    requires a < |aliases|
    ensures Total(PayloadRef(c), aliases[a := x]) + PayloadRef(c)(aliases[a]) ==
      Total(PayloadRef(c), aliases) + PayloadRef(c)(x)
    ensures Total(CreditRef(c), aliases[a := x]) + CreditRef(c)(aliases[a]) ==
      Total(CreditRef(c), aliases) + CreditRef(c)(x)
    ensures Total(DestroyerRef(c), aliases[a := x]) + DestroyerRef(c)(aliases[a]) ==
      Total(DestroyerRef(c), aliases) + DestroyerRef(c)(x)
  {
    TotalUpdate(PayloadRef(c), aliases, a, x);
    TotalUpdate(DestroyerRef(c), aliases, a, x);
    TotalUpdate(CreditRef(c), aliases, a, x);
  }

  lemma AliasAdded(aliases: seq<Alias>, x: Alias, c: nat)
    ensures Total(PayloadRef(c), aliases + [x]) == Total(PayloadRef(c), aliases) + PayloadRef(c)(x)
    ensures Total(CreditRef(c), aliases + [x]) == Total(CreditRef(c), aliases) + CreditRef(c)(x)
    ensures Total(DestroyerRef(c), aliases + [x]) == Total(DestroyerRef(c), aliases) + DestroyerRef(c)(x)
  {
    TotalSnoc(DestroyerRef(c), aliases, x);
    TotalSnoc(PayloadRef(c), aliases, x);
    TotalSnoc(CreditRef(c), aliases, x);
  }

  lemma CloneStartCounted(s: State, a: nat)
    requires Counted(s) && Stands(s, a, Whole)
    ensures Counted(DoCloneStart(s, a))
  {
    var t := DoCloneStart(s, a);
    var own := s.aliases[a].cell;
    assert CellCounted(s, own);
    TotalAtLeast(PayloadRef(own), s.aliases, a);
    forall c | 0 <= c < |t.cells| ensures CellCounted(t, c) {
      assert CellCounted(s, c);
      AliasAdded(s.aliases, t.aliases[|s.aliases|], c);
    }
  }

  lemma CloneEndCounted(s: State, a: nat)
    requires Counted(s) && a < |s.aliases| && s.aliases[a].stage.HalfCloned? && Stands(s, a, s.aliases[a].stage)
    ensures Counted(DoCloneEnd(s, a))
  {
    var t := DoCloneEnd(s, a);
    forall c | 0 <= c < |t.cells| ensures CellCounted(t, c) {
      assert CellCounted(s, c);
      AliasUpdate(s.aliases, a, t.aliases[a], c);
    }
  }

  lemma DropPayloadCounted(s: State, a: nat)
    requires Counted(s) && Stands(s, a, Whole)
    ensures Counted(DoDropPayload(s, a)) && s.cells[s.aliases[a].cell].phase.payloadRefs > 0
  {
    var t := DoDropPayload(s, a);
    var own := s.aliases[a].cell;
    assert CellCounted(s, own);
    TotalAtLeast(PayloadRef(own), s.aliases, a);
    forall c | 0 <= c < |t.cells| ensures CellCounted(t, c) {
      assert CellCounted(s, c);
      AliasUpdate(s.aliases, a, t.aliases[a], c);
    }
  }

  lemma DestroyCounted(s: State, a: nat)
    requires Counted(s) && Stands(s, a, Destroying)
    ensures Counted(DoDestroy(s, a)) && s.cells[s.aliases[a].cell].phase.value
  {
    var t := DoDestroy(s, a);
    var own := s.aliases[a].cell;
    assert CellCounted(s, own);
    TotalAtLeast(DestroyerRef(own), s.aliases, a);
    forall c | 0 <= c < |t.cells| ensures CellCounted(t, c) {
      assert CellCounted(s, c);
      AliasUpdate(s.aliases, a, t.aliases[a], c);
    }
  }

  lemma DropCreditCounted(s: State, a: nat)
    requires Counted(s) && Stands(s, a, HalfDropped)
    ensures Counted(DoDropCredit(s, a))
  {
    var t := DoDropCredit(s, a);
    var own := s.aliases[a].cell;
    assert CellCounted(s, own);
    TotalAtLeast(CreditRef(own), s.aliases, a);
    forall c | 0 <= c < |t.cells| ensures CellCounted(t, c) {
      assert CellCounted(s, c);
      AliasUpdate(s.aliases, a, t.aliases[a], c);
    }
  }

  /** A new block starts with one alias and both counts at one. */
  lemma PublishCounted(s: State, c: nat)
    requires Counted(s) && AliasesOk(s) && At(s, c, Building(true))
    ensures Counted(Step(s, AllocatePayload(c, true)))
  {
    var t := Step(s, AllocatePayload(c, true));
    NoAliasYet(s, c);
    forall d | 0 <= d < |t.cells| ensures CellCounted(t, d) {
      assert CellCounted(s, d);
      AliasAdded(s.aliases, Alias(c, Whole), d);
    }
  }

  lemma NoAliasYet(s: State, c: nat)
    requires AliasesOk(s) && c < |s.cells| && !s.cells[c].phase.Shared?
    ensures Total(PayloadRef(c), s.aliases) == Total(CreditRef(c), s.aliases) == Total(DestroyerRef(c), s.aliases) == 0
  {
    forall a | 0 <= a < |s.aliases|
      ensures PayloadRef(c)(s.aliases[a]) == CreditRef(c)(s.aliases[a]) == DestroyerRef(c)(s.aliases[a]) == 0
    {
      assert AliasOk(s, a);
    }
    TotalNone(PayloadRef(c), s.aliases);
    TotalNone(DestroyerRef(c), s.aliases);
    TotalNone(CreditRef(c), s.aliases);
  }

  lemma CountedKept(s: State, e: Event)
    requires Counted(s) && AliasesOk(s)
    ensures Counted(Step(s, e))
  {
    var t := Step(s, e);
    match e
    case CloneStart(a) => if t != s { CloneStartCounted(s, a); }
    case CloneEnd(a) => if t != s { CloneEndCounted(s, a); }
    case DropPayload(a) => if t != s { DropPayloadCounted(s, a); }
    case Destroy(a) => if t != s { DestroyCounted(s, a); }
    case DropCredit(a) => if t != s { DropCreditCounted(s, a); }
    case AllocatePayload(c, ok) =>
      if ok { if t != s { PublishCounted(s, c); } } else { CountedSame(s, t); }
    case _ => CountedSame(s, t);
  }

  // ---- aliases -----------------------------------------------------------------------

  /** Whoever still holds the payload, some whole alias holds the credit too. */
  lemma WholeBehind(s: State, a: nat, c: nat) returns (w: nat)
    requires AliasesOk(s) && a < |s.aliases| && HoldsPayload(s.aliases[a], c)
    ensures w < |s.aliases| && s.aliases[w] == Alias(c, Whole)
  {
    assert AliasOk(s, a);
    w := if s.aliases[a].stage.HalfCloned? then s.aliases[a].stage.source else a;
  }

  /** The last credit reference is given up only after the last payload reference, with the value destroyed. */
  lemma LastCreditIsLast(s: State, a: nat)
    requires Counted(s) && AliasesOk(s) && Stands(s, a, HalfDropped)
    requires s.cells[s.aliases[a].cell].phase.creditRefs == 1
    ensures s.cells[s.aliases[a].cell].phase == Shared(0, 1, false)
  {
    var c := s.aliases[a].cell;
    assert CellCounted(s, c);
    var w := a;
    if Total(PayloadRef(c), s.aliases) > 0 {
      var h := TotalWitness(PayloadRef(c), s.aliases);
      w := WholeBehind(s, h, c);
    } else if Total(DestroyerRef(c), s.aliases) > 0 {
      w := TotalWitness(DestroyerRef(c), s.aliases);
    }
    if w < a { TotalTwo(CreditRef(c), s.aliases, w, a); } else if w > a { TotalTwo(CreditRef(c), s.aliases, a, w); }
  }

  /** Aliases stay sound when no shared cell loses its phase and stages stay put. */
  lemma AliasesSame(s: State, t: State)
    requires AliasesOk(s) && t.aliases == s.aliases && |s.cells| <= |t.cells|
    requires forall c :: 0 <= c < |s.cells| && s.cells[c].phase.Shared? ==> t.cells[c].phase.Shared?
    ensures AliasesOk(t)
  {
    forall a | 0 <= a < |t.aliases| ensures AliasOk(t, a) { assert AliasOk(s, a); }
  }

  lemma DropCreditAliases(s: State, a: nat)
    requires Counted(s) && AliasesOk(s) && Stands(s, a, HalfDropped)
    ensures AliasesOk(DoDropCredit(s, a))
  {
    var t := DoDropCredit(s, a);
    var c := s.aliases[a].cell;
    assert CellCounted(s, c);
    forall i | 0 <= i < |t.aliases| ensures AliasOk(t, i) {
      assert AliasOk(s, i);
      if i != a && s.cells[c].phase.creditRefs == 1 && s.aliases[i].cell == c { OnlyOne(s, a, i); }
    }
  }

  /** When one alias holds the only credit reference, every other alias of the block is gone. */
  lemma OnlyOne(s: State, a: nat, i: nat)
    requires Counted(s) && AliasesOk(s) && Stands(s, a, HalfDropped) && s.cells[s.aliases[a].cell].phase.creditRefs == 1
    requires i < |s.aliases| && i != a && s.aliases[i].cell == s.aliases[a].cell
    ensures s.aliases[i].stage.Gone?
  {
    var c := s.aliases[a].cell;
    LastCreditIsLast(s, a);
    assert CellCounted(s, c);
    TotalAtLeast(PayloadRef(c), s.aliases, i);
    if i < a { TotalTwo(CreditRef(c), s.aliases, i, a); } else { TotalTwo(CreditRef(c), s.aliases, a, i); }
  }

  lemma DropPayloadAliases(s: State, a: nat)
    requires AliasesOk(s) && Stands(s, a, Whole) && !Lent(s, a)
    ensures AliasesOk(DoDropPayload(s, a))
  {
    var t := DoDropPayload(s, a);
    forall i | 0 <= i < |t.aliases| ensures AliasOk(t, i) { assert AliasOk(s, i); }
  }

  lemma DestroyAliases(s: State, a: nat)
    requires AliasesOk(s) && Stands(s, a, Destroying)
    ensures AliasesOk(DoDestroy(s, a))
  {
    var t := DoDestroy(s, a);
    forall i | 0 <= i < |t.aliases| ensures AliasOk(t, i) { assert AliasOk(s, i); }
  }

  lemma CloneAliases(s: State, a: nat)
    requires AliasesOk(s)
    ensures Stands(s, a, Whole) ==> AliasesOk(DoCloneStart(s, a))
    ensures a < |s.aliases| && s.aliases[a].stage.HalfCloned? && Stands(s, a, s.aliases[a].stage) ==>
      AliasesOk(DoCloneEnd(s, a))
  {
    if Stands(s, a, Whole) {
      var t := DoCloneStart(s, a);
      forall i | 0 <= i < |t.aliases| ensures AliasOk(t, i) { if i < |s.aliases| { assert AliasOk(s, i); } }
    }
    if a < |s.aliases| && s.aliases[a].stage.HalfCloned? && Stands(s, a, s.aliases[a].stage) {
      var t := DoCloneEnd(s, a);
      forall i | 0 <= i < |t.aliases| ensures AliasOk(t, i) { assert AliasOk(s, i); }
    }
  }

  lemma PublishAliases(s: State, c: nat)
    requires AliasesOk(s) && At(s, c, Building(true))
    ensures AliasesOk(Step(s, AllocatePayload(c, true)))
  {
    var t := Step(s, AllocatePayload(c, true));
    forall i | 0 <= i < |t.aliases| ensures AliasOk(t, i) { if i < |s.aliases| { assert AliasOk(s, i); } }
  }

  lemma AliasesKept(s: State, e: Event)
    requires Counted(s) && AliasesOk(s)
    ensures AliasesOk(Step(s, e))
  {
    var t := Step(s, e);
    match e
    case CloneStart(a) => CloneAliases(s, a);
    case CloneEnd(a) => CloneAliases(s, a);
    case DropPayload(a) => if t != s { DropPayloadAliases(s, a); }
    case Destroy(a) => if t != s { DestroyAliases(s, a); }
    case DropCredit(a) => if t != s { DropCreditAliases(s, a); }
    case AllocatePayload(c, ok) =>
      if ok { if t != s { PublishAliases(s, c); } } else { AliasesSame(s, t); }
    case _ => AliasesSame(s, t);
  }

  // ---- the log ------------------------------------------------------------------------

  /** A step that moves one cell and writes only about it keeps the rest of the log true. */
  lemma LoggedMove(s: State, t: State, c: nat)
    requires Logged(s) && c < |s.cells| == |t.cells| && t.callback == s.callback
    requires t.cells == s.cells[c := t.cells[c]] && CellLogged(t.log, t.callback, c, t.cells[c])
    requires t.log == s.log || (exists n :: t.log == s.log + [n] && n.cell == c)
    ensures Logged(t)
  {
    forall d | 0 <= d < |t.cells| ensures CellLogged(t.log, t.callback, d, t.cells[d]) {
      if d != c { assert CellLogged(s.log, s.callback, d, s.cells[d]); }
    }
  }

  predicate OnAlias(e: Event) {
    e.CloneStart? || e.CloneEnd? || e.DropPayload? || e.Destroy? || e.DropCredit?
  }

  /** A step on a cell writes the note its new phase calls for. */
  lemma PhaseLogged(s: State, e: Event, c: nat)
    requires !OnAlias(e) && !e.Reserve? && Touched(s, e) == Some(c) && c < |s.cells| &&
      CellLogged(s.log, s.callback, c, s.cells[c])
    ensures var t := Step(s, e); c < |t.cells| && CellLogged(t.log, t.callback, c, t.cells[c])
  {
  }

  lemma AliasLogged(s: State, e: Event, c: nat)
    requires Counted(s) && AliasesOk(s) && OnAlias(e) && e.alias < |s.aliases| && s.aliases[e.alias].cell == c
    requires c < |s.cells| && CellLogged(s.log, s.callback, c, s.cells[c])
    ensures var t := Step(s, e); c < |t.cells| && CellLogged(t.log, t.callback, c, t.cells[c])
  {
    assert CellCounted(s, c);
    TotalAtLeast(PayloadRef(c), s.aliases, e.alias);
    if e.DropCredit? && Stands(s, e.alias, HalfDropped) && s.cells[c].phase.creditRefs == 1 {
      LastCreditIsLast(s, e.alias);
    }
  }

  lemma CellLoggedKept(s: State, e: Event)
    requires Counted(s) && AliasesOk(s) && Logged(s) && Touched(s, e).Some? && Touched(s, e).value < |s.cells|
    ensures var (t, c) := (Step(s, e), Touched(s, e).value);
      c < |t.cells| && CellLogged(t.log, t.callback, c, t.cells[c])
  {
    hide Step, CellLogged;
    var c := Touched(s, e).value;
    assert CellLogged(s.log, s.callback, c, s.cells[c]);
    if OnAlias(e) { AliasLogged(s, e, c); } else { PhaseLogged(s, e, c); }
  }

  /** A step writes at most one note, about the cell it touches. */
  lemma OneNote(s: State, e: Event)
    ensures var t := Step(s, e);
      && t.callback == s.callback
      && (t.log == s.log
          || (Touched(s, e).Some? && |t.log| == |s.log| + 1 && t.log == s.log + [t.log[|s.log|]]
              && t.log[|s.log|].cell == Touched(s, e).value))
  {
  }

  lemma LoggedKept(s: State, e: Event)
    requires Counted(s) && AliasesOk(s) && Logged(s)
    ensures Logged(Step(s, e))
  {
    var t := Step(s, e);
    if e.Reserve? {
      ReserveLogged(s, e.bytes, e.notify);
    } else if t != s {
      Moves(s, e);
      OneCell(s, e);
      OneNote(s, e);
      CellLoggedKept(s, e);
      var c := Touched(s, e).value;
      if t.log != s.log { assert t.log == s.log + [t.log[|s.log|]] && t.log[|s.log|].cell == c; }
      LoggedMove(s, t, c);
    }
  }

  lemma Moves(s: State, e: Event)
    requires Step(s, e) != s && !e.Reserve?
    ensures Touched(s, e).Some? && Touched(s, e).value < |s.cells|
  {
  }

  lemma ReserveLogged(s: State, bytes: nat, notify: bool)
    requires Logged(s)
    ensures Logged(DoReserve(s, bytes, notify))
  {
    var t := DoReserve(s, bytes, notify);
    forall c | 0 <= c < |t.cells| ensures CellLogged(t.log, t.callback, c, t.cells[c]) {
      if c < |s.cells| { assert CellLogged(s.log, s.callback, c, s.cells[c]); }
    }
  }

  /** A new note was not there before and follows those it must follow. */
  lemma NewNote(s: State, e: Event)
    requires Counted(s) && AliasesOk(s) && Logged(s) && Step(s, e).log != s.log
    ensures var t := Step(s, e);
      && |t.log| == |s.log| + 1
      && (var n := t.log[|s.log|];
          n !in s.log && Follows(t.cells, s.log, n))
  {
    Moves(s, e);
    OneNote(s, e);
    var c := Touched(s, e).value;
    assert CellLogged(s.log, s.callback, c, s.cells[c]);
    if e.Destroy? { DestroyCounted(s, e.alias); }
  }

  /** Once its credit is back a cell no longer changes whether it had a value. */
  lemma SettledValue(s: State, e: Event, c: nat)
    requires c < |s.cells| && Returned(s.cells[c].phase)
    ensures c < |Step(s, e).cells| && Step(s, e).cells[c].hadValue == s.cells[c].hadValue
  {
  }

  lemma OrderedKept(s: State, e: Event)
    requires Counted(s) && AliasesOk(s) && Logged(s) && Ordered(s)
    ensures Ordered(Step(s, e))
  {
    var t := Step(s, e);
    OneNote(s, e);
    forall j | 0 <= j < |s.log| ensures Follows(t.cells, s.log[..j], s.log[j]) {
      assert Follows(s.cells, s.log[..j], s.log[j]);
      FollowsStill(s, e, j);
    }
    if t.log != s.log {
      NewNote(s, e);
      OrderedGrows(t.cells, s.log, t.log[|s.log|]);
    }
  }

  lemma FollowsStill(s: State, e: Event, j: nat)
    requires Logged(s) && j < |s.log| && Follows(s.cells, s.log[..j], s.log[j])
    ensures Follows(Step(s, e).cells, s.log[..j], s.log[j])
  {
    var c := s.log[j].cell;
    assert CellLogged(s.log, s.callback, c, s.cells[c]);
    CellsGrow(s, e);
    if s.log[j].Refunded? { SettledValue(s, e, c); }
  }

  lemma CellsGrow(s: State, e: Event)
    ensures |s.cells| <= |Step(s, e).cells|
  {
  }

  lemma OrderedGrows(cells: seq<Cell>, log: seq<Note>, n: Note)
    requires Distinct(log) && forall j :: 0 <= j < |log| ==> Follows(cells, log[..j], log[j])
    requires n !in log && Follows(cells, log, n)
    ensures var t := log + [n]; Distinct(t) && forall j :: 0 <= j < |t| ==> Follows(cells, t[..j], t[j])
  {
    var t := log + [n];
    forall j | 0 <= j < |t| ensures Follows(cells, t[..j], t[j]) {
      assert t[..j] == log[..j];
      if j == |log| { assert log[..j] == log; }
    }
  }

  // ---- whole runs ----------------------------------------------------------------------

  lemma StepKeepsInv(s: State, e: Event)
    requires Inv(s)
    ensures Inv(Step(s, e))
  {
    AccountsKept(s, e);
    CountedKept(s, e);
    AliasesKept(s, e);
    LoggedKept(s, e);
    OrderedKept(s, e);
  }

  lemma {:induction false} RunKeepsInv(capacity: nat, callback: bool, events: seq<Event>)
    requires capacity <= USIZE_MAX
    ensures Inv(Run(Fresh(capacity, callback), events))
  {
    if events != [] {
      RunKeepsInv(capacity, callback, events[..|events| - 1]);
      StepKeepsInv(Run(Fresh(capacity, callback), events[..|events| - 1]), events[|events| - 1]);
    }
  }

  predicate NoneCharged(cells: seq<Cell>) {
    forall c :: 0 <= c < |cells| ==> !cells[c].phase.Charged?
  }

  /**
   At all times the bytes in use are the bytes of the live leases, within capacity. The gross
   count lags behind by the reservations whose second update is still to come, and is the
   saturated total ever reserved when there is none.
   */
  lemma CreditConserved(capacity: nat, callback: bool, events: seq<Event>)
    requires capacity <= USIZE_MAX
    ensures var s := Run(Fresh(capacity, callback), events);
      && s.used == Total(LiveBytes, s.cells) <= s.capacity
      && s.gross == Min(Total(GrossBytes, s.cells), USIZE_MAX)
      && (NoneCharged(s.cells) ==> s.gross == Min(Total(AllBytes, s.cells), USIZE_MAX))
  {
    RunKeepsInv(capacity, callback, events);
    var s := Run(Fresh(capacity, callback), events);
    if NoneCharged(s.cells) { TotalSame(GrossBytes, AllBytes, s.cells); }
  }

  /**
   A cell whose credit is back was refunded once, after its value was destroyed once; a cell
   whose credit is out was never refunded. A release callback rings once, after the refund.
   */
  lemma RefundedOnceAfterDestruction(capacity: nat, callback: bool, events: seq<Event>, c: nat)
    requires capacity <= USIZE_MAX && c < |Run(Fresh(capacity, callback), events).cells|
    ensures var s := Run(Fresh(capacity, callback), events);
      && Distinct(s.log)
      && (Refunded(c) in s.log <==> Returned(s.cells[c].phase))
      && (forall j :: 0 <= j < |s.log| && s.log[j] == Refunded(c) && s.cells[c].hadValue ==> Destroyed(c) in s.log[..j])
      && (forall j :: 0 <= j < |s.log| && s.log[j] == Notified(c) ==> Refunded(c) in s.log[..j])
  {
    RunKeepsInv(capacity, callback, events);
    var s := Run(Fresh(capacity, callback), events);
    assert CellLogged(s.log, s.callback, c, s.cells[c]);
    forall j | 0 <= j < |s.log| && s.log[j].cell == c ensures Follows(s.cells, s.log[..j], s.log[j]) {}
  }

  /** While any alias of a block remains its credit is out; while any can read it its value is alive. */
  lemma AliasKeepsCredit(capacity: nat, callback: bool, events: seq<Event>, a: nat)
    requires capacity <= USIZE_MAX && a < |Run(Fresh(capacity, callback), events).aliases|
    ensures var s := Run(Fresh(capacity, callback), events);
      !s.aliases[a].stage.Gone? ==>
        var c := s.aliases[a].cell;
        && c < |s.cells| && s.cells[c].phase.Shared? && Refunded(c) !in s.log
        && (HoldsPayload(s.aliases[a], c) || s.aliases[a].stage.Destroying? ==> Destroyed(c) !in s.log)
  {
    RunKeepsInv(capacity, callback, events);
    var s := Run(Fresh(capacity, callback), events);
    assert AliasOk(s, a);
    if !s.aliases[a].stage.Gone? {
      var c := s.aliases[a].cell;
      assert CellCounted(s, c) && CellLogged(s.log, s.callback, c, s.cells[c]);
      TotalAtLeast(PayloadRef(c), s.aliases, a);
      TotalAtLeast(DestroyerRef(c), s.aliases, a);
    }
  }

  /** While a destructor runs nobody else can read the value or destroy it, and the credit stays out. */
  lemma DestroyerIsAlone(capacity: nat, callback: bool, events: seq<Event>, a: nat, b: nat)
    requires capacity <= USIZE_MAX
    requires var s := Run(Fresh(capacity, callback), events);
      a < |s.aliases| && b < |s.aliases| && a != b && s.aliases[a].stage.Destroying?
    ensures var s := Run(Fresh(capacity, callback), events);
      var c := s.aliases[a].cell;
      && !HoldsPayload(s.aliases[b], c) && s.aliases[b] != Alias(c, Destroying)
      && Destroyed(c) !in s.log && Refunded(c) !in s.log
  {
    RunKeepsInv(capacity, callback, events);
    AliasKeepsCredit(capacity, callback, events, a);
    var s := Run(Fresh(capacity, callback), events);
    hide Run;
    var c := s.aliases[a].cell;
    assert CellCounted(s, c);
    TotalAtLeast(DestroyerRef(c), s.aliases, a);
    TotalAtLeast(PayloadRef(c), s.aliases, b);
    if s.aliases[b] == Alias(c, Destroying) {
      if a < b { TotalTwo(DestroyerRef(c), s.aliases, a, b); } else { TotalTwo(DestroyerRef(c), s.aliases, b, a); }
    }
  }

  /** A block whose aliases are all gone has its credit on the way back or back: nothing leaks. */
  lemma LastAliasReturnsCredit(capacity: nat, callback: bool, events: seq<Event>, c: nat)
    requires capacity <= USIZE_MAX && c < |Run(Fresh(capacity, callback), events).cells|
    ensures var s := Run(Fresh(capacity, callback), events);
      s.cells[c].phase.Shared? <==>
        exists a :: 0 <= a < |s.aliases| && s.aliases[a].cell == c && !s.aliases[a].stage.Gone?
  {
    RunKeepsInv(capacity, callback, events);
    var s := Run(Fresh(capacity, callback), events);
    assert CellCounted(s, c);
    if s.cells[c].phase.Shared? {
      var a := TotalWitness(CreditRef(c), s.aliases);
      assert s.aliases[a].cell == c && !s.aliases[a].stage.Gone?;
    } else {
      forall a | 0 <= a < |s.aliases| && s.aliases[a].cell == c ensures s.aliases[a].stage.Gone? {
        assert AliasOk(s, a);
      }
    }
  }

  /** A payload count of one means its holder is alone, whatever other threads are doing. */
  lemma SoleHolder(capacity: nat, callback: bool, events: seq<Event>, a: nat, b: nat)
    requires capacity <= USIZE_MAX
    requires var s := Run(Fresh(capacity, callback), events);
      a < |s.aliases| && b < |s.aliases| && a != b && s.aliases[a].cell < |s.cells|
      && HoldsPayload(s.aliases[a], s.aliases[a].cell)
      && s.cells[s.aliases[a].cell].phase.Shared? && s.cells[s.aliases[a].cell].phase.payloadRefs == 1
    ensures var s := Run(Fresh(capacity, callback), events); !HoldsPayload(s.aliases[b], s.aliases[a].cell)
  {
    RunKeepsInv(capacity, callback, events);
    var s := Run(Fresh(capacity, callback), events);
    var c := s.aliases[a].cell;
    assert CellCounted(s, c);
    if a < b { TotalTwo(PayloadRef(c), s.aliases, a, b); } else { TotalTwo(PayloadRef(c), s.aliases, b, a); }
  }

  predicate AllDone(cells: seq<Cell>) {
    forall c :: 0 <= c < |cells| ==> cells[c].phase.Done?
  }

  /** When every cell is done the pool is empty again. */
  lemma DrainedIsEmpty(capacity: nat, callback: bool, events: seq<Event>)
    requires capacity <= USIZE_MAX
    requires AllDone(Run(Fresh(capacity, callback), events).cells)
    ensures var s := Run(Fresh(capacity, callback), events);
      s.used == 0 && forall c :: 0 <= c < |s.cells| ==>
        Refunded(c) in s.log && (s.cells[c].hadValue ==> Destroyed(c) in s.log)
  {
    RunKeepsInv(capacity, callback, events);
    var s := Run(Fresh(capacity, callback), events);
    TotalNone(LiveBytes, s.cells);
    forall c | 0 <= c < |s.cells| ensures Refunded(c) in s.log && (s.cells[c].hadValue ==> Destroyed(c) in s.log) {
      assert CellLogged(s.log, s.callback, c, s.cells[c]);
    }
  }

  /** A step arms a cell's release callback only by activating it, and never disarms one. */
  lemma NotifyStays(s: State, e: Event, c: nat)
    requires c < |s.cells|
    ensures var t := Step(s, e);
      c < |t.cells| && (t.cells[c].notify <==>
        s.cells[c].notify || (e == Activate(c) && (s.cells[c].phase.Reserved? || s.cells[c].phase.Shared?)))
  {
    if !e.Reserve? { OneCell(s, e); }
  }

  /** A finished cell has rung exactly when it was published and the pool has a callback; rollback stays silent. */
  lemma RingsExactlyWhenPublished(capacity: nat, callback: bool, events: seq<Event>, c: nat)
    requires capacity <= USIZE_MAX && c < |Run(Fresh(capacity, callback), events).cells|
    ensures var s := Run(Fresh(capacity, callback), events);
      s.cells[c].phase.Done? ==> (Notified(c) in s.log <==> s.cells[c].notify && s.callback)
  {
    RunKeepsInv(capacity, callback, events);
    var s := Run(Fresh(capacity, callback), events);
    assert CellLogged(s.log, s.callback, c, s.cells[c]);
  }
}
