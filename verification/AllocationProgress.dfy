/**
 What the pool grants, and that it can always be emptied: wherever a run stands, the
 outstanding clones, drops, destructors and refunds can be carried through to the end.
 */
module AllocationProgress {
  import opened Prelude
  import opened Totals
  import opened Allocation

  /** A reservation is granted exactly when it is not empty and fits the free capacity; a refusal changes nothing. */
  lemma GrantedExactly(capacity: nat, callback: bool, events: seq<Event>, bytes: nat, notify: bool)
    requires capacity <= USIZE_MAX
    ensures var s := Run(Fresh(capacity, callback), events);
      Step(s, Reserve(bytes, notify)) ==
        if 0 < bytes && s.used + bytes <= s.capacity
        then s.(used := s.used + bytes, cells := s.cells + [Cell(bytes, notify, false, Charged)])
        else s
  {
    RunKeepsInv(capacity, callback, events);
  }

  // ---- how far a run is from the end ---------------------------------------------

  function AliasRank(a: Alias): nat {
    match a.stage case HalfCloned(_) => 4 case Whole => 3 case Destroying => 2 case HalfDropped => 1 case Gone => 0
  }

  function CellRank(c: Cell): nat {
    match c.phase
    case Charged => 4
    case Reserved => 3
    case Building(container) => if container then 5 else 6
    case Failed(container) => if container then 4 else 3
    case Shared(_, _, _) => 3
    case Returning => 2
    case Ringing => 1
    case Done => 0
  }

  function Distance(s: State): nat {
    Total(AliasRank, s.aliases) + Total(CellRank, s.cells)
  }

  predicate Drained(s: State) {
    && (forall a :: 0 <= a < |s.aliases| ==> s.aliases[a].stage.Gone?)
    && (forall c :: 0 <= c < |s.cells| ==> s.cells[c].phase.Done?)
  }

  /** An event that changes one cell and at most one alias, neither for the worse and one for the better. */
  lemma Nearer(s: State, t: State, a: Option<nat>, c: nat)
    requires c < |s.cells| == |t.cells| && t.cells == s.cells[c := t.cells[c]]
    requires a.Some? ==> a.value < |s.aliases| == |t.aliases| && t.aliases == s.aliases[a.value := t.aliases[a.value]]
    requires a.None? ==> t.aliases == s.aliases
    requires CellRank(t.cells[c]) <= CellRank(s.cells[c])
    requires a.Some? ==> AliasRank(t.aliases[a.value]) < AliasRank(s.aliases[a.value])
    requires a.None? ==> CellRank(t.cells[c]) < CellRank(s.cells[c])
    ensures Distance(t) < Distance(s)
  {
    TotalUpdate(CellRank, s.cells, c, t.cells[c]);
    if a.Some? { TotalUpdate(AliasRank, s.aliases, a.value, t.aliases[a.value]); }
  }

  // ---- some event always helps ------------------------------------------------------

  lemma CloneEndHelps(s: State, a: nat)
    requires Inv(s) && a < |s.aliases| && s.aliases[a].stage.HalfCloned?
    ensures Distance(Step(s, CloneEnd(a))) < Distance(s)
  {
    assert AliasOk(s, a);
    Nearer(s, Step(s, CloneEnd(a)), Some(a), s.aliases[a].cell);
  }

  lemma DropHelps(s: State, a: nat) returns (e: Event)
    requires Inv(s) && a < |s.aliases| && !s.aliases[a].stage.Gone?
    requires forall i :: 0 <= i < |s.aliases| ==> !s.aliases[i].stage.HalfCloned?
    ensures Distance(Step(s, e)) < Distance(s)
  {
    assert AliasOk(s, a);
    assert !Lent(s, a);
    e := match s.aliases[a].stage
      case Whole => DropPayload(a)
      case Destroying => Destroy(a)
      case HalfDropped => DropCredit(a)
      case _ => CloneEnd(a);
    Nearer(s, Step(s, e), Some(a), s.aliases[a].cell);
  }

  lemma CellHelps(s: State, c: nat) returns (e: Event)
    requires c < |s.cells| && !s.cells[c].phase.Shared? && !s.cells[c].phase.Done?
    ensures Distance(Step(s, e)) < Distance(s)
  {
    e := match s.cells[c].phase
      case Charged => CountGross(c)
      case Reserved => DropLease(c)
      case Building(container) => (if container then AllocatePayload(c, false) else AllocateContainer(c, false))
      case Failed(container) => (if container then FreeContainer(c) else DropLease(c))
      case Returning => Refund(c)
      case _ => Ring(c);
    Nearer(s, Step(s, e), None, c);
  }

  lemma SharedHasAlias(s: State, c: nat) returns (a: nat)
    requires Inv(s) && c < |s.cells| && s.cells[c].phase.Shared?
    ensures a < |s.aliases| && !s.aliases[a].stage.Gone?
  {
    assert CellCounted(s, c);
    a := TotalWitness(CreditRef(c), s.aliases);
  }

  lemma SomethingHelps(s: State) returns (e: Event)
    requires Inv(s) && !Drained(s)
    ensures Distance(Step(s, e)) < Distance(s)
  {
    hide Inv, Step, Distance;
    if a :| 0 <= a < |s.aliases| && s.aliases[a].stage.HalfCloned? {
      CloneEndHelps(s, a);
      e := CloneEnd(a);
    } else if a :| 0 <= a < |s.aliases| && !s.aliases[a].stage.Gone? {
      e := DropHelps(s, a);
    } else {
      var c :| 0 <= c < |s.cells| && !s.cells[c].phase.Done?;
      if s.cells[c].phase.Shared? {
        var a := SharedHasAlias(s, c);
        assert false;
      } else {
        e := CellHelps(s, c);
      }
    }
  }

  lemma {:induction false} RunAppend(s: State, events: seq<Event>, more: seq<Event>)
    ensures Run(s, events + more) == Run(Run(s, events), more)
  {
    hide Step;
    if more == [] {
      assert events + more == events;
    } else {
      var front := more[..|more| - 1];
      RunAppend(s, events, front);
      assert (events + more)[..|events + more| - 1] == events + front;
    }
  }

  lemma {:induction false} Drain(s: State) returns (more: seq<Event>)
    requires Inv(s)
    ensures Drained(Run(s, more)) && Inv(Run(s, more))
    decreases Distance(s)
  {
    hide Inv, Step, Distance, Drained;
    if Drained(s) {
      more := [];
    } else {
      var e := SomethingHelps(s);
      StepKeepsInv(s, e);
      var rest := Drain(Step(s, e));
      RunAppend(s, [e], rest);
      assert [e][..0] == [] && Run(s, []) == s;
      assert Run(s, [e]) == Step(s, e);
      more := [e] + rest;
    }
  }

  /**
   Wherever a run stands it can be completed: every clone and drop ended, every value destroyed,
   every credit refunded, and the pool empty.
   */
  lemma PoolCanBeEmptied(capacity: nat, callback: bool, events: seq<Event>)
    requires capacity <= USIZE_MAX
    ensures exists more :: var s := Run(Fresh(capacity, callback), events + more); Drained(s) && s.used == 0
  {
    RunKeepsInv(capacity, callback, events);
    var more := Drain(Run(Fresh(capacity, callback), events));
    RunAppend(Fresh(capacity, callback), events, more);
    DrainedIsEmpty(capacity, callback, events + more);
  }

  /** A whole alias that nobody is cloning can be cloned, and the clone is another whole alias of the block. */
  lemma CloneMakesAlias(s: State, a: nat)
    requires Inv(s) && a < |s.aliases| && s.aliases[a].stage.Whole?
    ensures s.aliases[a].cell < |s.cells| && s.cells[s.aliases[a].cell].phase.Shared?
    ensures var t := Step(Step(s, CloneStart(a)), CloneEnd(|s.aliases|));
      var (c, p) := (s.aliases[a].cell, s.cells[s.aliases[a].cell].phase);
      && t.aliases == s.aliases + [Alias(c, Whole)]
      && t.cells[c].phase == Shared(p.payloadRefs + 1, p.creditRefs + 1, p.value)
  {
    assert AliasOk(s, a);
    var u := Step(s, CloneStart(a));
    assert Stands(u, |s.aliases|, HalfCloned(a));
  }

  /** A reservation can be built into a shared block with one alias, both counts at one and its value standing. */
  lemma ReservedCanBeShared(s: State, c: nat)
    requires c < |s.cells| && s.cells[c].phase.Charged?
    ensures var built := Step(Step(Step(s, CountGross(c)), StartBuild(c)), AllocateContainer(c, true));
      var t := Step(built, AllocatePayload(c, true));
      && c < |t.cells| && t.cells[c].phase == Shared(1, 1, true)
      && t.aliases == s.aliases + [Alias(c, Whole)] && t.used == s.used
  {
  }
}
