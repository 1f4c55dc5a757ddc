/**
 The fixed table that outlives its owner: an owner that is destroyed hands its debts to
 the first free place, the service loop takes them back from the first held one.
 */
module Terminals {
  import opened Prelude
  import opened Totals

  function Occupied<T>(x: Option<T>): nat {
    if x.Some? then 1 else 0
  }

  /** The first place without a debt; the length of the table when there is none. */
  function FirstFree<T>(s: seq<Option<T>>): (k: nat)
    ensures k <= |s| && (k < |s| ==> s[k].None?) && forall i :: 0 <= i < k ==> s[i].Some?
  {
    if s == [] || s[0].None? then 0 else 1 + FirstFree(s[1..])
  }

  function FirstHeld<T>(s: seq<Option<T>>): (k: nat)
    ensures k <= |s| && (k < |s| ==> s[k].Some?) && forall i :: 0 <= i < k ==> s[i].None?
  {
    if s == [] || s[0].Some? then 0 else 1 + FirstHeld(s[1..])
  }

  lemma {:induction false} FullTable<T>(s: seq<Option<T>>)
    ensures Total(Occupied, s) <= |s|
    ensures FirstFree(s) == |s| ==> Total(Occupied, s) == |s|
  {
    if s != [] { FullTable(s[1..]); }
  }

  /** A debt finds a place whenever fewer debts are held than there are places. */
  lemma RoomFound<T>(s: seq<Option<T>>)
    requires Total(Occupied, s) < |s|
    ensures FirstFree(s) < |s|
  {
    FullTable(s);
  }

  /** Taking from the first held place leaves one debt fewer; there is none to take only when there is no debt. */
  lemma TakeCounts<T>(s: seq<Option<T>>)
    ensures var k := FirstHeld(s);
      if k < |s| then Total(Occupied, s[k := None]) + 1 == Total(Occupied, s) else Total(Occupied, s) == 0
  {
    var k := FirstHeld(s);
    if k < |s| { TotalUpdate(Occupied, s, k, None); } else { TotalNone(Occupied, s); }
  }

  class Table<T> {
    const places: array<Option<T>>

    constructor (n: nat)
      ensures fresh(places) && places.Length == n && forall i :: 0 <= i < n ==> places[i].None?
    {
      places := new Option<T>[n](_ => None);
    }

    /** Hand a debt to the first free place. */
    method HandOff(x: T)
      requires Total(Occupied, places[..]) < places.Length
      modifies places
      ensures var k := FirstFree(old(places[..])); k < places.Length && places[..] == old(places[..])[k := Some(x)]
      ensures Total(Occupied, places[..]) == Total(Occupied, old(places[..])) + 1
    {
      ghost var was := places[..];
      RoomFound(was);
      var k := 0;
      while places[k].Some?
        invariant k <= FirstFree(was) < places.Length && places[..] == was
        decreases places.Length - k
      {
        assert was[k].Some?;
        k := k + 1;
      }
      assert was[k].None?;
      TotalUpdate(Occupied, was, k, Some(x));
      places[k] := Some(x);
      assert places[..] == was[k := Some(x)];
    }

    /** Take back the debt in the first held place, if any. */
    method Take() returns (r: Option<T>)
      modifies places
      ensures var was := old(places[..]); var k := FirstHeld(was);
        if k < |was| then r == was[k] && places[..] == was[k := None] else r == None && places[..] == was
    {
      ghost var was := places[..];
      var k := 0;
      while k < places.Length && places[k].None?
        invariant 0 <= k <= FirstHeld(was) && k <= places.Length && places[..] == was
      {
        assert was[k].None?;
        k := k + 1;
      }
      if k == places.Length { return None; }
      assert was[k].Some?;
      r := places[k];
      places[k] := None;
      assert places[..] == was[k := None];
    }
  }
}
