/** Sums over a table whose rows are appended and updated one at a time. */
module Totals {
  function Total<T>(w: T -> nat, s: seq<T>): nat {
    if s == [] then 0 else w(s[0]) + Total(w, s[1..])
  }

  lemma {:induction false} TotalUpdate<T>(w: T -> nat, s: seq<T>, i: nat, x: T)
    requires i < |s|
    ensures Total(w, s[i := x]) + w(s[i]) == Total(w, s) + w(x)
  {
    if i == 0 {
      assert s[0 := x][1..] == s[1..];
    } else {
      TotalUpdate(w, s[1..], i - 1, x);
      assert s[i := x][1..] == s[1..][i - 1 := x];
    }
  }

  lemma {:induction false} TotalSnoc<T>(w: T -> nat, s: seq<T>, x: T)
    ensures Total(w, s + [x]) == Total(w, s) + w(x)
  {
    if s == [] {
      assert s + [x] == [x];
    } else {
      TotalSnoc(w, s[1..], x);
      assert (s + [x])[1..] == s[1..] + [x];
    }
  }

  lemma {:induction false} TotalAtLeast<T>(w: T -> nat, s: seq<T>, i: nat)
    requires i < |s|
    ensures w(s[i]) <= Total(w, s)
  {
    if i > 0 { TotalAtLeast(w, s[1..], i - 1); }
  }

  lemma TotalTwo<T>(w: T -> nat, s: seq<T>, i: nat, j: nat)
    requires i < j < |s|
    ensures w(s[i]) + w(s[j]) <= Total(w, s)
    decreases |s|
  {
    if i > 0 {
      TotalTwo(w, s[1..], i - 1, j - 1);
    } else {
      TotalAtLeast(w, s[1..], j - 1);
    }
  }

  /** A positive sum has a positive row. */
  lemma {:induction false} TotalWitness<T>(w: T -> nat, s: seq<T>) returns (i: nat)
    requires Total(w, s) > 0
    ensures i < |s| && w(s[i]) > 0
  {
    if w(s[0]) > 0 {
      i := 0;
    } else {
      i := TotalWitness(w, s[1..]);
      i := i + 1;
    }
  }

  /** Rows that all weigh the same under two measures have the same sums. */
  lemma {:induction false} TotalSame<T>(v: T -> nat, w: T -> nat, s: seq<T>)
    requires forall i :: 0 <= i < |s| ==> v(s[i]) == w(s[i])
    ensures Total(v, s) == Total(w, s)
  {
    if s != [] { TotalSame(v, w, s[1..]); }
  }

  lemma {:induction false} TotalNone<T>(w: T -> nat, s: seq<T>)
    requires forall i :: 0 <= i < |s| ==> w(s[i]) == 0
    ensures Total(w, s) == 0
  {
    if s != [] { TotalNone(w, s[1..]); }
  }

  lemma {:induction false} TotalAtMost<T>(v: T -> nat, w: T -> nat, s: seq<T>)
    requires forall i :: 0 <= i < |s| ==> v(s[i]) <= w(s[i])
    ensures Total(v, s) <= Total(w, s)
  {
    if s != [] { TotalAtMost(v, w, s[1..]); }
  }

  lemma {:induction false} TotalSum<T>(u: T -> nat, v: T -> nat, w: T -> nat, s: seq<T>)
    requires forall i :: 0 <= i < |s| ==> w(s[i]) == u(s[i]) + v(s[i])
    ensures Total(w, s) == Total(u, s) + Total(v, s)
  {
    if s != [] { TotalSum(u, v, w, s[1..]); }
  }

  lemma {:induction false} TotalConcat<T>(w: T -> nat, a: seq<T>, b: seq<T>)
    ensures Total(w, a + b) == Total(w, a) + Total(w, b)
  {
    if a == [] {
      assert a + b == b;
    } else {
      TotalConcat(w, a[1..], b);
      assert (a + b)[1..] == a[1..] + b;
    }
  }

  lemma TotalRemove<T>(w: T -> nat, s: seq<T>, i: nat)
    requires i < |s|
    ensures Total(w, s[..i] + s[i + 1..]) + w(s[i]) == Total(w, s)
  {
    TotalConcat(w, s[..i], s[i + 1..]);
    TotalConcat(w, s[..i], s[i..]);
    assert s[..i] + s[i..] == s && s[i..][1..] == s[i + 1..];
  }

  /** Two measures that differ on one row only. */
  lemma {:induction false} TotalDiffer<T>(v: T -> nat, w: T -> nat, s: seq<T>, k: nat)
    requires k < |s| && forall i :: 0 <= i < |s| && i != k ==> v(s[i]) == w(s[i])
    ensures Total(v, s) + w(s[k]) == Total(w, s) + v(s[k])
  {
    if k == 0 {
      TotalSame(v, w, s[1..]);
    } else {
      TotalDiffer(v, w, s[1..], k - 1);
    }
  }

  lemma {:induction false} TotalOnes<T>(w: T -> nat, s: seq<T>)
    requires forall i :: 0 <= i < |s| ==> w(s[i]) <= 1
    ensures Total(w, s) <= |s|
  {
    if s != [] { TotalOnes(w, s[1..]); }
  }
}
