/** Well-formed UTF-8 (table 3-7 of the Unicode standard) and ASCII lower case. */
module Utf8 {
  import opened Prelude

  predicate In(lo: Byte, c: Byte, hi: Byte) {
    lo <= c <= hi
  }

  predicate Cont(c: Byte) {
    In(0x80, c, 0xBF)
  }

  /** Length of the scalar value at the front, or zero when there is none. */
  function ScalarLen(b: Bytes): (n: nat)
    ensures n <= |b|
  {
    if b == [] then 0
    else if b[0] < 0x80 then 1
    else if |b| >= 2 && In(0xC2, b[0], 0xDF) && Cont(b[1]) then 2
    else if |b| >= 3 && Three(b[0], b[1]) && Cont(b[2]) then 3
    else if |b| >= 4 && Four(b[0], b[1]) && Cont(b[2]) && Cont(b[3]) then 4
    else 0
  }

  predicate Three(a: Byte, b: Byte) {
    if a == 0xE0 then In(0xA0, b, 0xBF)
    else if a == 0xED then In(0x80, b, 0x9F)
    else In(0xE1, a, 0xEF) && Cont(b)
  }

  predicate Four(a: Byte, b: Byte) {
    if a == 0xF0 then In(0x90, b, 0xBF)
    else if a == 0xF4 then In(0x80, b, 0x8F)
    else In(0xF1, a, 0xF3) && Cont(b)
  }

  predicate Valid(b: Bytes) {
    b == [] || (ScalarLen(b) > 0 && Valid(b[ScalarLen(b)..]))
  }

  /** The first scalar of a text does not depend on what follows the text. */
  lemma FirstScalar(a: Bytes, b: Bytes)
    requires ScalarLen(a) > 0
    ensures ScalarLen(a + b) == ScalarLen(a)
  {
  }

  lemma {:induction false} ValidConcat(a: Bytes, b: Bytes)
    requires Valid(a) && Valid(b)
    ensures Valid(a + b)
  {
    hide ScalarLen;
    if a == [] {
      assert a + b == b;
    } else {
      var n := ScalarLen(a);
      ValidConcat(a[n..], b);
      FirstScalar(a, b);
      assert (a + b)[n..] == a[n..] + b;
    }
  }

  /** Cutting well-formed text at a scalar boundary leaves well-formed text. */
  lemma {:induction false} ValidSuffix(a: Bytes, b: Bytes)
    requires Valid(a) && Valid(a + b)
    ensures Valid(b)
  {
    if a == [] {
      assert a + b == b;
    } else {
      var n := ScalarLen(a);
      FirstScalar(a, b);
      assert (a + b)[n..] == a[n..] + b;
      ValidSuffix(a[n..], b);
    }
  }

  /** Text is well-formed around an ASCII byte exactly when both sides are. */
  lemma {:induction false} ValidSplit(a: Bytes, c: Byte, b: Bytes)
    requires c < 0x80 && Valid(a + [c] + b)
    ensures Valid(a) && Valid(b)
  {
    var s := a + [c] + b;
    if a == [] {
      assert s[1..] == b;
    } else {
      var n := ScalarLen(s);
      assert s[|a|] == c;
      assert n <= |a|;
      assert s[n..] == a[n..] + [c] + b;
      ValidSplit(a[n..], c, b);
      assert ScalarLen(a) == n;
    }
  }

  lemma {:induction false} AsciiValid(b: Bytes)
    requires forall i :: 0 <= i < |b| ==> b[i] < 0x80
    ensures Valid(b)
  {
    if b != [] { AsciiValid(b[1..]); }
  }

  // ---- lower case ----------------------------------------------------------

  function LowerByte(c: Byte): Byte {
    if 65 <= c <= 90 then c + 32 else c
  }

  function Lower(b: Bytes): (r: Bytes)
    ensures |r| == |b| && forall i :: 0 <= i < |b| ==> r[i] == LowerByte(b[i])
  {
    seq(|b|, i requires 0 <= i < |b| => LowerByte(b[i]))
  }

  lemma LowerTwice(b: Bytes)
    ensures Lower(Lower(b)) == Lower(b)
  {
  }

  lemma {:induction false} LowerValid(b: Bytes)
    requires Valid(b)
    ensures Valid(Lower(b))
  {
    if b != [] {
      var n := ScalarLen(b);
      LowerValid(b[n..]);
      assert ScalarLen(Lower(b)) == n;
      assert Lower(b)[n..] == Lower(b[n..]);
    }
  }
}
