/** Well-formed text is exactly what encoding a sequence of Unicode scalar values gives. */
module Utf8Scalars {
  import opened Prelude
  import opened Utf8

  /** A code point that is not a surrogate. */
  predicate Scalar(c: nat) {
    c < 0xD800 || 0xE000 <= c < 0x11_0000
  }

  function EncodeScalar(c: nat): (b: Bytes)
    requires Scalar(c)
    ensures 0 < |b| <= 4
  {
    if c < 0x80 then [c]
    else if c < 0x800 then [0xC0 + c / 64, 0x80 + c % 64]
    else if c < 0x1_0000 then [0xE0 + c / 4096, 0x80 + c / 64 % 64, 0x80 + c % 64]
    else [0xF0 + c / 262144, 0x80 + c / 4096 % 64, 0x80 + c / 64 % 64, 0x80 + c % 64]
  }

  predicate AllScalars(cs: seq<nat>) {
    forall i :: 0 <= i < |cs| ==> Scalar(cs[i])
  }

  function EncodeScalars(cs: seq<nat>): Bytes
    requires AllScalars(cs)
  {
    if cs == [] then [] else EncodeScalar(cs[0]) + EncodeScalars(cs[1..])
  }

  /** A number from its six-bit digits. */
  lemma SixBits(x: nat, y: nat)
    requires y < 64
    ensures (x * 64 + y) / 64 == x && (x * 64 + y) % 64 == y
  {
  }

  lemma TwoDigits(c: nat)
    ensures c / 4096 == c / 64 / 64 && c / 262144 == c / 4096 / 64
  {
  }

  lemma ShortLength(c: nat, rest: Bytes)
    requires c < 0x800
    ensures ScalarLen(EncodeScalar(c) + rest) == |EncodeScalar(c)|
  {
    var e := EncodeScalar(c);
    assert forall i :: 0 <= i < |e| ==> (e + rest)[i] == e[i];
  }

  lemma MiddleLength(c: nat, rest: Bytes)
    requires Scalar(c) && 0x800 <= c < 0x1_0000
    ensures ScalarLen(EncodeScalar(c) + rest) == 3
  {
    var e := EncodeScalar(c);
    assert (e + rest)[0] == e[0] && (e + rest)[1] == e[1] && (e + rest)[2] == e[2];
    TwoDigits(c);
    assert Three(e[0], e[1]);
  }

  lemma LongLength(c: nat, rest: Bytes)
    requires Scalar(c) && 0x1_0000 <= c
    ensures ScalarLen(EncodeScalar(c) + rest) == 4
  {
    var e := EncodeScalar(c);
    assert (e + rest)[0] == e[0] && (e + rest)[1] == e[1] && (e + rest)[2] == e[2] && (e + rest)[3] == e[3];
    TwoDigits(c);
    assert Four(e[0], e[1]);
  }

  lemma EncodedLength(c: nat, rest: Bytes)
    requires Scalar(c)
    ensures ScalarLen(EncodeScalar(c) + rest) == |EncodeScalar(c)|
  {
    hide ScalarLen;
    if c < 0x800 {
      ShortLength(c, rest);
    } else if c < 0x1_0000 {
      MiddleLength(c, rest);
    } else {
      LongLength(c, rest);
    }
  }

  /** The six bits that a continuation byte carries. */
  function Carried(c: Byte): nat {
    if c >= 0x80 then c - 0x80 else 0
  }

  /** The scalar value at the front of a text. */
  function Front(b: Bytes): nat
    requires ScalarLen(b) > 0
  {
    match ScalarLen(b)
    case 1 => b[0]
    case 2 => (b[0] as int - 0xC0) * 64 + Carried(b[1])
    case 3 => ((b[0] as int - 0xE0) * 64 + Carried(b[1])) * 64 + Carried(b[2])
    case _ => (((b[0] as int - 0xF0) * 64 + Carried(b[1])) * 64 + Carried(b[2])) * 64 + Carried(b[3])
  }

  lemma FrontOfTwo(b: Bytes)
    requires ScalarLen(b) == 2
    ensures Scalar(Front(b)) && EncodeScalar(Front(b)) == b[..2]
  {
    SixBits(b[0] - 0xC0, Carried(b[1]));
    assert b[..2] == [b[0], b[1]];
  }

  lemma FrontOfThree(b: Bytes)
    requires ScalarLen(b) == 3
    ensures Scalar(Front(b)) && EncodeScalar(Front(b)) == b[..3]
  {
    var x := (b[0] as int - 0xE0) * 64 + Carried(b[1]);
    SixBits(b[0] - 0xE0, Carried(b[1]));
    SixBits(x, Carried(b[2]));
    TwoDigits(Front(b));
    assert b[..3] == [b[0], b[1], b[2]];
  }

  lemma FrontOfFour(b: Bytes)
    requires ScalarLen(b) == 4
    ensures Scalar(Front(b)) && EncodeScalar(Front(b)) == b[..4]
  {
    var x := (b[0] as int - 0xF0) * 64 + Carried(b[1]);
    var y := x * 64 + Carried(b[2]);
    SixBits(b[0] - 0xF0, Carried(b[1]));
    SixBits(x, Carried(b[2]));
    SixBits(y, Carried(b[3]));
    TwoDigits(Front(b));
    assert b[..4] == [b[0], b[1], b[2], b[3]];
  }

  lemma FrontEncodes(b: Bytes)
    requires ScalarLen(b) > 0
    ensures Scalar(Front(b)) && EncodeScalar(Front(b)) == b[..ScalarLen(b)]
  {
    if ScalarLen(b) == 2 {
      FrontOfTwo(b);
    } else if ScalarLen(b) == 3 {
      FrontOfThree(b);
    } else if ScalarLen(b) == 4 {
      FrontOfFour(b);
    }
  }

  function Scalars(b: Bytes): (cs: seq<nat>)
    requires Valid(b)
  {
    if b == [] then [] else [Front(b)] + Scalars(b[ScalarLen(b)..])
  }

  lemma {:induction false} ScalarsEncode(b: Bytes)
    requires Valid(b)
    ensures AllScalars(Scalars(b)) && EncodeScalars(Scalars(b)) == b
  {
    hide ScalarLen, Front, EncodeScalar;
    if b != [] {
      var n := ScalarLen(b);
      ScalarsEncode(b[n..]);
      FrontEncodes(b);
      assert Scalars(b)[1..] == Scalars(b[n..]);
      assert b == b[..n] + b[n..];
    }
  }

  lemma {:induction false} EncodedIsValid(cs: seq<nat>)
    requires AllScalars(cs)
    ensures Valid(EncodeScalars(cs))
  {
    hide ScalarLen, EncodeScalar;
    if cs != [] {
      var e, rest := EncodeScalar(cs[0]), EncodeScalars(cs[1..]);
      EncodedIsValid(cs[1..]);
      EncodedLength(cs[0], rest);
      assert (e + rest)[|e|..] == rest;
    }
  }

  /** A byte string is well-formed exactly when it encodes some sequence of scalar values. */
  lemma ValidExactly(b: Bytes)
    ensures Valid(b) <==> exists cs :: AllScalars(cs) && EncodeScalars(cs) == b
  {
    if Valid(b) { ScalarsEncode(b); }
    forall cs | AllScalars(cs) && EncodeScalars(cs) == b ensures Valid(b) { EncodedIsValid(cs); }
  }
}
