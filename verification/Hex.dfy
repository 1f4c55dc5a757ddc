/** Lower-case hexadecimal text. */
module Hex {
  import opened Prelude
  import opened Utf8

  function Digit(n: nat): Byte
    requires n < 16
  {
    if n < 10 then 48 + n else 87 + n
  }

  function Encode(b: Bytes): (r: Bytes)
    ensures |r| == 2 * |b|
    ensures forall i :: 0 <= i < |r| ==> r[i] < 0x80 && LowerByte(r[i]) == r[i]
  {
    if b == [] then [] else [Digit(b[0] / 16), Digit(b[0] % 16)] + Encode(b[1..])
  }

  function NibbleOf(c: Byte): (r: Option<nat>)
    ensures r.Some? ==> r.value < 16 && Digit(r.value) == LowerByte(c)
  {
    if 48 <= c <= 57 then Some(c - 48)
    else if 97 <= c <= 102 then Some(c - 87)
    else if 65 <= c <= 70 then Some(c - 55)
    else None
  }

  function Decode(s: Bytes): Option<Bytes> {
    if s == [] then Some([])
    else if |s| == 1 then None
    else
      match (NibbleOf(s[0]), NibbleOf(s[1]), Decode(s[2..]))
      case (Some(hi), Some(lo), Some(rest)) => Some([hi * 16 + lo] + rest)
      case _ => None
  }

  /** Decoding undoes encoding; so different bytes have different text. */
  lemma {:induction false} DecodeOfEncode(b: Bytes)
    ensures Decode(Encode(b)) == Some(b)
  {
    if b != [] {
      DecodeOfEncode(b[1..]);
      assert Encode(b)[2..] == Encode(b[1..]);
      assert b == [b[0]] + b[1..];
    }
  }

  /** Re-encoding decoded text gives that text in lower case. */
  lemma {:induction false} EncodeOfDecode(s: Bytes)
    requires Decode(s).Some?
    ensures Encode(Decode(s).value) == Lower(s)
  {
    hide LowerByte;
    if s != [] {
      EncodeOfDecode(s[2..]);
      var b := Decode(s).value;
      assert b[1..] == Decode(s[2..]).value;
      assert Lower(s) == [LowerByte(s[0]), LowerByte(s[1])] + Lower(s[2..]);
    }
  }

  /** A hexadecimal digit in either case. */
  predicate IsHex(c: Byte) {
    48 <= c <= 57 || 65 <= c <= 70 || 97 <= c <= 102
  }

  /** Text decodes exactly when it is an even number of digits, in either case. */
  lemma {:induction false} DecodesExactly(s: Bytes)
    ensures Decode(s).Some? <==> |s| % 2 == 0 && forall i :: 0 <= i < |s| ==> IsHex(s[i])
  {
    if |s| >= 2 {
      DecodesExactly(s[2..]);
      assert forall i :: 0 <= i < |s| - 2 ==> s[2..][i] == s[i + 2];
      assert forall i :: 2 <= i < |s| ==> s[i] == s[2..][i - 2];
    }
  }
}
