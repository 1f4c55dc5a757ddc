/**
 Wire formats as encoder/decoder pairs. A decoder takes bytes and gives a value and
 the bytes after it. `Exact` says the pair is a bijection between valid values and
 the byte strings the decoder accepts; it is closed under counted repetition.
 */
module Codec {
  import opened Prelude

  type Parsed<+T> = Option<(T, Bytes)>

  ghost predicate Sound<T(!new)>(valid: T -> bool, enc: T -> Bytes, dec: Bytes -> Parsed<T>) {
    forall b :: dec(b).Some? ==> valid(dec(b).value.0) && b == enc(dec(b).value.0) + dec(b).value.1
  }

  ghost predicate Complete<T(!new)>(valid: T -> bool, enc: T -> Bytes, dec: Bytes -> Parsed<T>) {
    forall x, rest {:trigger dec(enc(x) + rest)} :: valid(x) ==> dec(enc(x) + rest) == Some((x, rest))
  }

  ghost predicate Exact<T(!new)>(valid: T -> bool, enc: T -> Bytes, dec: Bytes -> Parsed<T>) {
    Sound(valid, enc, dec) && Complete(valid, enc, dec)
  }

  /** Bytes after a decodable string change nothing but the remainder. */
  lemma DecodeExtends<T(!new)>(valid: T -> bool, enc: T -> Bytes, dec: Bytes -> Parsed<T>, p: Bytes, tail: Bytes)
    requires Exact(valid, enc, dec)
    ensures dec(p).Some? ==> dec(p + tail) == Some((dec(p).value.0, dec(p).value.1 + tail))
  {
    if dec(p).Some? {
      var (y, rest) := dec(p).value;
      assert p + tail == enc(y) + (rest + tail);
      assert dec(enc(y) + (rest + tail)) == Some((y, rest + tail));
    }
  }

  /** No strict prefix of an encoding decodes to anything. */
  lemma PrefixRefused<T(!new)>(valid: T -> bool, enc: T -> Bytes, dec: Bytes -> Parsed<T>, x: T, p: Bytes)
    requires Exact(valid, enc, dec) && valid(x) && p < enc(x)
    ensures dec(p) == None
  {
    var tail := enc(x)[|p|..];
    assert p + tail == enc(x) + [];
    assert dec(enc(x) + []) == Some((x, []));
    DecodeExtends(valid, enc, dec, p, tail);
  }

  // ---- repetition ----------------------------------------------------------

  function EncodeAll<T>(enc: T -> Bytes, xs: seq<T>): Bytes {
    if xs == [] then [] else enc(xs[0]) + EncodeAll(enc, xs[1..])
  }

  function DecodeAll<T>(dec: Bytes -> Parsed<T>, n: nat, b: Bytes): Parsed<seq<T>> {
    if n == 0 then Some(([], b))
    else match dec(b)
      case None => None
      case Some((x, rest)) =>
        match DecodeAll(dec, n - 1, rest)
        case None => None
        case Some((xs, last)) => Some(([x] + xs, last))
  }

  ghost predicate AllValid<T>(valid: T -> bool, xs: seq<T>) {
    forall i :: 0 <= i < |xs| ==> valid(xs[i])
  }

  lemma {:induction false} EncodeAllConcat<T>(enc: T -> Bytes, xs: seq<T>, ys: seq<T>)
    ensures EncodeAll(enc, xs + ys) == EncodeAll(enc, xs) + EncodeAll(enc, ys)
  {
    if xs == [] {
      assert xs + ys == ys;
    } else {
      EncodeAllConcat(enc, xs[1..], ys);
      assert (xs + ys)[0] == xs[0] && (xs + ys)[1..] == xs[1..] + ys;
      Regroup(enc(xs[0]), EncodeAll(enc, xs[1..]), EncodeAll(enc, ys));
    }
  }

  lemma Regroup(a: Bytes, b: Bytes, c: Bytes)
    ensures a + (b + c) == a + b + c
  {
  }

  lemma EncodeAllSnoc<T>(enc: T -> Bytes, xs: seq<T>, x: T)
    ensures EncodeAll(enc, xs + [x]) == EncodeAll(enc, xs) + enc(x)
  {
    EncodeAllConcat(enc, xs, [x]);
    assert EncodeAll(enc, [x]) == enc(x) + EncodeAll(enc, []);
  }

  lemma {:induction false} DecodeAllSound<T(!new)>(valid: T -> bool, enc: T -> Bytes, dec: Bytes -> Parsed<T>, n: nat,
    b: Bytes)
    requires Sound(valid, enc, dec)
    ensures DecodeAll(dec, n, b).Some? ==>
      var (xs, rest) := DecodeAll(dec, n, b).value;
      |xs| == n && AllValid(valid, xs) && b == EncodeAll(enc, xs) + rest
  {
    if n > 0 && DecodeAll(dec, n, b).Some? {
      var (x, rest) := dec(b).value;
      DecodeAllSound(valid, enc, dec, n - 1, rest);
      var xs := DecodeAll(dec, n - 1, rest).value.0;
      assert ([x] + xs)[1..] == xs;
    }
  }

  lemma {:induction false} DecodeAllComplete<T(!new)>(valid: T -> bool, enc: T -> Bytes, dec: Bytes -> Parsed<T>,
    xs: seq<T>, rest: Bytes)
    requires Complete(valid, enc, dec) && AllValid(valid, xs)
    ensures DecodeAll(dec, |xs|, EncodeAll(enc, xs) + rest) == Some((xs, rest))
  {
    if xs == [] {
      assert EncodeAll(enc, xs) + rest == rest;
    } else {
      var tail := EncodeAll(enc, xs[1..]) + rest;
      assert valid(xs[0]);
      assert EncodeAll(enc, xs) + rest == enc(xs[0]) + tail;
      assert dec(enc(xs[0]) + tail) == Some((xs[0], tail));
      DecodeAllComplete(valid, enc, dec, xs[1..], rest);
      assert xs == [xs[0]] + xs[1..];
    }
  }

  // ---- counted repetition: a 32-bit little-endian count, then the items ----

  function EncodeCounted<T>(enc: T -> Bytes, xs: seq<T>): Bytes {
    LE(|xs|, 4) + EncodeAll(enc, xs)
  }

  function DecodeCounted<T>(dec: Bytes -> Parsed<T>, b: Bytes): Parsed<seq<T>> {
    if |b| < 4 then None else DecodeAll(dec, FromLE(b[..4]), b[4..])
  }

  ghost predicate CountedValid<T>(valid: T -> bool, xs: seq<T>) {
    |xs| < U32 && AllValid(valid, xs)
  }

  lemma CountedExact<T(!new)>(valid: T -> bool, enc: T -> Bytes, dec: Bytes -> Parsed<T>, xs: seq<T>, rest: Bytes,
    b: Bytes)
    requires Exact(valid, enc, dec)
    ensures DecodeCounted(dec, b) == Some((xs, rest)) <==> CountedValid(valid, xs) && b == EncodeCounted(enc, xs) + rest
  {
    WordSizes();
    if CountedValid(valid, xs) && b == EncodeCounted(enc, xs) + rest {
      LERoundTrip(|xs|, 4);
      assert b[..4] == LE(|xs|, 4) && b[4..] == EncodeAll(enc, xs) + rest;
      DecodeAllComplete(valid, enc, dec, xs, rest);
    }
    if DecodeCounted(dec, b) == Some((xs, rest)) {
      DecodeAllSound(valid, enc, dec, FromLE(b[..4]), b[4..]);
      FromLERange(b[..4]);
      LEOfFromLE(b[..4]);
      assert b == b[..4] + b[4..];
    }
  }

  // ---- what a decoding loop has collected so far ---------------------------

  function Prepend<T>(done: seq<T>, r: Parsed<seq<T>>): Parsed<seq<T>> {
    match r
    case None => None
    case Some((xs, rest)) => Some((done + xs, rest))
  }

  lemma PrependNothing<T>(r: Parsed<seq<T>>)
    ensures Prepend([], r) == r
  {
    if r.Some? { assert [] + r.value.0 == r.value.0; }
  }

  lemma PrependStep<T>(dec: Bytes -> Parsed<T>, n: nat, b: Bytes, done: seq<T>)
    requires n > 0
    ensures dec(b).None? ==> Prepend(done, DecodeAll(dec, n, b)).None?
    ensures dec(b).Some? ==>
      var (x, rest) := dec(b).value;
      Prepend(done, DecodeAll(dec, n, b)) == Prepend(done + [x], DecodeAll(dec, n - 1, rest))
  {
    if dec(b).Some? {
      var (x, rest) := dec(b).value;
      if DecodeAll(dec, n - 1, rest).Some? {
        var xs := DecodeAll(dec, n - 1, rest).value.0;
        assert done + ([x] + xs) == (done + [x]) + xs;
      }
    }
  }

  // ---- one length-prefixed byte string -------------------------------------

  function BytesEnc(x: Bytes): Bytes {
    LE(|x|, 4) + x
  }

  function BytesDec(b: Bytes): Parsed<Bytes> {
    if |b| < 4 then None
    else
      var n := FromLE(b[..4]);
      if 4 + n > |b| then None else Some((b[4..4 + n], b[4 + n..]))
  }

  predicate BytesValid(x: Bytes) {
    |x| < U32
  }

  lemma BytesExactAt(x: Bytes, rest: Bytes, b: Bytes)
    ensures BytesDec(b) == Some((x, rest)) <==> BytesValid(x) && b == BytesEnc(x) + rest
  {
    WordSizes();
    if BytesValid(x) && b == BytesEnc(x) + rest {
      LERoundTrip(|x|, 4);
      assert b[..4] == LE(|x|, 4) && b[4..4 + |x|] == x && b[4 + |x|..] == rest;
    }
    if BytesDec(b) == Some((x, rest)) {
      FromLERange(b[..4]);
      LEOfFromLE(b[..4]);
      assert b == b[..4] + b[4..4 + |x|] + b[4 + |x|..];
    }
  }

  lemma BytesExact()
    ensures Exact(BytesValid, BytesEnc, BytesDec)
  {
    forall b | BytesDec(b).Some?
      ensures BytesValid(BytesDec(b).value.0) && b == BytesEnc(BytesDec(b).value.0) + BytesDec(b).value.1
    {
      BytesExactAt(BytesDec(b).value.0, BytesDec(b).value.1, b);
    }
    forall x, rest | BytesValid(x)
      ensures BytesDec(BytesEnc(x) + rest) == Some((x, rest))
    {
      BytesExactAt(x, rest, BytesEnc(x) + rest);
    }
  }
}
