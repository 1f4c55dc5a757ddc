/**
 The sealed envelope: a CBOR map of three entries, version, counter and ciphertext, in
 the encoding of section 3 of RFC 8949. The decoder moves a cursor, takes the keys in
 any order and ignores what follows the map.
 */
module Envelope {
  import opened Prelude
  import opened Utf8

  const KEY_V: Bytes := [118]
  const KEY_CTR: Bytes := [99, 116, 114]
  const KEY_CT: Bytes := [99, 116]
  const MAP_OF_THREE: Byte := 0xA3

  const UINT: nat := 0
  const BYTES: nat := 2
  const TEXT: nat := 3

  /** `Aborted` is the panic on a slice whose end wrapped past 2^64. */
  datatype Outcome<+T> = Ok(value: T) | Refused | Aborted

  // ---- writing -----------------------------------------------------------------

  /** The shortest head of a major type and a value. */
  function Head(major: nat, v: nat): (r: Bytes)
    requires major < 8
    ensures |r| > 0
  {
    if v <= 23 then [32 * major + v]
    else if v <= 0xFF then [32 * major + 24] + BE(v, 1)
    else if v <= 0xFFFF then [32 * major + 25] + BE(v, 2)
    else if v <= 0xFFFF_FFFF then [32 * major + 26] + BE(v, 4)
    else [32 * major + 27] + BE(v, 8)
  }

  datatype Field = Version(n: nat) | Counter(n: nat) | Body(bytes: Bytes)

  predicate FieldFits(f: Field) {
    match f
    case Version(n) => n < U64
    case Counter(n) => n < U64
    case Body(b) => |b| < U64 / 2
  }

  function Key(f: Field): (k: Bytes)
    ensures 0 < |k| <= 3
  {
    match f case Version(_) => KEY_V case Counter(_) => KEY_CTR case Body(_) => KEY_CT
  }

  function KeyEnc(k: Bytes): Bytes
    requires |k| <= 3
  {
    [32 * TEXT + |k|] + k
  }

  function ValueEnc(f: Field): Bytes {
    match f
    case Version(n) => Head(UINT, n)
    case Counter(n) => Head(UINT, n)
    case Body(b) => Head(BYTES, |b|) + b
  }

  function FieldEnc(f: Field): Bytes {
    KeyEnc(Key(f)) + ValueEnc(f)
  }

  function Encode(ctr: nat, ct: Bytes): Bytes {
    [MAP_OF_THREE] + FieldEnc(Version(1)) + FieldEnc(Counter(ctr)) + FieldEnc(Body(ct))
  }

  // ---- reading -------------------------------------------------------------------

  function Word(buf: Bytes, p: nat, n: nat): Option<(nat, nat)> {
    if p + n > |buf| then None else Some((FromBE(buf[p..p + n]), p + n))
  }

  function TakeHead(buf: Bytes, p: nat, major: nat): (r: Option<(nat, nat)>)
    ensures r.Some? ==> p < r.value.1 <= |buf|
  {
    if p >= |buf| || buf[p] / 32 != major then None
    else
      var info := buf[p] % 32;
      if info <= 23 then Some((info, p + 1))
      else if info == 24 then Word(buf, p + 1, 1)
      else if info == 25 then Word(buf, p + 1, 2)
      else if info == 26 then Word(buf, p + 1, 4)
      else if info == 27 then Word(buf, p + 1, 8)
      else None
  }

  function TakeText(buf: Bytes, p: nat): (r: Option<(Bytes, nat)>)
    ensures r.Some? ==> p < r.value.1 <= |buf|
  {
    if p >= |buf| || buf[p] / 32 != TEXT then None
    else
      var len := buf[p] % 32;
      if len > 23 || p + 1 + len > |buf| || !Utf8.Valid(buf[p + 1..p + 1 + len]) then None
      else Some((buf[p + 1..p + 1 + len], p + 1 + len))
  }

  /** The end of the slice is a 64-bit sum: one that wraps lies below its start. */
  function TakeBytes(buf: Bytes, p: nat): (r: Outcome<(Bytes, nat)>)
    ensures r.Ok? ==> p < r.value.1 <= |buf|
  {
    match TakeHead(buf, p, BYTES)
    case None => Refused
    case Some((n, q)) =>
      if q + n >= U64 then Aborted
      else if q + n > |buf| then Refused
      else Ok((buf[q..q + n], q + n))
  }

  datatype Acc = Acc(version: Option<nat>, ctr: Option<nat>, ct: Option<Bytes>)

  function TakeField(buf: Bytes, p: nat, acc: Acc): (r: Outcome<(Acc, nat)>)
    ensures r.Ok? ==> p < r.value.1 <= |buf|
  {
    match TakeText(buf, p)
    case None => Refused
    case Some((key, q)) =>
      if key == KEY_V then
        (match TakeHead(buf, q, UINT)
         case None => Refused
         case Some((n, z)) => Ok((acc.(version := Some(n)), z)))
      else if key == KEY_CTR then
        (match TakeHead(buf, q, UINT)
         case None => Refused
         case Some((n, z)) => Ok((acc.(ctr := Some(n)), z)))
      else if key == KEY_CT then
        (match TakeBytes(buf, q)
         case Ok((b, z)) => Ok((acc.(ct := Some(b)), z))
         case Refused => Refused
         case Aborted => Aborted)
      else Refused
  }

  function Fields(buf: Bytes, p: nat, n: nat, acc: Acc): Outcome<(Acc, nat)>
    decreases n
  {
    if n == 0 then Ok((acc, p))
    else match TakeField(buf, p, acc)
      case Ok((next, q)) => Fields(buf, q, n - 1, next)
      case Refused => Refused
      case Aborted => Aborted
  }

  function Result(acc: Acc): Outcome<(nat, Bytes)> {
    if acc.version != Some(1) || acc.ctr.None? || acc.ct.None? then Refused else Ok((acc.ctr.value, acc.ct.value))
  }

  function Decode(buf: Bytes): Outcome<(nat, Bytes)> {
    if |buf| < 1 || buf[0] != MAP_OF_THREE then Refused
    else match Fields(buf, 1, 3, Acc(None, None, None))
      case Ok((acc, _)) => Result(acc)
      case Refused => Refused
      case Aborted => Aborted
  }

  // ---- reading what was written --------------------------------------------------

  /** The bytes of `x` stand in the buffer at `p`. */
  predicate StandsAt(buf: Bytes, p: nat, x: Bytes) {
    p + |x| <= |buf| && buf[p..p + |x|] == x
  }

  lemma SplitAt(buf: Bytes, p: nat, x: Bytes, y: Bytes)
    requires StandsAt(buf, p, x + y)
    ensures StandsAt(buf, p, x) && StandsAt(buf, p + |x|, y)
  {
    assert buf[p..p + |x|] == (x + y)[..|x|];
    assert buf[p + |x|..p + |x| + |y|] == (x + y)[|x|..];
  }

  lemma WordAt(buf: Bytes, p: nat, v: nat, n: nat)
    requires v < Pow256(n) && StandsAt(buf, p, BE(v, n)) && |BE(v, n)| == n
    ensures Word(buf, p, n) == Some((v, p + n))
  {
    BERoundTrip(v, n);
  }

  lemma HeadAt(buf: Bytes, p: nat, major: nat, v: nat)
    requires major < 8 && v < U64 && StandsAt(buf, p, Head(major, v))
    ensures TakeHead(buf, p, major) == Some((v, p + |Head(major, v)|))
  {
    WordSizes();
    var h := Head(major, v);
    assert buf[p] == h[0];
    if v > 23 {
      var n := if v <= 0xFF then 1 else if v <= 0xFFFF then 2 else if v <= 0xFFFF_FFFF then 4 else 8;
      HeadWord(buf, p, h[0], v, n);
    }
  }

  lemma HeadWord(buf: Bytes, p: nat, first: Byte, v: nat, n: nat)
    requires v < Pow256(n) && StandsAt(buf, p, [first] + BE(v, n))
    ensures Word(buf, p + 1, n) == Some((v, p + 1 + n)) && |[first] + BE(v, n)| == 1 + n
  {
    SplitAt(buf, p, [first], BE(v, n));
    WordAt(buf, p + 1, v, n);
  }

  lemma KeyAt(buf: Bytes, p: nat, f: Field)
    requires StandsAt(buf, p, KeyEnc(Key(f)))
    ensures TakeText(buf, p) == Some((Key(f), p + 1 + |Key(f)|))
  {
    var k := Key(f);
    SplitAt(buf, p, [32 * TEXT + |k|], k);
    assert buf[p] == KeyEnc(k)[0];
    AsciiValid(k);
  }

  function Apply(acc: Acc, f: Field): Acc {
    match f
    case Version(n) => acc.(version := Some(n))
    case Counter(n) => acc.(ctr := Some(n))
    case Body(b) => acc.(ct := Some(b))
  }

  lemma BodyAt(buf: Bytes, q: nat, b: Bytes)
    requires |buf| < U64 / 2 && StandsAt(buf, q, Head(BYTES, |b|) + b)
    ensures TakeBytes(buf, q) == Ok((b, q + |Head(BYTES, |b|)| + |b|))
  {
    SplitAt(buf, q, Head(BYTES, |b|), b);
    HeadAt(buf, q, BYTES, |b|);
  }

  lemma NumberField(buf: Bytes, p: nat, q: nat, z: nat, f: Field, acc: Acc)
    requires !f.Body? && TakeText(buf, p) == Some((Key(f), q)) && TakeHead(buf, q, UINT) == Some((f.n, z))
    ensures TakeField(buf, p, acc) == Ok((Apply(acc, f), z))
  {
    assert |KEY_V| == 1 && |KEY_CTR| == 3;
  }

  lemma BodyField(buf: Bytes, p: nat, q: nat, z: nat, b: Bytes, acc: Acc)
    requires TakeText(buf, p) == Some((KEY_CT, q)) && TakeBytes(buf, q) == Ok((b, z))
    ensures TakeField(buf, p, acc) == Ok((Apply(acc, Body(b)), z))
  {
    assert |KEY_V| == 1 && |KEY_CTR| == 3 && |KEY_CT| == 2;
  }

  lemma FieldAt(buf: Bytes, p: nat, f: Field, acc: Acc)
    requires FieldFits(f) && |buf| < U64 / 2 && StandsAt(buf, p, FieldEnc(f))
    ensures TakeField(buf, p, acc) == Ok((Apply(acc, f), p + |FieldEnc(f)|))
  {
    hide TakeField, TakeHead, TakeText, TakeBytes, Head;
    var (k, v) := (KeyEnc(Key(f)), ValueEnc(f));
    var q := p + |k|;
    SplitAt(buf, p, k, v);
    KeyAt(buf, p, f);
    if f.Body? {
      BodyAt(buf, q, f.bytes);
      BodyField(buf, p, q, q + |v|, f.bytes, acc);
    } else {
      HeadAt(buf, q, UINT, f.n);
      NumberField(buf, p, q, q + |v|, f, acc);
    }
  }

  function Three(a: Field, b: Field, c: Field): Bytes {
    [MAP_OF_THREE] + FieldEnc(a) + FieldEnc(b) + FieldEnc(c)
  }

  lemma ThreeStand(m: Bytes, a: Bytes, b: Bytes, c: Bytes, rest: Bytes)
    ensures var buf := m + a + b + c + rest;
      StandsAt(buf, |m|, a) && StandsAt(buf, |m| + |a|, b) && StandsAt(buf, |m| + |a| + |b|, c)
  {
    var buf := m + a + b + c + rest;
    assert StandsAt(buf, 0, m + a + b + c);
    SplitAt(buf, 0, m + a + b, c);
    SplitAt(buf, 0, m + a, b);
    SplitAt(buf, 0, m, a);
  }

  lemma ThreeFields(a: Field, b: Field, c: Field, rest: Bytes)
    requires FieldFits(a) && FieldFits(b) && FieldFits(c) && |Three(a, b, c) + rest| < U64 / 2
    ensures Fields(Three(a, b, c) + rest, 1, 3, Acc(None, None, None))
      == Ok((Apply(Apply(Apply(Acc(None, None, None), a), b), c), |Three(a, b, c)|))
  {
    hide FieldEnc, Fields, Apply;
    ThreeStand([MAP_OF_THREE], FieldEnc(a), FieldEnc(b), FieldEnc(c), rest);
    ThreeTaken(Three(a, b, c) + rest, a, b, c, 1 + |FieldEnc(a)|, 1 + |FieldEnc(a)| + |FieldEnc(b)|);
  }

  lemma ThreeTaken(buf: Bytes, a: Field, b: Field, c: Field, p1: nat, p2: nat)
    requires FieldFits(a) && FieldFits(b) && FieldFits(c) && |buf| < U64 / 2
    requires p1 == 1 + |FieldEnc(a)| && p2 == p1 + |FieldEnc(b)|
    requires StandsAt(buf, 1, FieldEnc(a)) && StandsAt(buf, p1, FieldEnc(b)) && StandsAt(buf, p2, FieldEnc(c))
    ensures Fields(buf, 1, 3, Acc(None, None, None))
      == Ok((Apply(Apply(Apply(Acc(None, None, None), a), b), c), p2 + |FieldEnc(c)|))
  {
    hide *;
    var a0 := Acc(None, None, None);
    var a1 := Apply(a0, a);
    var a2 := Apply(a1, b);
    FieldAt(buf, 1, a, a0);
    FieldAt(buf, p1, b, a1);
    FieldAt(buf, p2, c, a2);
    Unroll(buf, 1, p1, p2, p2 + |FieldEnc(c)|, a0, a1, a2, Apply(a2, c));
  }

  lemma Unroll(buf: Bytes, p0: nat, p1: nat, p2: nat, p3: nat, a0: Acc, a1: Acc, a2: Acc, a3: Acc)
    requires TakeField(buf, p0, a0) == Ok((a1, p1)) && TakeField(buf, p1, a1) == Ok((a2, p2)) &&
      TakeField(buf, p2, a2) == Ok((a3, p3))
    ensures Fields(buf, p0, 3, a0) == Ok((a3, p3))
  {
    assert Fields(buf, p3, 0, a3) == Ok((a3, p3));
    assert Fields(buf, p2, 1, a2) == Ok((a3, p3));
    assert Fields(buf, p1, 2, a1) == Ok((a3, p3));
  }

  /** Three entries mean an envelope exactly when they are one of each kind, the version being one. */
  lemma ResultExactly(a: Field, b: Field, c: Field, ctr: nat, ct: Bytes)
    ensures Result(Apply(Apply(Apply(Acc(None, None, None), a), b), c)) == Ok((ctr, ct))
       <==> {a, b, c} == {Version(1), Counter(ctr), Body(ct)}
  {
    var v, n, x := Version(1), Counter(ctr), Body(ct);
    var acc := Apply(Apply(Apply(Acc(None, None, None), a), b), c);
    if {a, b, c} == {v, n, x} {
      assert v in {a, b, c} && n in {a, b, c} && x in {a, b, c};
      assert a in {v, n, x} && b in {v, n, x} && c in {v, n, x};
    }
    if Result(acc) == Ok((ctr, ct)) {
      assert v == a || v == b || v == c;
      assert n == a || n == b || n == c;
      assert x == a || x == b || x == c;
    }
  }

  /** Three written entries decode exactly when they are one of each kind, in any order and whatever follows. */
  lemma DecodeOfFields(a: Field, b: Field, c: Field, rest: Bytes, ctr: nat, ct: Bytes)
    requires FieldFits(a) && FieldFits(b) && FieldFits(c) && |Three(a, b, c) + rest| < U64 / 2
    ensures Decode(Three(a, b, c) + rest) == Ok((ctr, ct)) <==> {a, b, c} == {Version(1), Counter(ctr), Body(ct)}
  {
    hide FieldEnc, Fields, Apply, Result;
    ThreeFields(a, b, c, rest);
    ResultExactly(a, b, c, ctr, ct);
  }

  /** Decoding an encoding gives the counter and the ciphertext back. */
  lemma DecodeOfEncode(ctr: nat, ct: Bytes, rest: Bytes)
    requires ctr < U64 && |Encode(ctr, ct) + rest| < U64 / 2
    ensures Decode(Encode(ctr, ct) + rest) == Ok((ctr, ct))
  {
    hide Decode;
    DecodeOfFields(Version(1), Counter(ctr), Body(ct), rest, ctr, ct);
  }

  // ---- cut short -------------------------------------------------------------------

  lemma SliceCut(buf: Bytes, m: nat, q: nat, n: nat)
    requires q + n <= m <= |buf|
    ensures buf[..m][q..q + n] == buf[q..q + n]
  {
  }

  lemma WordCut(buf: Bytes, m: nat, p: nat, n: nat)
    requires m <= |buf|
    ensures Word(buf[..m], p, n).None? || Word(buf[..m], p, n) == Word(buf, p, n)
  {
    if p + n <= m { SliceCut(buf, m, p, n); }
  }

  lemma HeadCut(buf: Bytes, m: nat, p: nat, major: nat)
    requires m <= |buf|
    ensures TakeHead(buf[..m], p, major).None? || TakeHead(buf[..m], p, major) == TakeHead(buf, p, major)
  {
    if p < m {
      assert buf[..m][p] == buf[p];
      WordCut(buf, m, p + 1, 1);
      WordCut(buf, m, p + 1, 2);
      WordCut(buf, m, p + 1, 4);
      WordCut(buf, m, p + 1, 8);
    }
  }

  lemma TextCut(buf: Bytes, m: nat, p: nat)
    requires m <= |buf|
    ensures TakeText(buf[..m], p).None? || TakeText(buf[..m], p) == TakeText(buf, p)
  {
    if p < m {
      assert buf[..m][p] == buf[p];
      var len := buf[p] % 32;
      if p + 1 + len <= m { SliceCut(buf, m, p + 1, len); }
    }
  }

  lemma BytesCut(buf: Bytes, m: nat, p: nat)
    requires m <= |buf|
    ensures TakeBytes(buf[..m], p).Refused? || TakeBytes(buf[..m], p) == TakeBytes(buf, p)
  {
    HeadCut(buf, m, p, BYTES);
    if TakeHead(buf[..m], p, BYTES).Some? {
      var (n, q) := TakeHead(buf[..m], p, BYTES).value;
      if q + n <= m { SliceCut(buf, m, q, n); }
    }
  }

  lemma FieldCut(buf: Bytes, m: nat, p: nat, acc: Acc)
    requires m <= |buf|
    ensures TakeField(buf[..m], p, acc).Refused? || TakeField(buf[..m], p, acc) == TakeField(buf, p, acc)
  {
    TextCut(buf, m, p);
    if TakeText(buf[..m], p).Some? {
      var q := TakeText(buf[..m], p).value.1;
      HeadCut(buf, m, q, UINT);
      BytesCut(buf, m, q);
    }
  }

  lemma {:induction false} FieldsCut(buf: Bytes, m: nat, p: nat, n: nat, acc: Acc)
    requires m <= |buf| && p <= m
    ensures var cut := Fields(buf[..m], p, n, acc);
      cut.Refused? || (cut == Fields(buf, p, n, acc) && (cut.Ok? ==> cut.value.1 <= m))
    decreases n
  {
    hide TakeField;
    if n > 0 {
      FieldCut(buf, m, p, acc);
      match TakeField(buf[..m], p, acc)
      case Ok((next, q)) => FieldsCut(buf, m, q, n - 1, next);
      case Refused =>
      case Aborted =>
    }
  }

  /** No strict prefix of an envelope decodes. */
  lemma PrefixRefused(ctr: nat, ct: Bytes, m: nat)
    requires ctr < U64 && |Encode(ctr, ct)| < U64 / 2 && m < |Encode(ctr, ct)|
    ensures Decode(Encode(ctr, ct)[..m]) == Refused
  {
    var buf := Encode(ctr, ct);
    if m > 0 {
      assert buf + [] == buf;
      ThreeFields(Version(1), Counter(ctr), Body(ct), []);
      FieldsCut(buf, m, 1, 3, Acc(None, None, None));
    }
  }

  // ---- the length that wraps ----------------------------------------------------------

  /** Reading a byte string panics exactly when its announced end passes 2^64. */
  lemma AbortsExactly(buf: Bytes, p: nat)
    requires |buf| < U64 / 2
    ensures TakeBytes(buf, p) == Aborted <==>
      p + 9 <= |buf| && buf[p] == 0x5B && p + 9 + FromBE(buf[p + 1..p + 9]) >= U64
  {
    ShortWord(buf, p + 1, 1);
    ShortWord(buf, p + 1, 2);
    ShortWord(buf, p + 1, 4);
  }

  lemma ShortWord(buf: Bytes, p: nat, n: nat)
    requires n == 1 || n == 2 || n == 4
    ensures Word(buf, p, n).Some? ==> Word(buf, p, n).value.0 < U32
  {
    WordSizes();
    if p + n <= |buf| { FromBERange(buf[p..p + n]); }
  }

  /** An envelope that announces 2^64 - 1 ciphertext bytes stops the decoder. */
  lemma WrappedLengthAborts()
    ensures Decode([MAP_OF_THREE] + KeyEnc(KEY_CT) + [0x5B] + BE(U64 - 1, 8)) == Aborted
  {
    var buf := [MAP_OF_THREE] + KeyEnc(KEY_CT) + [0x5B] + BE(U64 - 1, 8);
    WordSizes();
    assert StandsAt(buf, 0, [MAP_OF_THREE] + KeyEnc(KEY_CT) + ([0x5B] + BE(U64 - 1, 8)));
    SplitAt(buf, 0, [MAP_OF_THREE] + KeyEnc(KEY_CT), [0x5B] + BE(U64 - 1, 8));
    SplitAt(buf, 0, [MAP_OF_THREE], KeyEnc(KEY_CT));
    KeyAt(buf, 1, Body([]));
    HeadWord(buf, 4, 0x5B, U64 - 1, 8);
    assert TakeBytes(buf, 4) == Aborted;
    assert TakeField(buf, 1, Acc(None, None, None)) == Aborted;
  }
}
