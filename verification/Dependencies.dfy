/**
 The attested dependency set: normalisation, the canonical length-prefixed encoding and
 its decoder. Text is a byte string; `text` fields are well-formed UTF-8.
 */
module Dependencies {
  import opened Prelude
  import opened Codec
  import opened Sorting
  import opened Utf8

  const SGX_PREFIX: Bytes := [0x73, 0x67, 0x78, 0x3A]
  const TDX_PREFIX: Bytes := [0x74, 0x64, 0x78, 0x3A]

  // ---- measurements --------------------------------------------------------

  datatype DepMeasurement = Sgx(m: Bytes) | Tdx(mrtd: Bytes, rtmr1: Bytes, rtmr2: Bytes)

  function Canonical(m: DepMeasurement): Bytes {
    match m
    case Sgx(x) => SGX_PREFIX + Lower(x)
    case Tdx(a, b, c) => TDX_PREFIX + Lower(a) + [COLON] + Lower(b) + [COLON] + Lower(c)
  }

  /** The part before the first colon. */
  function Head(s: Bytes): (r: Bytes)
    ensures |r| <= |s|
  {
    if s == [] || s[0] == COLON then [] else [s[0]] + Head(s[1..])
  }

  /** The part behind the first colon; nothing when there is no colon. */
  function Tail(s: Bytes): Bytes {
    if |Head(s)| == |s| then [] else s[|Head(s)| + 1..]
  }

  function StripPrefix(prefix: Bytes, s: Bytes): Bytes {
    if prefix <= s then s[|prefix|..] else s
  }

  /** Up to three colon-separated registers; missing ones are empty, further ones dropped. */
  function FromCanonical(s: Bytes): DepMeasurement {
    if TDX_PREFIX <= s then
      var rest := StripPrefix(TDX_PREFIX, s);
      Tdx(Head(rest), Head(Tail(rest)), Head(Tail(Tail(rest))))
    else Sgx(StripPrefix(SGX_PREFIX, s))
  }

  function LowerMeasurement(m: DepMeasurement): DepMeasurement {
    match m
    case Sgx(x) => Sgx(Lower(x))
    case Tdx(a, b, c) => Tdx(Lower(a), Lower(b), Lower(c))
  }

  predicate NoColon(m: DepMeasurement) {
    m.Tdx? ==> COLON !in m.mrtd && COLON !in m.rtmr1 && COLON !in m.rtmr2
  }

  // ---- the set and its normal form -----------------------------------------

  type Oid = (Bytes, Bytes)

  datatype Entry = Entry(appId: Bytes, measurements: seq<DepMeasurement>, oids: seq<Oid>, folded: Bytes)

  predicate CanonicalLe(a: DepMeasurement, b: DepMeasurement) {
    LexLe(Canonical(a), Canonical(b))
  }

  predicate AppLe(a: Entry, b: Entry) {
    LexLe(a.appId, b.appId)
  }

  function NormaliseEntry(e: Entry): Entry {
    e.(measurements := Sort(CanonicalLe, e.measurements), oids := Sort(PairLe, e.oids))
  }

  function Normalised(set_: seq<Entry>): seq<Entry> {
    Sort(AppLe, Map(NormaliseEntry, set_))
  }

  // ---- the writer ----------------------------------------------------------

  function StrEnc(x: Bytes): Bytes {
    BE(|x|, 4) + x
  }

  function OidEnc(o: Oid): Bytes {
    StrEnc(o.0) + StrEnc(o.1)
  }

  function CountedBE<T>(enc: T -> Bytes, xs: seq<T>): Bytes {
    BE(|xs|, 4) + EncodeAll(enc, xs)
  }

  function MeasurementEnc(m: DepMeasurement): Bytes {
    StrEnc(Canonical(m))
  }

  function EntryEnc(e: Entry): Bytes {
    StrEnc(e.appId) + CountedBE(MeasurementEnc, e.measurements) + CountedBE(OidEnc, e.oids) + StrEnc(Lower(e.folded))
  }

  function Encode(set_: seq<Entry>): Bytes {
    CountedBE(EntryEnc, Normalised(set_))
  }

  // ---- the reader ----------------------------------------------------------

  function WordDec(b: Bytes): Parsed<nat> {
    if |b| < 4 then None else Some((FromBE(b[..4]), b[4..]))
  }

  function BytesDecBE(b: Bytes): Parsed<Bytes> {
    if |b| < 4 then None
    else
      var n := FromBE(b[..4]);
      if 4 + n > |b| then None else Some((b[4..4 + n], b[4 + n..]))
  }

  function TextDec(b: Bytes): Parsed<Bytes> {
    match BytesDecBE(b)
    case None => None
    case Some((x, rest)) => if Utf8.Valid(x) then Some((x, rest)) else None
  }

  function OidDec(b: Bytes): Parsed<Oid> {
    match TextDec(b)
    case None => None
    case Some((oid, rest)) =>
      match BytesDecBE(rest)
      case None => None
      case Some((val, last)) => Some(((oid, val), last))
  }

  function CountedDecBE<T>(dec: Bytes -> Parsed<T>, b: Bytes): Parsed<seq<T>> {
    match WordDec(b)
    case None => None
    case Some((n, rest)) => DecodeAll(dec, n, rest)
  }

  /** An entry as it stands on the wire, its measurements still text. */
  datatype RawEntry = RawEntry(appId: Bytes, measurements: seq<Bytes>, oids: seq<Oid>, folded: Bytes)

  function RawDec(b: Bytes): Parsed<RawEntry> {
    match TextDec(b)
    case None => None
    case Some((appId, b1)) =>
      match CountedDecBE(TextDec, b1)
      case None => None
      case Some((measurements, b2)) =>
        match CountedDecBE(OidDec, b2)
        case None => None
        case Some((oids, b3)) =>
          match TextDec(b3)
          case None => None
          case Some((folded, rest)) => Some((RawEntry(appId, measurements, oids, folded), rest))
  }

  function OfRaw(r: RawEntry): Entry {
    Entry(r.appId, Map(FromCanonical, r.measurements), r.oids, r.folded)
  }

  function DecodeRaw(b: Bytes): Option<seq<RawEntry>> {
    match CountedDecBE(RawDec, b)
    case None => None
    case Some((entries, rest)) => if rest == [] then Some(entries) else None
  }

  function Decode(b: Bytes): Option<seq<Entry>> {
    match DecodeRaw(b)
    case None => None
    case Some(entries) => Some(Map(OfRaw, entries))
  }

  function Canonicalize(b: Bytes): Option<Bytes> {
    match Decode(b)
    case None => None
    case Some(set_) => Some(Encode(set_))
  }

  // ---- canonical content: what an encoding says, stated without the writer --

  function RawOf(e: Entry): RawEntry {
    RawEntry(e.appId, Sort(LexLe, Map(Canonical, e.measurements)), Sort(PairLe, e.oids), Lower(e.folded))
  }

  predicate RawLe(a: RawEntry, b: RawEntry) {
    LexLe(a.appId, b.appId)
  }

  function Content(set_: seq<Entry>): seq<RawEntry> {
    Sort(RawLe, Map(RawOf, set_))
  }

  function RawEnc(r: RawEntry): Bytes {
    StrEnc(r.appId) + CountedBE(StrEnc, r.measurements) + CountedBE(OidEnc, r.oids) + StrEnc(r.folded)
  }

  // ---- the wire format is exact ---------------------------------------------

  predicate TextValid(x: Bytes) {
    |x| < U32 && Utf8.Valid(x)
  }

  predicate OidValid(o: Oid) {
    TextValid(o.0) && |o.1| < U32
  }

  ghost predicate CountedOk<T>(valid: T -> bool, xs: seq<T>) {
    |xs| < U32 && AllValid(valid, xs)
  }

  predicate RawValid(r: RawEntry) {
    && TextValid(r.appId) && TextValid(r.folded)
    && |r.measurements| < U32 && (forall i :: 0 <= i < |r.measurements| ==> TextValid(r.measurements[i]))
    && |r.oids| < U32 && (forall i :: 0 <= i < |r.oids| ==> OidValid(r.oids[i]))
  }

  lemma BytesExactBE(x: Bytes, rest: Bytes, b: Bytes)
    ensures BytesDecBE(b) == Some((x, rest)) <==> |x| < U32 && b == StrEnc(x) + rest
  {
    WordSizes();
    if |x| < U32 && b == StrEnc(x) + rest {
      BERoundTrip(|x|, 4);
      assert b[..4] == BE(|x|, 4) && b[4..4 + |x|] == x && b[4 + |x|..] == rest;
    }
    if BytesDecBE(b) == Some((x, rest)) {
      FromBERange(b[..4]);
      BEOfFromBE(b[..4]);
      assert b == b[..4] + b[4..4 + |x|] + b[4 + |x|..];
    }
  }

  lemma TextExactAt(x: Bytes, rest: Bytes, b: Bytes)
    ensures TextDec(b) == Some((x, rest)) <==> TextValid(x) && b == StrEnc(x) + rest
  {
    BytesExactBE(x, rest, b);
  }

  lemma TextExact()
    ensures Exact(TextValid, StrEnc, TextDec)
  {
    forall b | TextDec(b).Some?
      ensures TextValid(TextDec(b).value.0) && b == StrEnc(TextDec(b).value.0) + TextDec(b).value.1
    {
      TextExactAt(TextDec(b).value.0, TextDec(b).value.1, b);
    }
    forall x, rest | TextValid(x) ensures TextDec(StrEnc(x) + rest) == Some((x, rest)) {
      TextExactAt(x, rest, StrEnc(x) + rest);
    }
  }

  lemma OidExact()
    ensures Exact(OidValid, OidEnc, OidDec)
  {
    forall b | OidDec(b).Some?
      ensures OidValid(OidDec(b).value.0) && b == OidEnc(OidDec(b).value.0) + OidDec(b).value.1
    {
      var (oid, rest) := TextDec(b).value;
      TextExactAt(oid, rest, b);
      BytesExactBE(BytesDecBE(rest).value.0, BytesDecBE(rest).value.1, rest);
    }
    forall x, rest | OidValid(x) ensures OidDec(OidEnc(x) + rest) == Some((x, rest)) {
      assert OidEnc(x) + rest == StrEnc(x.0) + (StrEnc(x.1) + rest);
      TextExactAt(x.0, StrEnc(x.1) + rest, OidEnc(x) + rest);
      BytesExactBE(x.1, rest, StrEnc(x.1) + rest);
    }
  }

  lemma CountedExactBE<T(!new)>(valid: T -> bool, enc: T -> Bytes, dec: Bytes -> Parsed<T>, xs: seq<T>, rest: Bytes,
    b: Bytes)
    requires Exact(valid, enc, dec)
    ensures CountedDecBE(dec, b) == Some((xs, rest)) <==> CountedOk(valid, xs) && b == CountedBE(enc, xs) + rest
  {
    WordSizes();
    if CountedOk(valid, xs) && b == CountedBE(enc, xs) + rest {
      BERoundTrip(|xs|, 4);
      assert b[..4] == BE(|xs|, 4) && b[4..] == EncodeAll(enc, xs) + rest;
      DecodeAllComplete(valid, enc, dec, xs, rest);
    }
    if CountedDecBE(dec, b) == Some((xs, rest)) {
      DecodeAllSound(valid, enc, dec, FromBE(b[..4]), b[4..]);
      FromBERange(b[..4]);
      BEOfFromBE(b[..4]);
      assert b == b[..4] + b[4..];
    }
  }

  lemma Assemble(a: Bytes, b: Bytes, c: Bytes, d: Bytes, rest: Bytes)
    ensures a + (b + (c + (d + rest))) == (a + b + c + d) + rest
  {
  }

  lemma RawSound(b: Bytes)
    requires RawDec(b).Some?
    ensures RawValid(RawDec(b).value.0) && b == RawEnc(RawDec(b).value.0) + RawDec(b).value.1
  {
    var (appId, b1) := TextDec(b).value;
    var (measurements, b2) := CountedDecBE(TextDec, b1).value;
    var (oids, b3) := CountedDecBE(OidDec, b2).value;
    var (folded, rest) := TextDec(b3).value;
    assert TextValid(appId) && b == StrEnc(appId) + b1 by { TextExactAt(appId, b1, b); }
    assert CountedOk(TextValid, measurements) && b1 == CountedBE(StrEnc, measurements) + b2 by {
      TextExact();
      CountedExactBE(TextValid, StrEnc, TextDec, measurements, b2, b1);
    }
    assert CountedOk(OidValid, oids) && b2 == CountedBE(OidEnc, oids) + b3 by {
      OidExact();
      CountedExactBE(OidValid, OidEnc, OidDec, oids, b3, b2);
    }
    assert TextValid(folded) && b3 == StrEnc(folded) + rest by { TextExactAt(folded, rest, b3); }
    Assemble(StrEnc(appId), CountedBE(StrEnc, measurements), CountedBE(OidEnc, oids), StrEnc(folded), rest);
  }

  lemma RawComplete(r: RawEntry, rest: Bytes)
    requires RawValid(r)
    ensures RawDec(RawEnc(r) + rest) == Some((r, rest))
  {
    TextExact();
    OidExact();
    var b3 := StrEnc(r.folded) + rest;
    var b2 := CountedBE(OidEnc, r.oids) + b3;
    var b1 := CountedBE(StrEnc, r.measurements) + b2;
    var b := StrEnc(r.appId) + b1;
    assert RawEnc(r) + rest == b;
    TextExactAt(r.appId, b1, b);
    CountedExactBE(TextValid, StrEnc, TextDec, r.measurements, b2, b1);
    CountedExactBE(OidValid, OidEnc, OidDec, r.oids, b3, b2);
    TextExactAt(r.folded, rest, b3);
  }

  lemma RawExact()
    ensures Exact(RawValid, RawEnc, RawDec)
  {
    forall b | RawDec(b).Some?
      ensures RawValid(RawDec(b).value.0) && b == RawEnc(RawDec(b).value.0) + RawDec(b).value.1
    {
      RawSound(b);
    }
    forall x, rest | RawValid(x) ensures RawDec(RawEnc(x) + rest) == Some((x, rest)) {
      RawComplete(x, rest);
    }
  }

  /** The decoder accepts exactly the encodings of valid content: no truncation, no trailing byte. */
  lemma WireExact(content: seq<RawEntry>, b: Bytes)
    ensures DecodeRaw(b) == Some(content) <==> CountedOk(RawValid, content) && b == CountedBE(RawEnc, content)
  {
    RawExact();
    CountedExactBE(RawValid, RawEnc, RawDec, content, [], b);
    assert CountedBE(RawEnc, content) + [] == CountedBE(RawEnc, content);
  }
}
