/**
 The counted key-value payloads: write batches, multi-get requests and answers, key
 lists and scan answers. Each is one item format repeated under a 32-bit count,
 some of them behind a 16-bit length-prefixed table name.
 */
module KvWire {
  import opened Prelude
  import opened Codec

  // ---- item formats --------------------------------------------------------

  datatype KvBatchOp = Put(key: Bytes, value: Bytes) | Delete(key: Bytes)

  function OpEnc(op: KvBatchOp): Bytes {
    match op
    case Put(key, value) => [0] + BytesEnc(key) + BytesEnc(value)
    case Delete(key) => [1] + BytesEnc(key)
  }

  function OpDec(b: Bytes): Parsed<KvBatchOp> {
    if |b| < 5 then None
    else match BytesDec(b[1..])
      case None => None
      case Some((key, rest)) =>
        if b[0] == 0 then
          match BytesDec(rest)
          case None => None
          case Some((value, last)) => Some((Put(key, value), last))
        else if b[0] == 1 then Some((Delete(key), rest))
        else None
  }

  predicate OpValid(op: KvBatchOp) {
    BytesValid(op.key) && (op.Put? ==> BytesValid(op.value))
  }

  lemma OpSound(b: Bytes)
    requires OpDec(b).Some?
    ensures OpValid(OpDec(b).value.0) && b == OpEnc(OpDec(b).value.0) + OpDec(b).value.1
  {
    hide BytesEnc, BytesDec, BytesValid;
    var (key, rest) := BytesDec(b[1..]).value;
    BytesExactAt(key, rest, b[1..]);
    assert b == [b[0]] + b[1..];
    if b[0] == 0 {
      BytesExactAt(BytesDec(rest).value.0, BytesDec(rest).value.1, rest);
    }
  }

  lemma OpComplete(x: KvBatchOp, rest: Bytes)
    requires OpValid(x)
    ensures OpDec(OpEnc(x) + rest) == Some((x, rest))
  {
    hide LE, FromLE;
    var b := OpEnc(x) + rest;
    var tail := if x.Put? then BytesEnc(x.value) + rest else rest;
    assert b[1..] == BytesEnc(x.key) + tail;
    BytesExactAt(x.key, tail, b[1..]);
    if x.Put? {
      BytesExactAt(x.value, rest, tail);
    }
  }

  lemma OpExact()
    ensures Exact(OpValid, OpEnc, OpDec)
  {
    hide OpValid, OpEnc, OpDec;
    forall b | OpDec(b).Some?
      ensures OpValid(OpDec(b).value.0) && b == OpEnc(OpDec(b).value.0) + OpDec(b).value.1
    {
      OpSound(b);
    }
    forall x, rest | OpValid(x) ensures OpDec(OpEnc(x) + rest) == Some((x, rest)) {
      OpComplete(x, rest);
    }
  }

  function MaybeEnc(v: Option<Bytes>): Bytes {
    match v
    case Some(x) => [1] + BytesEnc(x)
    case None => [0]
  }

  function MaybeDec(b: Bytes): Parsed<Option<Bytes>> {
    if |b| < 1 then None
    else if b[0] == 0 then Some((None, b[1..]))
    else if b[0] == 1 then
      match BytesDec(b[1..])
      case None => None
      case Some((x, rest)) => Some((Some(x), rest))
    else None
  }

  predicate MaybeValid(v: Option<Bytes>) {
    v.Some? ==> BytesValid(v.value)
  }

  lemma MaybeExact()
    ensures Exact(MaybeValid, MaybeEnc, MaybeDec)
  {
    forall b | MaybeDec(b).Some?
      ensures MaybeValid(MaybeDec(b).value.0) && b == MaybeEnc(MaybeDec(b).value.0) + MaybeDec(b).value.1
    {
      assert b == [b[0]] + b[1..];
      if b[0] == 1 {
        BytesExactAt(BytesDec(b[1..]).value.0, BytesDec(b[1..]).value.1, b[1..]);
      }
    }
    forall x, rest | MaybeValid(x)
      ensures MaybeDec(MaybeEnc(x) + rest) == Some((x, rest))
    {
      var b := MaybeEnc(x) + rest;
      assert b[1..] == (if x.Some? then BytesEnc(x.value) + rest else rest);
      if x.Some? {
        BytesExactAt(x.value, rest, b[1..]);
      }
    }
  }

  function PairEnc(e: (Bytes, Bytes)): Bytes {
    BytesEnc(e.0) + BytesEnc(e.1)
  }

  function PairDec(b: Bytes): Parsed<(Bytes, Bytes)> {
    match BytesDec(b)
    case None => None
    case Some((key, rest)) =>
      match BytesDec(rest)
      case None => None
      case Some((value, last)) => Some(((key, value), last))
  }

  predicate PairValid(e: (Bytes, Bytes)) {
    BytesValid(e.0) && BytesValid(e.1)
  }

  lemma PairExact()
    ensures Exact(PairValid, PairEnc, PairDec)
  {
    forall b | PairDec(b).Some?
      ensures PairValid(PairDec(b).value.0) && b == PairEnc(PairDec(b).value.0) + PairDec(b).value.1
    {
      var (key, rest) := BytesDec(b).value;
      BytesExactAt(key, rest, b);
      BytesExactAt(BytesDec(rest).value.0, BytesDec(rest).value.1, rest);
    }
    forall x, rest | PairValid(x)
      ensures PairDec(PairEnc(x) + rest) == Some((x, rest))
    {
      assert PairEnc(x) + rest == BytesEnc(x.0) + (BytesEnc(x.1) + rest);
      BytesExactAt(x.0, BytesEnc(x.1) + rest, PairEnc(x) + rest);
      BytesExactAt(x.1, rest, BytesEnc(x.1) + rest);
    }
  }

  // ---- a table name, then counted items ------------------------------------

  function EncodeTabled<T>(enc: T -> Bytes, table: Bytes, xs: seq<T>): Bytes {
    LE(|table|, 2) + table + EncodeCounted(enc, xs)
  }

  function DecodeTabled<T>(dec: Bytes -> Parsed<T>, b: Bytes): Parsed<(Bytes, seq<T>)> {
    if |b| < 2 then None
    else
      var n := FromLE(b[..2]);
      if |b| < 2 + n + 4 then None
      else match DecodeCounted(dec, b[2 + n..])
        case None => None
        case Some((xs, rest)) => Some(((b[2..2 + n], xs), rest))
  }

  ghost predicate TabledValid<T>(valid: T -> bool, table: Bytes, xs: seq<T>) {
    |table| < U16 && CountedValid(valid, xs)
  }

  lemma TabledExact<T(!new)>(valid: T -> bool, enc: T -> Bytes, dec: Bytes -> Parsed<T>, table: Bytes, xs: seq<T>,
    rest: Bytes, b: Bytes)
    requires Exact(valid, enc, dec)
    ensures DecodeTabled(dec, b) == Some(((table, xs), rest))
       <==> TabledValid(valid, table, xs) && b == EncodeTabled(enc, table, xs) + rest
  {
    WordSizes();
    if TabledValid(valid, table, xs) && b == EncodeTabled(enc, table, xs) + rest {
      LERoundTrip(|table|, 2);
      var tail := EncodeCounted(enc, xs) + rest;
      assert b == LE(|table|, 2) + table + tail;
      assert b[..2] == LE(|table|, 2) && b[2..2 + |table|] == table && b[2 + |table|..] == tail;
      CountedExact(valid, enc, dec, xs, rest, tail);
    }
    if DecodeTabled(dec, b) == Some(((table, xs), rest)) {
      FromLERange(b[..2]);
      LEOfFromLE(b[..2]);
      CountedExact(valid, enc, dec, xs, rest, b[2 + |table|..]);
      assert b == b[..2] + b[2..2 + |table|] + b[2 + |table|..];
    }
  }

  // ---- the messages; a decoder ignores bytes after the last item ------------

  function First<T>(r: Parsed<T>): Option<T> {
    match r
    case None => None
    case Some((x, _)) => Some(x)
  }

  /** Accepting `x` is the same as starting with the encoding of `x`, and a strict prefix of it is refused. */
  lemma MessageExact<T(!new)>(valid: T -> bool, enc: T -> Bytes, dec: Bytes -> Parsed<T>, x: T, p: Bytes)
    requires Exact(valid, enc, dec)
    ensures First(dec(p)) == Some(x) <==> valid(x) && enc(x) <= p
    ensures valid(x) && p < enc(x) ==> First(dec(p)) == None
  {
    if valid(x) && enc(x) <= p {
      var rest := p[|enc(x)|..];
      assert p == enc(x) + rest;
      assert dec(enc(x) + rest) == Some((x, rest));
    }
    if valid(x) && p < enc(x) { PrefixRefused(valid, enc, dec, x, p); }
  }

  function EncodeWriteBatchReq(table: Bytes, ops: seq<KvBatchOp>): Bytes { EncodeTabled(OpEnc, table, ops) }
  function DecodeWriteBatchReq(p: Bytes): Option<(Bytes, seq<KvBatchOp>)> { First(DecodeTabled(OpDec, p)) }
  function EncodeMultiGetReq(table: Bytes, keys: seq<Bytes>): Bytes { EncodeTabled(BytesEnc, table, keys) }
  function DecodeMultiGetReq(p: Bytes): Option<(Bytes, seq<Bytes>)> { First(DecodeTabled(BytesDec, p)) }
  function EncodeListKeysResp(keys: seq<Bytes>): Bytes { EncodeCounted(BytesEnc, keys) }
  function DecodeListKeysResp(p: Bytes): Option<seq<Bytes>> { First(DecodeCounted(BytesDec, p)) }
  function EncodeMultiGetResp(values: seq<Option<Bytes>>): Bytes { EncodeCounted(MaybeEnc, values) }
  function DecodeMultiGetResp(p: Bytes): Option<seq<Option<Bytes>>> { First(DecodeCounted(MaybeDec, p)) }
  function EncodeScanResp(entries: seq<(Bytes, Bytes)>): Bytes { EncodeCounted(PairEnc, entries) }
  function DecodeScanResp(p: Bytes): Option<seq<(Bytes, Bytes)>> { First(DecodeCounted(PairDec, p)) }

  lemma CountedMessage<T(!new)>(valid: T -> bool, enc: T -> Bytes, dec: Bytes -> Parsed<T>, xs: seq<T>, p: Bytes)
    requires Exact(valid, enc, dec)
    ensures First(DecodeCounted(dec, p)) == Some(xs) <==> CountedValid(valid, xs) && EncodeCounted(enc, xs) <= p
    ensures CountedValid(valid, xs) && p < EncodeCounted(enc, xs) ==> First(DecodeCounted(dec, p)) == None
  {
    hide CountedValid, EncodeCounted, DecodeCounted;
    var (v, e, d) := ((ys: seq<T>) => CountedValid(valid, ys), (ys: seq<T>) => EncodeCounted(enc, ys),
                      (b: Bytes) => DecodeCounted(dec, b));
    forall ys, rest, b ensures d(b) == Some((ys, rest)) <==> v(ys) && b == e(ys) + rest {
      CountedExact(valid, enc, dec, ys, rest, b);
    }
    MessageExact(v, e, d, xs, p);
  }

  lemma TabledMessage<T(!new)>(valid: T -> bool, enc: T -> Bytes, dec: Bytes -> Parsed<T>, table: Bytes, xs: seq<T>,
    p: Bytes)
    requires Exact(valid, enc, dec)
    ensures First(DecodeTabled(dec, p)) == Some((table, xs)) <==>
      TabledValid(valid, table, xs) && EncodeTabled(enc, table, xs) <= p
    ensures TabledValid(valid, table, xs) && p < EncodeTabled(enc, table, xs) ==> First(DecodeTabled(dec, p)) == None
  {
    hide TabledValid, EncodeTabled, DecodeTabled;
    var (v, e, d) := ((m: (Bytes, seq<T>)) => TabledValid(valid, m.0, m.1),
                      (m: (Bytes, seq<T>)) => EncodeTabled(enc, m.0, m.1), (b: Bytes) => DecodeTabled(dec, b));
    forall m: (Bytes, seq<T>), rest, b ensures d(b) == Some((m, rest)) <==> v(m) && b == e(m) + rest {
      TabledExact(valid, enc, dec, m.0, m.1, rest, b);
    }
    MessageExact(v, e, d, (table, xs), p);
  }

  lemma WriteBatchExact(table: Bytes, ops: seq<KvBatchOp>, p: Bytes)
    ensures DecodeWriteBatchReq(p) == Some((table, ops)) <==>
      TabledValid(OpValid, table, ops) && EncodeWriteBatchReq(table, ops) <= p
    ensures TabledValid(OpValid, table, ops) && p < EncodeWriteBatchReq(table, ops) ==> DecodeWriteBatchReq(p) == None
  {
    OpExact();
    TabledMessage(OpValid, OpEnc, OpDec, table, ops, p);
  }

  lemma MultiGetReqExact(table: Bytes, keys: seq<Bytes>, p: Bytes)
    ensures DecodeMultiGetReq(p) == Some((table, keys)) <==>
      TabledValid(BytesValid, table, keys) && EncodeMultiGetReq(table, keys) <= p
    ensures TabledValid(BytesValid, table, keys) && p < EncodeMultiGetReq(table, keys) ==> DecodeMultiGetReq(p) == None
  {
    BytesExact();
    TabledMessage(BytesValid, BytesEnc, BytesDec, table, keys, p);
  }

  lemma ListKeysRespExact(keys: seq<Bytes>, p: Bytes)
    ensures DecodeListKeysResp(p) == Some(keys) <==> CountedValid(BytesValid, keys) && EncodeListKeysResp(keys) <= p
    ensures CountedValid(BytesValid, keys) && p < EncodeListKeysResp(keys) ==> DecodeListKeysResp(p) == None
  {
    BytesExact();
    CountedMessage(BytesValid, BytesEnc, BytesDec, keys, p);
  }

  lemma MultiGetRespExact(values: seq<Option<Bytes>>, p: Bytes)
    ensures DecodeMultiGetResp(p) == Some(values) <==>
      CountedValid(MaybeValid, values) && EncodeMultiGetResp(values) <= p
    ensures CountedValid(MaybeValid, values) && p < EncodeMultiGetResp(values) ==> DecodeMultiGetResp(p) == None
  {
    MaybeExact();
    CountedMessage(MaybeValid, MaybeEnc, MaybeDec, values, p);
  }

  lemma ScanRespExact(entries: seq<(Bytes, Bytes)>, p: Bytes)
    ensures DecodeScanResp(p) == Some(entries) <==> CountedValid(PairValid, entries) && EncodeScanResp(entries) <= p
    ensures CountedValid(PairValid, entries) && p < EncodeScanResp(entries) ==> DecodeScanResp(p) == None
  {
    PairExact();
    CountedMessage(PairValid, PairEnc, PairDec, entries, p);
  }
}
