/**
 The key-value encoders and decoders as the source runs them: encoders append to a
 growing buffer, decoders move an offset over the payload and stop at the first
 short field. Each is proved equal to its wire format.
 */
module KvLoops {
  import opened Prelude
  import opened Codec
  import opened KvWire

  /** A length-prefixed field read at an offset is the one read from the suffix. */
  lemma FieldAt(p: Bytes, off: nat)
    requires off <= |p|
    ensures off + 4 > |p| ==> BytesDec(p[off..]) == None
    ensures off + 4 <= |p| ==>
      var n := FromLE(p[off..off + 4]);
      BytesDec(p[off..]) == if off + 4 + n > |p| then None else Some((p[off + 4..off + 4 + n], p[off + 4 + n..]))
  {
    if off + 4 <= |p| {
      var b := p[off..];
      assert b[..4] == p[off..off + 4];
      var n := FromLE(b[..4]);
      if off + 4 + n <= |p| {
        assert b[4..4 + n] == p[off + 4..off + 4 + n] && b[4 + n..] == p[off + 4 + n..];
      }
    }
  }

  /** An item decoder run at an offset: the value it found and the offset after it. */
  ghost predicate ReadAt<T(!new)>(dec: Bytes -> Parsed<T>, p: Bytes, off: nat, r: Option<(T, nat)>)
    requires off <= |p|
  {
    match r
    case None => dec(p[off..]) == None
    case Some((x, next)) => off <= next <= |p| && dec(p[off..]) == Some((x, p[next..]))
  }

  // ---- write batches -------------------------------------------------------

  method EncodeWriteBatch(table: Bytes, ops: seq<KvBatchOp>) returns (buf: Bytes)
    ensures buf == EncodeWriteBatchReq(table, ops)
  {
    buf := AppendOps(LE(|table|, 2) + table, ops);
  }

  method AppendOps(head: Bytes, ops: seq<KvBatchOp>) returns (buf: Bytes)
    ensures buf == head + EncodeCounted(OpEnc, ops)
  {
    hide LE, OpEnc;
    buf := head + LE(|ops|, 4);
    assert buf == head + (LE(|ops|, 4) + EncodeAll(OpEnc, ops[..0]));
    for i := 0 to |ops|
      invariant buf == head + (LE(|ops|, 4) + EncodeAll(OpEnc, ops[..i]))
    {
      EncodeAllSnoc(OpEnc, ops[..i], ops[i]);
      assert ops[..i + 1] == ops[..i] + [ops[i]];
      buf := AppendOp(buf, ops[i]);
    }
    assert ops[..|ops|] == ops;
  }

  method AppendOp(buf: Bytes, op: KvBatchOp) returns (out: Bytes)
    ensures out == buf + OpEnc(op)
  {
    match op {
      case Put(key, value) => out := buf + ([0] + (LE(|key|, 4) + key) + (LE(|value|, 4) + value));
      case Delete(key) => out := buf + ([1] + (LE(|key|, 4) + key));
    }
  }

  method DecodeWriteBatch(p: Bytes) returns (r: Option<(Bytes, seq<KvBatchOp>)>)
    ensures r == DecodeWriteBatchReq(p)
  {
    hide OpDec;
    if |p| < 2 { return None; }
    var tableLen := FromLE(p[..2]);
    if |p| < 2 + tableLen + 4 { return None; }
    var table := p[2..2 + tableLen];
    var off := 2 + tableLen;
    assert p[off..][..4] == p[off..off + 4];
    var count := FromLE(p[off..off + 4]);
    off := off + 4;
    assert p[2 + tableLen..][4..] == p[off..];
    var ops := [];
    ghost var all := DecodeAll(OpDec, count, p[off..]);
    PrependNothing(all);
    for i := 0 to count
      invariant 0 <= off <= |p| && all == Prepend(ops, DecodeAll(OpDec, count - i, p[off..]))
    {
      PrependStep(OpDec, count - i, p[off..], ops);
      var item := DecodeOpAt(p, off);
      if item == None { return None; }
      ops := ops + [item.value.0];
      off := item.value.1;
    }
    assert ops + [] == ops;
    return Some((table, ops));
  }

  /** One turn of the write-batch decoding loop. */
  method DecodeOpAt(p: Bytes, start: nat) returns (r: Option<(KvBatchOp, nat)>)
    requires start <= |p|
    ensures ReadAt(OpDec, p, start, r)
  {
    hide FromLE;
    var off := start;
    if off + 5 > |p| { return None; }
    var tag := p[off];
    assert p[start..][1..] == p[start + 1..];
    FieldAt(p, start + 1);
    var keyLen := FromLE(p[off + 1..off + 5]);
    off := off + 5;
    if off + keyLen > |p| { return None; }
    var key := p[off..off + keyLen];
    off := off + keyLen;
    if tag == 0 {
      FieldAt(p, off);
      if off + 4 > |p| { return None; }
      var valLen := FromLE(p[off..off + 4]);
      off := off + 4;
      if off + valLen > |p| { return None; }
      return Some((Put(key, p[off..off + valLen]), off + valLen));
    } else if tag == 1 {
      return Some((Delete(key), off));
    } else {
      return None;
    }
  }

  // ---- multi-get answers ---------------------------------------------------

  method EncodeMultiGet(values: seq<Option<Bytes>>) returns (buf: Bytes)
    ensures buf == EncodeMultiGetResp(values)
  {
    hide LE;
    buf := LE(|values|, 4);
    assert buf == LE(|values|, 4) + EncodeAll(MaybeEnc, values[..0]);
    for i := 0 to |values|
      invariant buf == LE(|values|, 4) + EncodeAll(MaybeEnc, values[..i])
    {
      EncodeAllSnoc(MaybeEnc, values[..i], values[i]);
      assert values[..i + 1] == values[..i] + [values[i]];
      match values[i] {
        case Some(v) => buf := buf + ([1] + (LE(|v|, 4) + v));
        case None => buf := buf + [0];
      }
    }
    assert values[..|values|] == values;
  }

  method DecodeMultiGet(p: Bytes) returns (r: Option<seq<Option<Bytes>>>)
    ensures r == DecodeMultiGetResp(p)
  {
    hide MaybeDec;
    if |p| < 4 { return None; }
    var count := FromLE(p[..4]);
    var off := 4;
    var values := [];
    ghost var all := DecodeAll(MaybeDec, count, p[off..]);
    PrependNothing(all);
    for i := 0 to count
      invariant 0 <= off <= |p| && all == Prepend(values, DecodeAll(MaybeDec, count - i, p[off..]))
    {
      PrependStep(MaybeDec, count - i, p[off..], values);
      var item := DecodeMaybeAt(p, off);
      if item == None { return None; }
      values := values + [item.value.0];
      off := item.value.1;
    }
    assert values + [] == values;
    return Some(values);
  }

  /** One turn of the multi-get decoding loop. */
  method DecodeMaybeAt(p: Bytes, start: nat) returns (r: Option<(Option<Bytes>, nat)>)
    requires start <= |p|
    ensures ReadAt(MaybeDec, p, start, r)
  {
    hide FromLE;
    var off := start;
    if off + 1 > |p| { return None; }
    var present := p[off];
    assert p[off..][1..] == p[off + 1..];
    off := off + 1;
    if present == 0 {
      return Some((None, off));
    } else if present == 1 {
      FieldAt(p, off);
      if off + 4 > |p| { return None; }
      var len := FromLE(p[off..off + 4]);
      off := off + 4;
      if off + len > |p| { return None; }
      return Some((Some(p[off..off + len]), off + len));
    } else {
      return None;
    }
  }

  // ---- scan answers --------------------------------------------------------

  method EncodeScan(entries: seq<(Bytes, Bytes)>) returns (buf: Bytes)
    ensures buf == EncodeScanResp(entries)
  {
    hide LE;
    buf := LE(|entries|, 4);
    assert buf == LE(|entries|, 4) + EncodeAll(PairEnc, entries[..0]);
    for i := 0 to |entries|
      invariant buf == LE(|entries|, 4) + EncodeAll(PairEnc, entries[..i])
    {
      EncodeAllSnoc(PairEnc, entries[..i], entries[i]);
      assert entries[..i + 1] == entries[..i] + [entries[i]];
      var (key, value) := entries[i];
      buf := buf + ((LE(|key|, 4) + key) + (LE(|value|, 4) + value));
    }
    assert entries[..|entries|] == entries;
  }

  method DecodeScan(p: Bytes) returns (r: Option<seq<(Bytes, Bytes)>>)
    ensures r == DecodeScanResp(p)
  {
    hide PairDec;
    if |p| < 4 { return None; }
    var count := FromLE(p[..4]);
    var off := 4;
    var entries := [];
    ghost var all := DecodeAll(PairDec, count, p[off..]);
    PrependNothing(all);
    for i := 0 to count
      invariant 0 <= off <= |p| && all == Prepend(entries, DecodeAll(PairDec, count - i, p[off..]))
    {
      PrependStep(PairDec, count - i, p[off..], entries);
      var item := DecodeEntryAt(p, off);
      if item == None { return None; }
      entries := entries + [item.value.0];
      off := item.value.1;
    }
    assert entries + [] == entries;
    return Some(entries);
  }

  /** One turn of the scan decoding loop. */
  method DecodeEntryAt(p: Bytes, start: nat) returns (r: Option<((Bytes, Bytes), nat)>)
    requires start <= |p|
    ensures ReadAt(PairDec, p, start, r)
  {
    hide FromLE;
    var off := start;
    FieldAt(p, off);
    if off + 4 > |p| { return None; }
    var keyLen := FromLE(p[off..off + 4]);
    off := off + 4;
    if off + keyLen <= |p| { FieldAt(p, off + keyLen); }
    if off + keyLen + 4 > |p| { return None; }
    var key := p[off..off + keyLen];
    off := off + keyLen;
    var valLen := FromLE(p[off..off + 4]);
    off := off + 4;
    if off + valLen > |p| { return None; }
    return Some(((key, p[off..off + valLen]), off + valLen));
  }

  // ---- key lists: the same loop, with and without a table name --------------

  method EncodeKeyList(head: Bytes, keys: seq<Bytes>) returns (buf: Bytes)
    ensures buf == head + EncodeListKeysResp(keys)
  {
    hide LE;
    buf := head + LE(|keys|, 4);
    assert buf == head + (LE(|keys|, 4) + EncodeAll(BytesEnc, keys[..0]));
    for i := 0 to |keys|
      invariant buf == head + (LE(|keys|, 4) + EncodeAll(BytesEnc, keys[..i]))
    {
      EncodeAllSnoc(BytesEnc, keys[..i], keys[i]);
      assert keys[..i + 1] == keys[..i] + [keys[i]];
      buf := buf + (LE(|keys[i]|, 4) + keys[i]);
    }
    assert keys[..|keys|] == keys;
  }

  method DecodeKeyList(p: Bytes) returns (r: Option<seq<Bytes>>)
    ensures r == DecodeListKeysResp(p)
  {
    hide FromLE;
    if |p| < 4 { return None; }
    var count := FromLE(p[..4]);
    var off := 4;
    var keys := [];
    ghost var all := DecodeAll(BytesDec, count, p[off..]);
    PrependNothing(all);
    for i := 0 to count
      invariant 0 <= off <= |p| && all == Prepend(keys, DecodeAll(BytesDec, count - i, p[off..]))
    {
      PrependStep(BytesDec, count - i, p[off..], keys);
      FieldAt(p, off);
      if off + 4 > |p| { return None; }
      var len := FromLE(p[off..off + 4]);
      off := off + 4;
      if off + len > |p| { return None; }
      keys := keys + [p[off..off + len]];
      off := off + len;
    }
    assert keys + [] == keys;
    return Some(keys);
  }
}
