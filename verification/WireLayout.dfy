/**
 The bytes on the wire, place by place: what a peer written from the format description
 alone would have to produce, for the ring frame, the RPC frames, the key-value payloads
 and the sealed envelope.
 */
module WireLayout {
  import opened Prelude
  import opened Codec
  import opened RpcFrame
  import H = HonestFrame
  import opened KvWire
  import Ring
  import E = Envelope

  /** The bytes of `f` from `p` on are the number `n` in `width` bytes, low byte first. */
  ghost predicate Low(f: Bytes, p: nat, width: nat, n: nat) {
    p + width <= |f| && forall i: nat :: i < width ==> f[p + i] == n / Pow256(i) % 256
  }

  /** The same with the high byte first. */
  ghost predicate High(f: Bytes, p: nat, width: nat, n: nat) {
    p + width <= |f| && forall i: nat :: i < width ==> f[p + width - 1 - i] == n / Pow256(i) % 256
  }

  lemma LowAt(a: Bytes, n: nat, width: nat, b: Bytes)
    ensures Low(a + LE(n, width) + b, |a|, width, n)
  {
    forall i: nat | i < width ensures (a + LE(n, width) + b)[|a| + i] == n / Pow256(i) % 256 { LEByte(n, width, i); }
  }

  lemma HighAt(a: Bytes, n: nat, width: nat, b: Bytes)
    ensures High(a + BE(n, width) + b, |a|, width, n)
  {
    forall i: nat | i < width ensures (a + BE(n, width) + b)[|a| + width - 1 - i] == n / Pow256(i) % 256 {
      BEByte(n, width, i);
    }
  }

  // ---- ring frames -----------------------------------------------------------------

  /** Four length bytes, low byte first, then the message. */
  lemma RingFrameBytes(msg: Bytes)
    ensures var f := Ring.Frame(msg); Low(f, 0, 4, |msg|) && f[4..] == msg
  {
    LowAt([], |msg|, 4, msg);
    assert [] + LE(|msg|, 4) + msg == Ring.Frame(msg);
  }

  // ---- method codes ----------------------------------------------------------------

  /** The method identifiers. */
  lemma MethodTable()
    ensures MethodCode(NetTcpListen) == 0x0100 && MethodCode(NetTcpAccept) == 0x0101
    ensures MethodCode(NetTcpConnect) == 0x0102 && MethodCode(NetSend) == 0x0103
    ensures MethodCode(NetRecv) == 0x0104 && MethodCode(NetClose) == 0x0105
    ensures MethodCode(KvPut) == 0x0200 && MethodCode(KvGet) == 0x0201 && MethodCode(KvDelete) == 0x0202
    ensures MethodCode(KvListKeys) == 0x0203 && MethodCode(KvWriteBatch) == 0x0204 && MethodCode(KvMultiGet) == 0x0205
    ensures MethodCode(KvScan) == 0x0206 && MethodCode(KvPutDurable) == 0x0207 && MethodCode(WorkerStorage) == 0x0208
    ensures MethodCode(GetCurrentTime) == 0x0300 && MethodCode(Log) == 0x0301
    ensures MethodCode(QeGetTargetInfo) == 0x0400 && MethodCode(QeGetQuote) == 0x0401
    ensures MethodCode(Shutdown) == 0xFF00
  {
  }

  // ---- requests and responses ------------------------------------------------------

  /** Eight id bytes, two method bytes, four length bytes, the payload. */
  lemma RequestBytes(id: nat, m: RpcMethod, payload: Bytes)
    ensures var f := EncodeRequest(id, m, payload);
      && |f| == 14 + |payload|
      && Low(f, 0, 8, id) && Low(f, 8, 2, MethodCode(m)) && Low(f, 10, 4, |payload|) && f[14..] == payload
  {
    hide LE, MethodCode;
    var f := EncodeRequest(id, m, payload);
    var (a, b, c) := (LE(id, 8), LE(MethodCode(m), 2), LE(|payload|, 4));
    LowAt([], id, 8, b + c + payload);
    LowAt(a, MethodCode(m), 2, c + payload);
    LowAt(a + b, |payload|, 4, payload);
    assert f == [] + a + (b + c + payload) == a + b + (c + payload) == (a + b) + c + payload;
  }

  /** A status as an unsigned 32-bit word, two's complement. */
  function StatusBits(status: Status): nat {
    if status < 0 then status + 0x1_0000_0000 else status
  }

  /** Eight id bytes, four status bytes, four length bytes, the payload. */
  lemma ResponseBytesAt(id: nat, status: Status, payload: Bytes)
    ensures var f := EncodeResponse(id, status, payload);
      && |f| == 16 + |payload|
      && Low(f, 0, 8, id) && Low(f, 8, 4, StatusBits(status)) && Low(f, 12, 4, |payload|) && f[16..] == payload
  {
    var w := StatusWord(status);
    assert w == StatusBits(status);
    hide LE, StatusWord, StatusBits;
    var f := EncodeResponse(id, status, payload);
    var (a, b, c) := (LE(id, 8), LE(w, 4), LE(|payload|, 4));
    LowAt([], id, 8, b + c + payload);
    LowAt(a, w, 4, c + payload);
    LowAt(a + b, |payload|, 4, payload);
    assert f == [] + a + (b + c + payload) == a + b + (c + payload) == (a + b) + c + payload;
  }

  // ---- role-owned frames --------------------------------------------------------------

  /** "HRPC", version one, the role, a zero byte; node, generation, operation and method. */
  ghost predicate IdentityBytes(f: Bytes, id: H.Identity) {
    && |f| >= 34
    && f[..8] == [0x48, 0x52, 0x50, 0x43, 1, 0, if id.role.Control? then 1 else 2, 0]
    && Low(f, 8, 8, id.nodeId) && Low(f, 16, 8, id.generation) && Low(f, 24, 8, id.operationId)
    && Low(f, 32, 2, MethodCode(id.rpcMethod))
  }

  lemma IdentityAt(id: H.Identity, rest: Bytes)
    ensures IdentityBytes(H.EncodeIdentity(id) + rest, id)
  {
    hide LE, MethodCode;
    var f := H.EncodeIdentity(id) + rest;
    var p := H.Prefix(id.role);
    var (a, b, c) := (LE(id.nodeId, 8), LE(id.generation, 8), LE(id.operationId, 8));
    var d := LE(MethodCode(id.rpcMethod), 2);
    LowAt(p, id.nodeId, 8, b + c + d + rest);
    LowAt(p + a, id.generation, 8, c + d + rest);
    LowAt(p + a + b, id.operationId, 8, d + rest);
    LowAt(p + a + b + c, MethodCode(id.rpcMethod), 2, rest);
    assert f == p + a + (b + c + d + rest) == p + a + b + (c + d + rest) == p + a + b + c + (d + rest);
    assert f == p + a + b + c + d + rest;
    assert f[..8] == p;
  }

  /** A role-owned request carries its identity, four length bytes and the payload. */
  lemma HonestRequestBytes(id: H.Identity, payload: Bytes)
    ensures H.EncodeHonestRequest(id, payload).Ok? <==>
      id.nodeId != 0 && id.generation != 0 && id.operationId != 0 && |payload| <= 1048576
    ensures H.EncodeHonestRequest(id, payload) == H.Err(H.InvalidIdentity) <==>
      id.nodeId == 0 || id.generation == 0 || id.operationId == 0
    ensures H.EncodeHonestRequest(id, payload).Ok? ==>
      var f := H.EncodeHonestRequest(id, payload).value;
      |f| == 38 + |payload| && IdentityBytes(f, id) && Low(f, 34, 4, |payload|) && f[38..] == payload
  {
    hide LE;
    if H.EncodeHonestRequest(id, payload).Ok? {
      var f := H.EncodeHonestRequest(id, payload).value;
      var i := H.EncodeIdentity(id);
      IdentityAt(id, LE(|payload|, 4) + payload);
      LowAt(i, |payload|, 4, payload);
      assert f == i + (LE(|payload|, 4) + payload);
    }
  }

  /** A role-owned answer adds four status bytes. */
  lemma HonestResponseBytes(id: H.Identity, status: Status, payload: Bytes)
    ensures H.EncodeHonestResponse(id, status, payload).Ok? <==>
      id.nodeId != 0 && id.generation != 0 && id.operationId != 0 && |payload| <= 1048576
    ensures H.EncodeHonestResponse(id, status, payload) == H.Err(H.InvalidIdentity) <==>
      id.nodeId == 0 || id.generation == 0 || id.operationId == 0
    ensures var f := H.ResponseBytes(id, status, payload);
      && |f| == 42 + |payload| && IdentityBytes(f, id)
      && Low(f, 34, 4, StatusBits(status)) && Low(f, 38, 4, |payload|) && f[42..] == payload
  {
    assert StatusWord(status) == StatusBits(status);
    hide LE, StatusBits, StatusWord;
    var f := H.ResponseBytes(id, status, payload);
    var (i, a, b) := (H.EncodeIdentity(id), LE(StatusWord(status), 4), LE(|payload|, 4));
    IdentityAt(id, a + b + payload);
    LowAt(i, StatusWord(status), 4, b + payload);
    LowAt(i + a, |payload|, 4, payload);
    assert f == i + (a + b + payload) == i + a + (b + payload) == (i + a) + b + payload;
  }

  // ---- key-value payloads -----------------------------------------------------------

  /** Four length bytes, low byte first, then the bytes. */
  ghost predicate Sized(f: Bytes, p: nat, x: Bytes) {
    Low(f, p, 4, |x|) && p + 4 + |x| <= |f| && f[p + 4..p + 4 + |x|] == x
  }

  lemma SizedAt(a: Bytes, x: Bytes, b: Bytes)
    ensures Sized(a + BytesEnc(x) + b, |a|, x)
  {
    hide LE;
    LowAt(a, |x|, 4, x + b);
    assert a + BytesEnc(x) + b == a + LE(|x|, 4) + (x + b);
  }

  /** A put is a zero byte, its key and its value; a delete is a one byte and its key. */
  lemma OperationBytes(key: Bytes, value: Bytes)
    ensures var f := OpEnc(Put(key, value));
      |f| == 9 + |key| + |value| && f[0] == 0 && Sized(f, 1, key) && Sized(f, 5 + |key|, value)
    ensures var f := OpEnc(Delete(key)); |f| == 5 + |key| && f[0] == 1 && Sized(f, 1, key)
  {
    hide LE;
    SizedAt([0], key, BytesEnc(value));
    SizedAt([0] + BytesEnc(key), value, []);
    SizedAt([1], key, []);
    assert [0] + BytesEnc(key) + BytesEnc(value) + [] == OpEnc(Put(key, value));
    assert [1] + BytesEnc(key) + [] == OpEnc(Delete(key));
  }

  /** A value that is there is a one byte and the value; one that is not is a zero byte. */
  lemma MaybeBytes(x: Bytes)
    ensures MaybeEnc(None) == [0]
    ensures var f := MaybeEnc(Some(x)); |f| == 5 + |x| && f[0] == 1 && Sized(f, 1, x)
  {
    hide LE;
    SizedAt([1], x, []);
    assert [1] + BytesEnc(x) + [] == MaybeEnc(Some(x));
  }

  /** A table name behind two length bytes, then four count bytes and the items in order. */
  lemma TabledBytes<T>(enc: T -> Bytes, table: Bytes, xs: seq<T>)
    ensures var f := EncodeTabled(enc, table, xs);
      && Low(f, 0, 2, |table|) && 6 + |table| <= |f| && f[2..2 + |table|] == table
      && Low(f, 2 + |table|, 4, |xs|) && f[6 + |table|..] == EncodeAll(enc, xs)
  {
    hide LE, EncodeAll;
    var (a, c, e) := (LE(|table|, 2), LE(|xs|, 4), EncodeAll(enc, xs));
    LowAt([], |table|, 2, table + (c + e));
    LowAt(a + table, |xs|, 4, e);
    var f := EncodeTabled(enc, table, xs);
    assert f == [] + a + (table + (c + e)) == (a + table) + c + e;
  }

  /** Four count bytes and the items in order. */
  lemma CountedBytes<T>(enc: T -> Bytes, xs: seq<T>)
    ensures var f := EncodeCounted(enc, xs); Low(f, 0, 4, |xs|) && f[4..] == EncodeAll(enc, xs)
  {
    hide LE, EncodeAll;
    LowAt([], |xs|, 4, EncodeAll(enc, xs));
    assert [] + LE(|xs|, 4) + EncodeAll(enc, xs) == EncodeCounted(enc, xs);
  }

  /** A pair is its key and its value, each behind its length. */
  lemma PairBytes(key: Bytes, value: Bytes)
    ensures var f := PairEnc((key, value));
      |f| == 8 + |key| + |value| && Sized(f, 0, key) && Sized(f, 4 + |key|, value)
  {
    hide LE;
    SizedAt([], key, BytesEnc(value));
    SizedAt(BytesEnc(key), value, []);
    assert [] + BytesEnc(key) + BytesEnc(value) == PairEnc((key, value)) == BytesEnc(key) + BytesEnc(value) + [];
  }

  // ---- the sealed envelope --------------------------------------------------------------

  /** A head of section 3 of RFC 8949 in its shortest form. */
  ghost predicate ShortestHead(h: Bytes, major: nat, v: nat) {
    if v < 24 then h == [32 * major + v]
    else if v < 0x100 then |h| == 2 && h[0] == 32 * major + 24 && High(h, 1, 1, v)
    else if v < 0x1_0000 then |h| == 3 && h[0] == 32 * major + 25 && High(h, 1, 2, v)
    else if v < 0x1_0000_0000 then |h| == 5 && h[0] == 32 * major + 26 && High(h, 1, 4, v)
    else |h| == 9 && h[0] == 32 * major + 27 && High(h, 1, 8, v)
  }

  lemma HeadIsShortest(major: nat, v: nat)
    requires major < 8
    ensures ShortestHead(E.Head(major, v), major, v)
  {
    hide BE;
    if v >= 24 {
      var n := if v < 0x100 then 1 else if v < 0x1_0000 then 2 else if v < 0x1_0000_0000 then 4 else 8;
      var first := E.Head(major, v)[0];
      HighAt([first], v, n, []);
      assert E.Head(major, v) == [first] + BE(v, n) + [];
    }
  }

  /** A map of three: "v" and one, "ctr" and the counter, "ct" and the ciphertext. */
  lemma EnvelopeBytes(ctr: nat, ct: Bytes)
    ensures exists c, b ::
      && ShortestHead(c, 0, ctr) && ShortestHead(b, 2, |ct|)
      && E.Encode(ctr, ct) ==
           [0xA3, 0x61, 0x76, 0x01, 0x63, 0x63, 0x74, 0x72] + c + [0x62, 0x63, 0x74] + b + ct
  {
    hide E.FieldEnc, E.Head, ShortestHead;
    HeadIsShortest(0, ctr);
    HeadIsShortest(2, |ct|);
    var (c, b) := (E.Head(0, ctr), E.Head(2, |ct|));
    FieldBytes(ctr, ct);
    EnvelopeJoined(c, b, ct);
  }

  lemma FieldBytes(ctr: nat, ct: Bytes)
    ensures E.FieldEnc(E.Version(1)) == [0x61, 0x76, 0x01]
    ensures E.FieldEnc(E.Counter(ctr)) == [0x63, 0x63, 0x74, 0x72] + E.Head(0, ctr)
    ensures E.FieldEnc(E.Body(ct)) == [0x62, 0x63, 0x74] + (E.Head(2, |ct|) + ct)
  {
    assert E.Head(0, 1) == [1];
    hide E.Head;
  }

  lemma EnvelopeJoined(c: Bytes, b: Bytes, ct: Bytes)
    ensures [0xA3] + [0x61, 0x76, 0x01] + ([0x63, 0x63, 0x74, 0x72] + c) + ([0x62, 0x63, 0x74] + (b + ct)) ==
      [0xA3, 0x61, 0x76, 0x01, 0x63, 0x63, 0x74, 0x72] + c + [0x62, 0x63, 0x74] + b + ct
  {
    var (k, m) := ([0x63, 0x63, 0x74, 0x72], [0x62, 0x63, 0x74]);
    assert [0xA3] + [0x61, 0x76, 0x01] + k == [0xA3, 0x61, 0x76, 0x01, 0x63, 0x63, 0x74, 0x72];
    Grouped([0xA3] + [0x61, 0x76, 0x01], k, c, m, b, ct);
  }

  lemma Grouped(h: Bytes, k: Bytes, c: Bytes, m: Bytes, b: Bytes, ct: Bytes)
    ensures h + (k + c) + (m + (b + ct)) == h + k + c + m + b + ct
  {
  }
}
