/**
 The RPC wire frames over the shared rings: the legacy request and response header,
 and the scatter encoder that writes a request in place from borrowed segments.
 */
module RpcFrame {
  import opened Prelude
  import opened Slices

  datatype RpcMethod =
    | NetTcpListen | NetTcpAccept | NetTcpConnect | NetSend | NetRecv | NetClose
    | KvPut | KvGet | KvDelete | KvListKeys | KvWriteBatch | KvMultiGet | KvScan | KvPutDurable | WorkerStorage
    | GetCurrentTime | Log
    | QeGetTargetInfo | QeGetQuote
    | Shutdown

  function MethodCode(m: RpcMethod): (n: nat)
    ensures n < U16
  {
    match m
    case NetTcpListen => 0x0100 case NetTcpAccept => 0x0101 case NetTcpConnect => 0x0102
    case NetSend => 0x0103 case NetRecv => 0x0104 case NetClose => 0x0105
    case KvPut => 0x0200 case KvGet => 0x0201 case KvDelete => 0x0202 case KvListKeys => 0x0203
    case KvWriteBatch => 0x0204 case KvMultiGet => 0x0205 case KvScan => 0x0206
    case KvPutDurable => 0x0207 case WorkerStorage => 0x0208
    case GetCurrentTime => 0x0300 case Log => 0x0301
    case QeGetTargetInfo => 0x0400 case QeGetQuote => 0x0401
    case Shutdown => 0xFF00
  }

  function MethodFromCode(n: nat): Option<RpcMethod> {
    if n == 0x0100 then Some(NetTcpListen) else if n == 0x0101 then Some(NetTcpAccept)
    else if n == 0x0102 then Some(NetTcpConnect) else if n == 0x0103 then Some(NetSend)
    else if n == 0x0104 then Some(NetRecv) else if n == 0x0105 then Some(NetClose)
    else if n == 0x0200 then Some(KvPut) else if n == 0x0201 then Some(KvGet)
    else if n == 0x0202 then Some(KvDelete) else if n == 0x0203 then Some(KvListKeys)
    else if n == 0x0204 then Some(KvWriteBatch) else if n == 0x0205 then Some(KvMultiGet)
    else if n == 0x0206 then Some(KvScan) else if n == 0x0207 then Some(KvPutDurable)
    else if n == 0x0208 then Some(WorkerStorage)
    else if n == 0x0300 then Some(GetCurrentTime) else if n == 0x0301 then Some(Log)
    else if n == 0x0400 then Some(QeGetTargetInfo) else if n == 0x0401 then Some(QeGetQuote)
    else if n == 0xFF00 then Some(Shutdown)
    else None
  }

  lemma MethodCodes(m: RpcMethod, n: nat)
    ensures MethodFromCode(n) == Some(m) <==> n == MethodCode(m)
  {
  }

  // ---- signed status words -------------------------------------------------

  type Status = n: int | -0x8000_0000 <= n < 0x8000_0000

  function StatusWord(s: Status): (n: nat)
    ensures n < U32
  {
    if s < 0 then s + U32 else s
  }

  function StatusFromWord(n: nat): Status
    requires n < U32
  {
    if n >= 0x8000_0000 then n - U32 else n
  }

  // ---- the legacy header ---------------------------------------------------

  const REQ_HEADER_SIZE: nat := 14
  const RESP_HEADER_SIZE: nat := 16
  const MAX_MSG_SIZE: nat := 4 * 1024 * 1024 - 4

  predicate FramedPayloadLenValid(payload: nat, header: nat, maximum: nat) {
    payload < U32 && payload + header <= (if maximum < MAX_MSG_SIZE then maximum else MAX_MSG_SIZE)
  }

  function RequestHeader(id: nat, m: RpcMethod, len: nat): (s: Bytes)
    ensures |s| == REQ_HEADER_SIZE
  {
    LE(id, 8) + LE(MethodCode(m), 2) + LE(len, 4)
  }

  function EncodeRequest(id: nat, m: RpcMethod, payload: Bytes): Bytes {
    RequestHeader(id, m, |payload|) + payload
  }

  function DecodeRequest(d: Bytes): Option<(nat, RpcMethod, Bytes)> {
    if |d| < REQ_HEADER_SIZE then None
    else
      var len := FromLE(d[10..14]);
      match MethodFromCode(FromLE(d[8..10]))
      case None => None
      case Some(m) =>
        if |d| < REQ_HEADER_SIZE + len then None
        else Some((FromLE(d[0..8]), m, d[REQ_HEADER_SIZE..REQ_HEADER_SIZE + len]))
  }

  function EncodeResponse(id: nat, status: Status, payload: Bytes): Bytes {
    LE(id, 8) + LE(StatusWord(status), 4) + LE(|payload|, 4) + payload
  }

  function DecodeResponse(d: Bytes): Option<(nat, Status, Bytes)> {
    if |d| < RESP_HEADER_SIZE then None
    else
      FromLERange(d[8..12]); WordSizes();
      var len := FromLE(d[12..16]);
      if RESP_HEADER_SIZE + len > |d| then None
      else Some((FromLE(d[..8]), StatusFromWord(FromLE(d[8..12])), d[RESP_HEADER_SIZE..RESP_HEADER_SIZE + len]))
  }

  /** A request decodes to a value exactly when it starts with that value's encoding. */
  lemma RequestExact(id: nat, m: RpcMethod, payload: Bytes, d: Bytes)
    ensures DecodeRequest(d) == Some((id, m, payload))
       <==> id < U64 && |payload| < U32 && EncodeRequest(id, m, payload) <= d
  {
    if id < U64 && |payload| < U32 && EncodeRequest(id, m, payload) <= d {
      RequestComplete(id, m, payload, d);
    }
    if DecodeRequest(d) == Some((id, m, payload)) {
      RequestSound(id, m, payload, d);
    }
  }

  lemma RequestComplete(id: nat, m: RpcMethod, payload: Bytes, d: Bytes)
    requires id < U64 && |payload| < U32 && EncodeRequest(id, m, payload) <= d
    ensures DecodeRequest(d) == Some((id, m, payload))
  {
    WordSizes();
    var code := MethodCode(m);
    LERoundTrip(id, 8);
    LERoundTrip(code, 2);
    LERoundTrip(|payload|, 4);
    MethodCodes(m, code);
    var e := EncodeRequest(id, m, payload);
    assert e == LE(id, 8) + LE(code, 2) + LE(|payload|, 4) + payload;
    assert d[..|e|] == e;
    assert d[0..8] == e[0..8] && d[8..10] == e[8..10] && d[10..14] == e[10..14] && d[14..14 + |payload|] == e[14..];
    assert e[0..8] == LE(id, 8) && e[8..10] == LE(code, 2) && e[10..14] == LE(|payload|, 4) && e[14..] == payload;
  }

  lemma RequestSound(id: nat, m: RpcMethod, payload: Bytes, d: Bytes)
    requires DecodeRequest(d) == Some((id, m, payload))
    ensures id < U64 && |payload| < U32 && EncodeRequest(id, m, payload) <= d
  {
    WordSizes();
    FromLERange(d[0..8]);
    FromLERange(d[10..14]);
    LEOfFromLE(d[0..8]);
    LEOfFromLE(d[8..10]);
    LEOfFromLE(d[10..14]);
    MethodCodes(m, FromLE(d[8..10]));
    assert d[..14 + |payload|] == d[0..8] + d[8..10] + d[10..14] + d[14..14 + |payload|];
  }

  lemma RequestPrefixRefused(id: nat, m: RpcMethod, payload: Bytes, d: Bytes)
    requires id < U64 && |payload| < U32 && d < EncodeRequest(id, m, payload)
    ensures DecodeRequest(d) == None
  {
    if DecodeRequest(d).Some? {
      var code := EncodeRequest(id, m, payload);
      var (id', m', payload') := DecodeRequest(d).value;
      RequestExact(id', m', payload', d);
      RequestExact(id', m', payload', code);
      RequestExact(id, m, payload, code);
    }
  }

  lemma ResponseExact(id: nat, status: Status, payload: Bytes, d: Bytes)
    ensures DecodeResponse(d) == Some((id, status, payload))
       <==> id < U64 && |payload| < U32 && EncodeResponse(id, status, payload) <= d
  {
    hide LE, FromLE;
    WordSizes();
    if id < U64 && |payload| < U32 && EncodeResponse(id, status, payload) <= d {
      LERoundTrip(id, 8);
      LERoundTrip(StatusWord(status), 4);
      LERoundTrip(|payload|, 4);
      assert d[..8] == LE(id, 8) && d[8..12] == LE(StatusWord(status), 4) && d[12..16] == LE(|payload|, 4);
      assert d[16..16 + |payload|] == payload;
    }
    if DecodeResponse(d) == Some((id, status, payload)) {
      FromLERange(d[..8]);
      FromLERange(d[8..12]);
      FromLERange(d[12..16]);
      LEOfFromLE(d[..8]);
      LEOfFromLE(d[8..12]);
      LEOfFromLE(d[12..16]);
      assert d[..16 + |payload|] == d[..8] + d[8..12] + d[12..16] + d[16..16 + |payload|];
    }
  }

  // ---- the scatter encoder -------------------------------------------------

  function Concat(parts: seq<Bytes>): Bytes {
    if parts == [] then [] else Concat(parts[..|parts| - 1]) + parts[|parts| - 1]
  }

  lemma {:induction false} ConcatPrefix(parts: seq<Bytes>, i: nat)
    requires i <= |parts|
    ensures |Concat(parts[..i])| <= |Concat(parts)|
    decreases |parts|
  {
    if i < |parts| {
      ConcatPrefix(parts[..|parts| - 1], i);
      assert parts[..|parts| - 1][..i] == parts[..i];
    } else {
      assert parts[..i] == parts;
    }
  }

  /**
   Writes the frame in place. It accepts exactly when the payload and the storage fit,
   leaves every byte untouched when it refuses, and otherwise produces the simple
   encoder's frame and touches nothing behind it.
   */
  method EncodeRequestPartsInto(id: nat, m: RpcMethod, parts: seq<Bytes>, maximum: nat, output: array<Byte>)
    returns (r: Option<nat>)
    modifies output
    ensures r.Some? <==> FramedPayloadLenValid(|Concat(parts)|, REQ_HEADER_SIZE, maximum)
                         && REQ_HEADER_SIZE + |Concat(parts)| <= output.Length
    ensures r.None? ==> output[..] == old(output[..])
    ensures r.Some? ==>
      && r.value == REQ_HEADER_SIZE + |Concat(parts)|
      && output[..r.value] == EncodeRequest(id, m, Concat(parts))
      && output[r.value..] == old(output[r.value..])
  {
    var payloadLen := PartsLength(parts);
    if !FramedPayloadLenValid(payloadLen, REQ_HEADER_SIZE, maximum) { return None; }
    var length := REQ_HEADER_SIZE + payloadLen;
    if output.Length < length { return None; }
    WriteAt(output, 0, RequestHeader(id, m, payloadLen));
    CopyParts(output, REQ_HEADER_SIZE, parts);
    return Some(length);
  }

  method CopyParts(output: array<Byte>, start: nat, parts: seq<Bytes>)
    requires start + |Concat(parts)| <= output.Length
    modifies output
    ensures output[..] == Patched(old(output[..]), start, Concat(parts))
  {
    var position := start;
    ghost var whole := output[..];
    for i := 0 to |parts|
      invariant position == start + |Concat(parts[..i])| <= output.Length
      invariant output[..] == Patched(whole, start, Concat(parts[..i]))
    {
      ConcatPrefix(parts, i + 1);
      assert parts[..i + 1][..i] == parts[..i];
      PatchedTwice(whole, start, Concat(parts[..i]), parts[i]);
      WriteAt(output, position, parts[i]);
      position := position + |parts[i]|;
    }
    assert parts[..|parts|] == parts;
  }

  method PartsLength(parts: seq<Bytes>) returns (total: nat)
    ensures total == |Concat(parts)|
  {
    total := 0;
    for i := 0 to |parts|
      invariant total == |Concat(parts[..i])|
    {
      assert parts[..i + 1][..i] == parts[..i];
      total := total + |parts[i]|;
    }
    assert parts[..|parts|] == parts;
  }

  /** Segments are joined in order: one alone is itself, and two lists of segments join to the join of their joins. */
  lemma {:induction false} ConcatJoins(a: seq<Bytes>, b: seq<Bytes>, x: Bytes)
    ensures Concat([x]) == x && Concat(a + b) == Concat(a) + Concat(b)
    decreases |b|
  {
    assert [x][..0] == [] && Concat([]) == [];
    if b == [] {
      assert a + b == a;
    } else {
      var front := b[..|b| - 1];
      ConcatJoins(a, front, x);
      assert (a + b)[..|a + b| - 1] == a + front;
    }
  }
}
