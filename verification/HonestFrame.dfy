/**
 The role-owned RPC envelope: every request and answer carries the full identity of
 the operation, and an answer is decoded against the identity that was submitted.
 */
module HonestFrame {
  import opened Prelude
  import opened RpcFrame

  const MAX_PAYLOAD: nat := 1024 * 1024
  const RESP_SIZE: nat := 42
  const REQ_SIZE: nat := 38

  datatype Role = Control | Execution

  function RoleByte(role: Role): Byte {
    match role case Control => 1 case Execution => 2
  }

  function RoleFromByte(n: Byte): Option<Role> {
    if n == 1 then Some(Control) else if n == 2 then Some(Execution) else None
  }

  datatype Identity = Identity(role: Role, nodeId: nat, generation: nat, operationId: nat, rpcMethod: RpcMethod)

  predicate IdentityValid(id: Identity) {
    id.nodeId != 0 && id.generation != 0 && id.operationId != 0
  }

  /** The fields of an identity are 64-bit words. */
  predicate IdentityFits(id: Identity) {
    id.nodeId < U64 && id.generation < U64 && id.operationId < U64
  }

  datatype FrameError =
    | NotHonestFrame | Malformed | UnsupportedProfile | InvalidRole
    | InvalidIdentity | UnexpectedIdentity | PayloadBound

  datatype Result<+T> = Ok(value: T) | Err(error: FrameError)

  datatype Response = Response(identity: Identity, status: Status, payload: Bytes)

  /** "HRPC", the profile version 1, the role and a reserved zero byte. */
  function Prefix(role: Role): (s: Bytes)
    ensures |s| == 8
  {
    [0x48, 0x52, 0x50, 0x43, 1, 0, RoleByte(role), 0]
  }

  function EncodeIdentity(id: Identity): (s: Bytes)
    ensures |s| == 34
  {
    Prefix(id.role) + LE(id.nodeId, 8) + LE(id.generation, 8) + LE(id.operationId, 8) + LE(MethodCode(id.rpcMethod), 2)
  }

  function DecodeIdentity(b: Bytes, minimum: nat): Result<Identity>
    requires minimum >= 34
  {
    if |b| < 4 || b[..4] != [0x48, 0x52, 0x50, 0x43] then Err(NotHonestFrame)
    else if |b| < minimum then Err(Malformed)
    else if FromLE(b[4..6]) != 1 then Err(UnsupportedProfile)
    else if b[7] != 0 then Err(Malformed)
    else match RoleFromByte(b[6])
      case None => Err(InvalidRole)
      case Some(role) =>
        match MethodFromCode(FromLE(b[32..34]))
        case None => Err(Malformed)
        case Some(m) =>
          var id := Identity(role, FromLE(b[8..16]), FromLE(b[16..24]), FromLE(b[24..32]), m);
          if IdentityValid(id) then Ok(id) else Err(InvalidIdentity)
  }

  function EncodeHonestRequest(id: Identity, payload: Bytes): Result<Bytes> {
    if !IdentityValid(id) then Err(InvalidIdentity)
    else if |payload| > MAX_PAYLOAD then Err(PayloadBound)
    else Ok(EncodeIdentity(id) + LE(|payload|, 4) + payload)
  }

  function ResponseBytes(id: Identity, status: Status, payload: Bytes): Bytes {
    EncodeIdentity(id) + LE(StatusWord(status), 4) + LE(|payload|, 4) + payload
  }

  function EncodeHonestResponse(id: Identity, status: Status, payload: Bytes): Result<Bytes> {
    if !IdentityValid(id) then Err(InvalidIdentity)
    else if |payload| > MAX_PAYLOAD then Err(PayloadBound)
    else Ok(ResponseBytes(id, status, payload))
  }

  function DecodeHonestResponse(b: Bytes): Result<Response> {
    match DecodeIdentity(b, RESP_SIZE)
    case Err(e) => Err(e)
    case Ok(id) =>
      FromLERange(b[34..38]); WordSizes();
      var len := FromLE(b[38..42]);
      if len > MAX_PAYLOAD then Err(PayloadBound)
      else if |b| != RESP_SIZE + len then Err(Malformed)
      else Ok(Response(id, StatusFromWord(FromLE(b[34..38])), b[RESP_SIZE..]))
  }

  function DecodeHonestResponseFor(b: Bytes, expected: Identity): Result<Response> {
    match DecodeHonestResponse(b)
    case Err(e) => Err(e)
    case Ok(response) => if response.identity != expected then Err(UnexpectedIdentity) else Ok(response)
  }

  // ---- the codec is exact --------------------------------------------------

  lemma IdentityComplete(id: Identity, b: Bytes, minimum: nat)
    requires IdentityValid(id) && IdentityFits(id) && 34 <= minimum <= |b| && EncodeIdentity(id) <= b
    ensures DecodeIdentity(b, minimum) == Ok(id)
  {
    hide LE, FromLE, MethodCode, MethodFromCode;
    WordSizes();
    var code := MethodCode(id.rpcMethod);
    LERoundTrip(id.nodeId, 8);
    LERoundTrip(id.generation, 8);
    LERoundTrip(id.operationId, 8);
    LERoundTrip(code, 2);
    MethodCodes(id.rpcMethod, code);
    var e := EncodeIdentity(id);
    assert b[..34] == e;
    assert b[8..16] == e[8..16] == LE(id.nodeId, 8);
    assert b[16..24] == e[16..24] == LE(id.generation, 8);
    assert b[24..32] == e[24..32] == LE(id.operationId, 8);
    assert b[32..34] == e[32..34] == LE(code, 2);
    PrefixWords(b, id.role);
  }

  lemma PrefixWords(b: Bytes, role: Role)
    requires Prefix(role) <= b
    ensures b[..4] == [0x48, 0x52, 0x50, 0x43] && FromLE(b[4..6]) == 1 && b[6] == RoleByte(role) && b[7] == 0
  {
    assert b[..8] == Prefix(role);
    assert b[..4] == b[..8][..4];
    assert b[4..6] == [1, 0];
    assert FromLE([1, 0]) == 1 + 256 * FromLE([1, 0][1..]);
  }

  lemma IdentitySound(b: Bytes, minimum: nat)
    requires minimum >= 34 && DecodeIdentity(b, minimum).Ok?
    ensures var id := DecodeIdentity(b, minimum).value;
      |b| >= minimum && IdentityValid(id) && IdentityFits(id) && b[..34] == EncodeIdentity(id)
  {
    hide LE, FromLE, MethodFromCode;
    WordSizes();
    var id := DecodeIdentity(b, minimum).value;
    FromLERange(b[8..16]);
    FromLERange(b[16..24]);
    FromLERange(b[24..32]);
    LEOfFromLE(b[8..16]);
    LEOfFromLE(b[16..24]);
    LEOfFromLE(b[24..32]);
    LEOfFromLE(b[32..34]);
    MethodCodes(id.rpcMethod, FromLE(b[32..34]));
    assert b[..8] == Prefix(id.role) by { VersionBytes(b[4..6]); }
    assert b[..34] == b[..8] + b[8..16] + b[16..24] + b[24..32] + b[32..34];
  }

  lemma VersionBytes(v: Bytes)
    requires |v| == 2 && FromLE(v) == 1
    ensures v == [1, 0]
  {
    LEOfFromLE(v);
    assert LE(1, 2) == [1] + LE(0, 1);
    assert LE(0, 1) == [0] + LE(0, 0);
  }

  /** An answer is accepted for an identity exactly when it is that identity's encoded answer. */
  lemma AcceptedExactly(b: Bytes, expected: Identity, status: Status, payload: Bytes)
    requires IdentityFits(expected)
    ensures DecodeHonestResponseFor(b, expected) == Ok(Response(expected, status, payload))
       <==> EncodeHonestResponse(expected, status, payload) == Ok(b)
  {
    if EncodeHonestResponse(expected, status, payload) == Ok(b) {
      ResponseComplete(expected, status, payload);
    }
    if DecodeHonestResponseFor(b, expected) == Ok(Response(expected, status, payload)) {
      ResponseSound(b);
    }
  }

  lemma ResponseComplete(id: Identity, status: Status, payload: Bytes)
    requires IdentityValid(id) && IdentityFits(id) && |payload| <= MAX_PAYLOAD
    ensures DecodeHonestResponse(ResponseBytes(id, status, payload)) == Ok(Response(id, status, payload))
  {
    WordSizes();
    var b := ResponseBytes(id, status, payload);
    assert b[..34] == EncodeIdentity(id);
    IdentityComplete(id, b, RESP_SIZE);
    LERoundTrip(StatusWord(status), 4);
    LERoundTrip(|payload|, 4);
    assert b[34..38] == LE(StatusWord(status), 4) && b[38..42] == LE(|payload|, 4) && b[42..] == payload;
  }

  lemma ResponseSound(b: Bytes)
    requires DecodeHonestResponse(b).Ok?
    ensures var r := DecodeHonestResponse(b).value;
      IdentityValid(r.identity) && IdentityFits(r.identity) && |r.payload| <= MAX_PAYLOAD
      && b == ResponseBytes(r.identity, r.status, r.payload)
  {
    hide LE, FromLE;
    WordSizes();
    IdentitySound(b, RESP_SIZE);
    FromLERange(b[34..38]);
    LEOfFromLE(b[34..38]);
    LEOfFromLE(b[38..42]);
    FourParts(b, 34, 38, 42);
  }

  lemma FourParts(b: Bytes, i: nat, j: nat, k: nat)
    requires i <= j <= k <= |b|
    ensures b == b[..i] + b[i..j] + b[j..k] + b[k..]
  {
  }

  /** Whatever an identity's answer says, no other identity accepts it. */
  lemma OtherIdentityRefuses(id: Identity, other: Identity, status: Status, payload: Bytes)
    requires IdentityValid(id) && IdentityFits(id) && |payload| <= MAX_PAYLOAD && other != id
    ensures DecodeHonestResponseFor(ResponseBytes(id, status, payload), other) == Err(UnexpectedIdentity)
  {
    ResponseComplete(id, status, payload);
  }

  /** The frame is the encoded answer of some other identity. */
  ghost predicate AnotherAnswer(b: Bytes, expected: Identity) {
    exists other, status, payload ::
      other != expected && IdentityFits(other) && EncodeHonestResponse(other, status, payload) == Ok(b)
  }

  lemma ErrorOfDecoding(b: Bytes)
    ensures DecodeHonestResponse(b) != Err(UnexpectedIdentity)
  {
    hide FromLE, MethodFromCode;
  }

  /** A frame is not of this kind exactly without the magic; version and role are judged next, on a whole header. */
  lemma HeaderErrors(b: Bytes)
    ensures var (r, magic) := (DecodeHonestResponse(b), [0x48, 0x52, 0x50, 0x43] <= b);
      && (r == Err(NotHonestFrame) <==> !magic)
      && (r == Err(UnsupportedProfile) <==> magic && |b| >= 42 && !(b[4] == 1 && b[5] == 0))
      && (r == Err(InvalidRole) <==>
            magic && |b| >= 42 && b[4] == 1 && b[5] == 0 && b[7] == 0 && b[6] != 1 && b[6] != 2)
    ensures DecodeIdentity(b, 42).Ok? ==>
      var (r, len) := (DecodeHonestResponse(b), FromLE(b[38..42]));
      && (r == Err(PayloadBound) <==> len > 1048576)
      && (r == Err(Malformed) <==> len <= 1048576 && |b| != 42 + len)
  {
    if |b| >= 42 {
      assert b[4..6] == [b[4], b[5]];
      assert [b[4], b[5]][1..] == [b[5]] && [b[5]][1..] == [];
      assert FromLE([b[5]]) == b[5];
      assert FromLE(b[4..6]) == b[4] as int + 256 * (b[5] as int);
    }
    hide FromLE, MethodFromCode;
  }

  /** An answer is refused as another operation's exactly when it is one; every other refusal is of the frame itself. */
  lemma UnexpectedExactly(b: Bytes, expected: Identity)
    ensures DecodeHonestResponseFor(b, expected) == Err(UnexpectedIdentity) <==> AnotherAnswer(b, expected)
  {
    ErrorOfDecoding(b);
    if DecodeHonestResponse(b).Ok? {
      ResponseSound(b);
      var r := DecodeHonestResponse(b).value;
      if r.identity != expected {
        assert IdentityFits(r.identity) && EncodeHonestResponse(r.identity, r.status, r.payload) == Ok(b);
      }
    }
    forall other, status, payload
      | other != expected && IdentityFits(other) && EncodeHonestResponse(other, status, payload) == Ok(b)
      ensures DecodeHonestResponse(b) == Ok(Response(other, status, payload))
    {
      ResponseComplete(other, status, payload);
    }
  }

  // ---- the two envelopes on one ring ----------------------------------------

  /** What the legacy decoder reads as the request id of a role-owned frame. */
  function PrefixId(role: Role): nat {
    match role
    case Control => 0x0001_0001_4350_5248
    case Execution => 0x0002_0001_4350_5248
  }

  lemma PrefixIdIsWord(role: Role)
    ensures FromLE(Prefix(role)) == PrefixId(role)
  {
    var p := Prefix(role);
    assert p[1..] == [0x52, 0x50, 0x43, 1, 0, RoleByte(role), 0];
    assert p[1..][1..] == [0x50, 0x43, 1, 0, RoleByte(role), 0];
    assert p[1..][1..][1..] == [0x43, 1, 0, RoleByte(role), 0];
    assert p[1..][1..][1..][1..] == [1, 0, RoleByte(role), 0];
    assert p[1..][1..][1..][1..][1..] == [0, RoleByte(role), 0];
    assert p[1..][1..][1..][1..][1..][1..] == [RoleByte(role), 0];
    assert p[1..][1..][1..][1..][1..][1..][1..] == [0];
  }

  /** The length the legacy decoder reads in a role-owned answer is the high half of the node id. */
  lemma NodeIdHalves(b: Bytes, nodeId: nat)
    requires |b| >= 16 && nodeId < U64 && b[8..16] == LE(nodeId, 8)
    ensures FromLE(b[12..16]) == nodeId / U32
  {
    hide LE, FromLE;
    WordSizes();
    LERoundTrip(nodeId, 8);
    assert b[8..16] == b[8..12] + b[12..16];
    FromLEConcat(b[8..12], b[12..16]);
    FromLERange(b[8..12]);
    DivModUnique(nodeId, U32, FromLE(b[12..16]), FromLE(b[8..12]));
  }

  /**
   The legacy decoder accepts a role-owned answer exactly when the high half of its node id
   does not exceed the bytes behind it, and then always under one request id per role.
   */
  lemma LegacyReadsPrefix(id: Identity, status: Status, payload: Bytes)
    requires IdentityFits(id)
    ensures var d := DecodeResponse(ResponseBytes(id, status, payload));
      && (d.Some? <==> id.nodeId / U32 <= 26 + |payload|)
      && (d.Some? ==> d.value.0 == PrefixId(id.role))
  {
    hide LE, FromLE;
    var b := ResponseBytes(id, status, payload);
    assert b[..8] == Prefix(id.role) && b[8..16] == LE(id.nodeId, 8);
    PrefixIdIsWord(id.role);
    NodeIdHalves(b, id.nodeId);
  }

  /** What a legacy payload must hold for the whole frame to be a role-owned answer. */
  predicate LooksHonest(payload: Bytes) {
    && |payload| >= 26
    && FromLE(payload[..8]) != 0 && FromLE(payload[8..16]) != 0
    && MethodFromCode(FromLE(payload[16..18])).Some?
    && FromLE(payload[22..26]) == |payload| - 26 <= MAX_PAYLOAD
  }

  predicate IsPrefixId(id: nat) {
    id == PrefixId(Control) || id == PrefixId(Execution)
  }

  /** A legacy answer starts with a role-owned prefix exactly under one request id per role. */
  lemma PrefixStands(id: nat, role: Role)
    requires id < U64
    ensures LE(id, 8) == Prefix(role) <==> id == PrefixId(role)
  {
    hide LE, FromLE;
    WordSizes();
    PrefixIdIsWord(role);
    LERoundTrip(id, 8);
    LEOfFromLE(Prefix(role));
  }

  lemma LegacySlices(id: nat, status: Status, payload: Bytes)
    ensures var b := EncodeResponse(id, status, payload);
      && |b| == 16 + |payload| && b[..8] == LE(id, 8)
      && b[8..16] == LE(StatusWord(status), 4) + LE(|payload|, 4)
      && (|payload| >= 26 ==>
           && b[16..24] == payload[..8] && b[24..32] == payload[8..16] && b[32..34] == payload[16..18]
           && b[38..42] == payload[22..26])
  {
    hide LE;
  }

  /** The node id such a frame would carry: the status word below the payload length. */
  lemma LegacyNodeId(b: Bytes, status: Status, payload: Bytes)
    requires |b| >= 16 && b[8..16] == LE(StatusWord(status), 4) + LE(|payload|, 4) && |payload| < U32
    ensures FromLE(b[8..16]) == StatusWord(status) + U32 * |payload|
  {
    hide LE, FromLE;
    WordSizes();
    FromLEConcat(LE(StatusWord(status), 4), LE(|payload|, 4));
    LERoundTrip(StatusWord(status), 4);
    LERoundTrip(|payload|, 4);
  }

  /** A legacy answer is read as a role-owned one exactly under those request ids and with such a payload. */
  lemma HonestReadsLegacy(id: nat, status: Status, payload: Bytes)
    requires id < U64
    ensures DecodeHonestResponse(EncodeResponse(id, status, payload)).Ok? <==> IsPrefixId(id) && LooksHonest(payload)
  {
    hide LE, FromLE, MethodFromCode;
    var b := EncodeResponse(id, status, payload);
    LegacySlices(id, status, payload);
    PrefixStands(id, Control);
    PrefixStands(id, Execution);
    if DecodeHonestResponse(b).Ok? {
      IdentitySound(b, RESP_SIZE);
      assert b[..8] == b[..34][..8] == Prefix(DecodeHonestResponse(b).value.identity.role);
    }
    if IsPrefixId(id) && LooksHonest(payload) {
      var role := if id == PrefixId(Control) then Control else Execution;
      PrefixWords(b, role);
      LegacyNodeId(b, status, payload);
    }
  }
}
