/**
 One RPC client as an object: the shared id counter, the in-flight word, and the
 request and response rings at the level of whole frames. The methods are the
 client's submit, poll, abandon and synchronous exchanges, without interference. Submit,
 poll, abandon and the synchronous receive are proved to be steps of the RpcClient system.
 */
module RpcEndpoint {
  import opened Prelude
  import opened RpcFrame
  import opened HonestFrame
  import C = RpcClient

  class IdCounter {
    var next: nat

    constructor ()
      ensures next == 1
    {
      next := 1;
    }

    /** Fetch-and-add that refuses instead of wrapping. */
    method NextReqId() returns (id: Option<nat>)
      modifies this
      ensures id == if old(next) + 1 < U64 && old(next) != 0 then Some(old(next)) else None
      ensures next == if old(next) + 1 < U64 then old(next) + 1 else old(next)
    {
      if next + 1 >= U64 { return None; }
      var current := next;
      next := next + 1;
      return if current != 0 then Some(current) else None;
    }
  }

  datatype Reserve = Ready(id: nat) | Busy | Exhausted

  datatype PollError =
    | MethodDenied | InvalidRequest | QueueBusy | IdExhausted | QueueFull
    | NotPending | MalformedResponse | UnexpectedResponse

  datatype Submitted = Pending(identity: Identity) | Refused(error: PollError)
  datatype Polled = NotReady | Done(status: Status, payload: Bytes) | Failed(error: PollError)

  predicate ExecutionAllows(m: RpcMethod) {
    m.NetTcpConnect? || m.NetSend? || m.NetRecv? || m.NetClose? || m.WorkerStorage?
  }

  // ---- matching a stream of frames -----------------------------------------

  /** A frame that answers the legacy request `id`. */
  predicate Answers(frame: Bytes, id: nat) {
    DecodeResponse(frame).Some? && DecodeResponse(frame).value.0 == id
  }

  /** `k` is the first frame of the ring that answers `id`. */
  ghost predicate FirstAnswer(inbox: seq<Bytes>, id: nat, k: nat) {
    k < |inbox| && Answers(inbox[k], id) && forall i :: 0 <= i < k ==> !Answers(inbox[i], id)
  }

  datatype OwnerReply = Backing(size: nat) | OwnerRefuses(code: Status)
  datatype KvReply = Value(payload: Bytes) | Absent | Error(code: Status)

  /** An answered status other than success. */
  function Plain(status: Status): KvReply {
    if status == 1 then Absent else Error(status)
  }

  /**
   What the exact-size receive makes of one frame, or nothing when it goes on to the next.
   The header was read from `shown`; `copied` is the frame as it stood when it was copied,
   which the host may have rewritten in between.
   */
  function KvOutcome(shown: Bytes, copied: Bytes, id: nat, owner: nat -> OwnerReply): Option<KvReply> {
    if !Answers(shown, id) then None
    else if DecodeResponse(shown).value.1 != 0 then Some(Plain(DecodeResponse(shown).value.1))
    else match owner(|shown|)
      case OwnerRefuses(code) => Some(Error(code))
      case Backing(size) =>
        if size < |shown| then Some(Error(-22))
        else if !Answers(copied, id) then None
        else if DecodeResponse(copied).value.1 != 0 then Some(Plain(DecodeResponse(copied).value.1))
        else Some(Value(DecodeResponse(copied).value.2))
  }

  /** Whatever the host rewrites, a value is given out exactly from a copy that answers the request with success. */
  lemma ValueIsValidated(shown: Bytes, copied: Bytes, id: nat, owner: nat -> OwnerReply, payload: Bytes)
    requires |copied| == |shown|
    ensures KvOutcome(shown, copied, id, owner) == Some(Value(payload)) <==>
      && DecodeResponse(copied) == Some((id, 0, payload))
      && Answers(shown, id) && DecodeResponse(shown).value.1 == 0
      && owner(|shown|).Backing? && owner(|shown|).size >= |shown|
    ensures KvOutcome(shown, copied, id, owner) == Some(Value(payload)) ==> RESP_HEADER_SIZE + |payload| <= |shown|
  {
    assert DecodeResponse(copied).Some? ==> RESP_HEADER_SIZE + |DecodeResponse(copied).value.2| <= |copied|;
    hide DecodeResponse;
  }

  /**
   Every outcome of one frame, from what its header says as shown and as copied: whose request
   it answers, with which status, and what the owner of the storage says in between.
   */
  lemma OutcomeExactly(shown: Bytes, copied: Bytes, id: nat, owner: nat -> OwnerReply)
    ensures var (s, c, o) := (DecodeResponse(shown), DecodeResponse(copied), owner(|shown|));
      var mine := s.Some? && s.value.0 == id;
      var room := mine && s.value.1 == 0 && o.Backing? && o.size >= |shown|;
      var again := room && c.Some? && c.value.0 == id;
      var r := KvOutcome(shown, copied, id, owner);
      && (r == None <==> !mine || (room && !again))
      && (r == Some(Absent) <==> (mine && s.value.1 == 1) || (again && c.value.1 == 1))
      && (forall payload :: r == Some(Value(payload)) <==> again && c.value.1 == 0 && c.value.2 == payload)
      && (forall code :: r == Some(Error(code)) <==>
           || (mine && s.value.1 == code && code != 0 && code != 1)
           || (mine && s.value.1 == 0 && o == OwnerRefuses(code))
           || (mine && s.value.1 == 0 && o.Backing? && o.size < |shown| && code == -22)
           || (again && c.value.1 == code && code != 0 && code != 1))
  {
    hide DecodeResponse;
  }

  /** `k` is the first frame on which the exact-size receive stops. */
  ghost predicate FirstOutcome(shown: seq<Bytes>, copied: seq<Bytes>, id: nat, owner: nat -> OwnerReply, k: nat)
    requires |copied| == |shown|
  {
    && k < |shown| && KvOutcome(shown[k], copied[k], id, owner).Some?
    && forall i :: 0 <= i < k ==> KvOutcome(shown[i], copied[i], id, owner).None?
  }

  // ---- the endpoint as one thread on one client -------------------------------

  /** The step system with one client, one thread and these shared words. */
  function Solo(next: nat, inFlight: nat, inbox: seq<Bytes>, pc: C.Pc): C.State {
    C.State(next, [0], [pc], [inFlight], [inbox], [], [], {})
  }

  /** Take a frame and judge it, `n` times. */
  function Turns(s: C.State, n: nat): C.State
    requires C.WellFormed(s)
    ensures C.WellFormed(Turns(s, n))
  {
    if n == 0 then s else C.Step(C.Step(Turns(s, n - 1), C.Receive(0)), C.Finish(0))
  }

  /** Judging a frame that is there completes or ends a polled operation, and completes or keeps a synchronous one. */
  lemma TurnIs(next: nat, id: nat, inbox: seq<Bytes>, kind: C.Kind)
    requires inbox != [] && (kind.Polled? || kind.Sync?)
    ensures var s := Solo(next, id, inbox, C.Waiting(kind, id));
      var t := C.Step(C.Step(s, C.Receive(0)), C.Finish(0));
      if C.Accepts(kind, id, inbox[0]) then
        t == Solo(next, 0, inbox[1..], C.Idle).(completed := [C.Completion(kind, id, inbox[0])])
      else if kind.Sync? then t == Solo(next, id, inbox[1..], C.Waiting(kind, id))
      else t == Solo(next, 0, inbox[1..], C.Idle)
  {
    hide C.Accepts;
    var s := Solo(next, id, inbox, C.Waiting(kind, id));
    var held := C.Step(s, C.Receive(0));
    assert held == Solo(next, id, inbox[1..], C.Holding(kind, id, inbox[0]));
  }

  lemma OneTurn(s: C.State)
    requires C.WellFormed(s)
    ensures Turns(s, 1) == C.Step(C.Step(s, C.Receive(0)), C.Finish(0))
  {
    assert Turns(s, 0) == s;
  }

  lemma NothingToTake(next: nat, id: nat, kind: C.Kind)
    ensures var s := Solo(next, id, [], C.Waiting(kind, id)); C.Step(C.Step(s, C.Receive(0)), C.Finish(0)) == s
  {
  }

  lemma AbandonIs(next: nat, id: nat, inbox: seq<Bytes>, kind: C.Kind)
    requires kind.Polled?
    ensures C.Step(Solo(next, id, inbox, C.Waiting(kind, id)), C.Abandon(0))
      == Solo(next, 0, inbox, C.Idle).(abandoned := {id})
  {
  }

  /** Taking an id and reserving an idle client, or finding it busy. */
  lemma ReserveIs(next: nat, inFlight: nat, inbox: seq<Bytes>, kind: C.Kind)
    requires 1 <= next && next + 1 < U64
    ensures var s := Solo(next, inFlight, inbox, C.Idle);
      var t := C.Step(C.Step(s, C.Fetch(0, kind)), C.Reserve(0));
      t == (if inFlight == 0 then Solo(next + 1, next, inbox, C.Pc.Reserved(kind, next))
            else Solo(next + 1, inFlight, inbox, C.Idle)).(issued := [next])
  {
    var s := Solo(next, inFlight, inbox, C.Idle);
    assert C.Step(s, C.Fetch(0, kind)) == Solo(next + 1, inFlight, inbox, C.Fetched(kind, next)).(issued := [next]);
  }

  /** A counter at its end gives no id and stays. */
  lemma FetchRefusedIs(next: nat, inFlight: nat, inbox: seq<Bytes>, kind: C.Kind)
    requires next + 1 >= U64
    ensures var s := Solo(next, inFlight, inbox, C.Idle); C.Step(s, C.Fetch(0, kind)) == s
  {
  }

  /** Publishing keeps the client, a refused send frees it. */
  lemma SendIs(next: nat, id: nat, inbox: seq<Bytes>, kind: C.Kind)
    requires kind.Polled? && id != 0
    ensures var s := Solo(next, id, inbox, C.Pc.Reserved(kind, id)).(issued := [id]);
      && (kind.nodeId != 0 && kind.generation != 0 ==>
            C.Step(s, C.Publish(0)) == Solo(next, id, inbox, C.Waiting(kind, id)).(issued := [id]))
      && C.Step(s, C.SendRefused(0)) == Solo(next, 0, inbox, C.Idle).(issued := [id])
  {
  }

  /** What a submission comes to. */
  function SubmitOutcome(next: nat, inFlight: nat, maximum: nat, kind: C.Kind, payload: Bytes,
    ringAccepts: bool): Submitted
    requires kind.Polled?
  {
    if !ExecutionAllows(kind.rpcMethod) then Refused(MethodDenied)
    else if !FramedPayloadLenValid(|payload|, REQ_SIZE, maximum) then Refused(InvalidRequest)
    else if next + 1 >= U64 || next == 0 then Refused(IdExhausted)
    else if inFlight != 0 then Refused(QueueBusy)
    else if kind.nodeId == 0 || kind.generation == 0 || |payload| > MAX_PAYLOAD then Refused(InvalidRequest)
    else if !ringAccepts then Refused(QueueFull)
    else Pending(C.IdentityOf(kind, next))
  }

  /** Exactly when a submission goes out: five methods, a payload that fits, a free id, an idle client and room. */
  lemma SubmitExactly(next: nat, inFlight: nat, maximum: nat, kind: C.Kind, payload: Bytes, ringAccepts: bool)
    requires kind.Polled?
    ensures var r := SubmitOutcome(next, inFlight, maximum, kind, payload, ringAccepts);
      var allowed := kind.rpcMethod in {NetTcpConnect, NetSend, NetRecv, NetClose, WorkerStorage};
      var fits := 38 + |payload| <= maximum && 38 + |payload| <= 4194300;
      var counted := 1 <= next < 0xFFFF_FFFF_FFFF_FFFF;
      var whole := kind.nodeId != 0 && kind.generation != 0 && |payload| <= 1048576;
      && (r.Pending? <==> allowed && fits && counted && inFlight == 0 && whole && ringAccepts)
      && (r.Pending? ==> r.identity == Identity(Execution, kind.nodeId, kind.generation, next, kind.rpcMethod))
      && (r == Refused(MethodDenied) <==> !allowed)
      && (r == Refused(InvalidRequest) <==> allowed && (!fits || (counted && inFlight == 0 && !whole)))
      && (r == Refused(IdExhausted) <==> allowed && fits && !counted)
      && (r == Refused(QueueBusy) <==> allowed && fits && counted && inFlight != 0)
      && (r == Refused(QueueFull) <==> allowed && fits && counted && inFlight == 0 && whole && !ringAccepts)
  {
  }

  class Endpoint {
    const ids: IdCounter
    const requestMaximum: nat
    var inFlight: nat
    var inbox: seq<Bytes>
    var outbox: seq<Bytes>

    constructor (ids: IdCounter, requestMaximum: nat)
      ensures this.ids == ids && this.requestMaximum == requestMaximum
      ensures inFlight == 0 && inbox == [] && outbox == []
    {
      this.ids := ids;
      this.requestMaximum := requestMaximum;
      inFlight, inbox, outbox := 0, [], [];
    }

    /** An id is consumed even when the client is busy; a busy client is left as it was. */
    method TryReserveRequest() returns (r: Reserve)
      modifies this`inFlight, ids
      ensures match r
        case Ready(id) => id == old(ids.next) != 0 && old(inFlight) == 0 && inFlight == id
        case Busy => old(inFlight) != 0 && inFlight == old(inFlight) && ids.next == old(ids.next) + 1
        case Exhausted => inFlight == old(inFlight)
      ensures r.Exhausted? <==> old(ids.next) + 1 >= U64 || old(ids.next) == 0
      ensures ids.next == if old(ids.next) + 1 < U64 then old(ids.next) + 1 else old(ids.next)
    {
      var id := ids.NextReqId();
      if id == None { return Exhausted; }
      if inFlight == 0 {
        inFlight := id.value;
        return Ready(id.value);
      }
      return Busy;
    }

    method ReleaseRequest(id: nat)
      modifies this`inFlight
      ensures inFlight == if old(inFlight) == id then 0 else old(inFlight)
    {
      if inFlight == id { inFlight := 0; }
    }

    /** The shared words are those of a state of the step system. */
    ghost predicate Shows(s: C.State)
      reads this, ids
    {
      s.nextId == ids.next && s.inFlight == [inFlight] && s.inbox == [inbox]
    }

    /**
     Submission publishes at most one frame. On success the client is reserved under the
     fresh id carried by that frame; on any refusal nothing is published and the client is
     reserved by whoever held it before. The method and the length are checked before an id
     is spent; from there on it is the steps fetch, reserve, and publish or give back. An
     exhausted counter is the fetch that refuses.
     */
    method TryExecutionRequest(nodeId: nat, generation: nat, m: RpcMethod, payload: Bytes, ringAccepts: bool)
      returns (r: Submitted)
      modifies this, ids
      ensures inbox == old(inbox)
      ensures r == SubmitOutcome(old(ids.next), old(inFlight), requestMaximum, C.Polled(nodeId, generation, m),
        payload, ringAccepts)
      ensures match r
        case Pending(identity) =>
          && IdentityValid(identity) && inFlight == identity.operationId
          && EncodeHonestRequest(identity, payload).Ok?
          && outbox == old(outbox) + [EncodeHonestRequest(identity, payload).value]
        case Refused(_) => outbox == old(outbox) && inFlight == old(inFlight)
      ensures var kind := C.Polled(nodeId, generation, m);
        var s := Solo(old(ids.next), old(inFlight), old(inbox), C.Idle);
        && (r.Pending? ==> Shows(C.Step(C.Step(C.Step(s, C.Fetch(0, kind)), C.Reserve(0)), C.Publish(0))))
        && (r == Refused(QueueFull) || (r == Refused(InvalidRequest) && ids.next != old(ids.next)) ==>
              Shows(C.Step(C.Step(C.Step(s, C.Fetch(0, kind)), C.Reserve(0)), C.SendRefused(0))))
        && (r == Refused(QueueBusy) ==> Shows(C.Step(C.Step(s, C.Fetch(0, kind)), C.Reserve(0))))
        && (r == Refused(IdExhausted) && old(ids.next) != 0 ==> Shows(C.Step(s, C.Fetch(0, kind))))
        && (r == Refused(MethodDenied) || (r == Refused(InvalidRequest) && ids.next == old(ids.next)) ==> Shows(s))
    {
      hide C.Step;
      ghost var kind := C.Polled(nodeId, generation, m);
      if !ExecutionAllows(m) { return Refused(MethodDenied); }
      if !FramedPayloadLenValid(|payload|, REQ_SIZE, requestMaximum) { return Refused(InvalidRequest); }
      if 1 <= ids.next && ids.next + 1 < U64 { ReserveIs(ids.next, inFlight, inbox, kind); }
      if ids.next + 1 >= U64 { FetchRefusedIs(ids.next, inFlight, inbox, kind); }
      var reserved := TryReserveRequest();
      match reserved {
        case Busy => return Refused(QueueBusy);
        case Exhausted => return Refused(IdExhausted);
        case Ready(id) =>
          var identity := Identity(Execution, nodeId, generation, id, m);
          var message := EncodeHonestRequest(identity, payload);
          SendIs(ids.next, id, inbox, kind);
          if message.Err? {
            ReleaseRequest(id);
            return Refused(InvalidRequest);
          }
          if !ringAccepts {
            ReleaseRequest(id);
            return Refused(QueueFull);
          }
          outbox := outbox + [message.value];
          return Pending(identity);
      }
    }

    /**
     One poll takes at most one frame. It returns an answer exactly when that frame is the
     encoded answer of the pending identity; any other frame ends the operation.
     */
    method PollExecutionRpc(pending: Identity) returns (r: Polled)
      requires IdentityFits(pending)
      modifies this`inFlight, this`inbox
      ensures old(inFlight) != pending.operationId ==>
        r == Failed(NotPending) && inFlight == old(inFlight) && inbox == old(inbox)
      ensures old(inFlight) == pending.operationId && old(inbox) == [] ==>
        r == NotReady && inFlight == old(inFlight) && inbox == []
      ensures old(inFlight) == pending.operationId && old(inbox) != [] ==>
        && inbox == old(inbox)[1..] && inFlight == 0 && (r.Done? || r.Failed?)
        && forall status, payload :: r == Done(status, payload)
             <==> EncodeHonestResponse(pending, status, payload) == Ok(old(inbox)[0])
      ensures old(inFlight) == pending.operationId && old(inbox) != [] && r.Failed? ==>
        r.error == if AnotherAnswer(old(inbox)[0], pending) then UnexpectedResponse else MalformedResponse
      ensures pending.role.Execution? && old(inFlight) == pending.operationId ==>
        var kind := C.Polled(pending.nodeId, pending.generation, pending.rpcMethod);
        var t := Turns(Solo(ids.next, old(inFlight), old(inbox), C.Waiting(kind, pending.operationId)), 1);
        Shows(t) && (r.Done? <==> t.completed != [])
    {
      hide C.Step;
      ghost var kind := C.Polled(pending.nodeId, pending.generation, pending.rpcMethod);
      OneTurn(Solo(ids.next, inFlight, inbox, C.Waiting(kind, pending.operationId)));
      if inbox != [] {
        TurnIs(ids.next, pending.operationId, inbox, kind);
      } else {
        NothingToTake(ids.next, pending.operationId, kind);
      }
      if inFlight != pending.operationId { return Failed(NotPending); }
      if inbox == [] { return NotReady; }
      var raw := inbox[0];
      inbox := inbox[1..];
      ReleaseRequest(pending.operationId);
      var response := DecodeHonestResponseFor(raw, pending);
      UnexpectedExactly(raw, pending);
      forall status, payload
        ensures response == Ok(Response(pending, status, payload)) <==>
          EncodeHonestResponse(pending, status, payload) == Ok(raw)
      {
        AcceptedExactly(raw, pending, status, payload);
      }
      match response {
        case Ok(answer) => return Done(answer.status, answer.payload);
        case Err(error) =>
          return Failed(if error.UnexpectedIdentity? then UnexpectedResponse else MalformedResponse);
      }
    }

    method AbandonExecutionRpc(pending: Identity) returns (ok: bool)
      modifies this`inFlight
      ensures ok == (old(inFlight) == pending.operationId)
      ensures inFlight == if ok then 0 else old(inFlight)
      ensures ok && pending.role.Execution? ==>
        var kind := C.Polled(pending.nodeId, pending.generation, pending.rpcMethod);
        Shows(C.Step(Solo(ids.next, old(inFlight), inbox, C.Waiting(kind, pending.operationId)), C.Abandon(0)))
    {
      AbandonIs(ids.next, pending.operationId, inbox, C.Polled(pending.nodeId, pending.generation, pending.rpcMethod));
      if inFlight == pending.operationId {
        inFlight := 0;
        return true;
      }
      return false;
    }

    /**
     The receiving half of a synchronous call: frames are discarded up to and including the
     first answer to the request, which is returned and frees the client. With no answer on
     the ring the call is still waiting, having discarded everything.
     */
    method AwaitAnswer(id: nat) returns (r: Option<(Status, Bytes)>)
      requires inFlight == id
      modifies this`inFlight, this`inbox
      ensures r.Some? ==> exists k: nat ::
        && FirstAnswer(old(inbox), id, k) && inbox == old(inbox)[k + 1..] && inFlight == 0
        && r.value == (DecodeResponse(old(inbox)[k]).value.1, DecodeResponse(old(inbox)[k]).value.2)
      ensures r.None? ==>
        inbox == [] && inFlight == id && forall i :: 0 <= i < |old(inbox)| ==> !Answers(old(inbox)[i], id)
      ensures var s := Solo(ids.next, id, old(inbox), C.Waiting(C.Sync, id));
        Shows(Turns(s, |old(inbox)| - |inbox|)) && (r.Some? <==> Turns(s, |old(inbox)| - |inbox|).completed != [])
    {
      hide C.Step;
      ghost var k := 0;
      ghost var s := Solo(ids.next, id, inbox, C.Waiting(C.Sync, id));
      while inbox != []
        invariant k <= |old(inbox)| && inbox == old(inbox)[k..] && inFlight == id
        invariant forall i :: 0 <= i < k ==> !Answers(old(inbox)[i], id)
        invariant Turns(s, k) == Solo(ids.next, id, inbox, C.Waiting(C.Sync, id))
        decreases |inbox|
      {
        TurnIs(ids.next, id, inbox, C.Sync);
        var raw := inbox[0];
        inbox := inbox[1..];
        if Answers(raw, id) {
          ReleaseRequest(id);
          assert FirstAnswer(old(inbox), id, k);
          assert Turns(s, k + 1) == C.Step(C.Step(Turns(s, k), C.Receive(0)), C.Finish(0));
          return Some((DecodeResponse(raw).value.1, DecodeResponse(raw).value.2));
        }
        k := k + 1;
      }
      return None;
    }

    /**
     The receiving half of a key-value get into caller-owned storage. `copied` is what each
     frame holds when it is copied, in the length it had when its header was read and
     whatever the host made of its bytes since.
     The first frame that decides is consumed and nothing behind it.
     */
    method ReceiveKvInto(id: nat, owner: nat -> OwnerReply, copied: seq<Bytes>) returns (r: Option<KvReply>)
      requires |copied| == |inbox| && forall i :: 0 <= i < |inbox| ==> |copied[i]| == |inbox[i]|
      modifies this`inbox
      ensures r.Some? ==> exists k: nat ::
        && FirstOutcome(old(inbox), copied, id, owner, k) && inbox == old(inbox)[k + 1..]
        && r == KvOutcome(old(inbox)[k], copied[k], id, owner)
      ensures r.None? ==>
        inbox == [] && forall i :: 0 <= i < |old(inbox)| ==> KvOutcome(old(inbox)[i], copied[i], id, owner).None?
    {
      hide DecodeResponse;
      var k := 0;
      while inbox != []
        invariant 0 <= k <= |old(inbox)| && inbox == old(inbox)[k..]
        invariant forall i :: 0 <= i < k ==> KvOutcome(old(inbox)[i], copied[i], id, owner).None?
        decreases |inbox|
      {
        var shown := inbox[0];
        inbox := inbox[1..];
        r := JudgeFrame(shown, copied[k], id, owner);
        if r.Some? {
          assert FirstOutcome(old(inbox), copied, id, owner, k);
          return;
        }
        k := k + 1;
      }
      return None;
    }
  }

  /** One turn of the exact-size receive: the header, the owner, the copy, and the copied header again. */
  method JudgeFrame(shown: Bytes, copied: Bytes, id: nat, owner: nat -> OwnerReply) returns (r: Option<KvReply>)
    ensures r == KvOutcome(shown, copied, id, owner)
  {
    hide DecodeResponse;
    if !Answers(shown, id) { return None; }
    var status := DecodeResponse(shown).value.1;
    if status != 0 { return Some(if status == 1 then Absent else Error(status)); }
    match owner(|shown|) {
      case OwnerRefuses(code) => return Some(Error(code));
      case Backing(size) => if size < |shown| { return Some(Error(-22)); }
    }
    if !Answers(copied, id) { return None; }
    var (_, again, payload) := DecodeResponse(copied).value;
    if again == 0 { return Some(Value(payload)); }
    return Some(if again == 1 then Absent else Error(again));
  }
}
