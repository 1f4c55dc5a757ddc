/**
 The enclave's RPC clients as a step system. Any number of threads share any number
 of clients; every atomic operation on the id counter, on a client's in-flight word
 and on its response ring is one step, and the host may put any bytes on a response
 ring at any time.
 */
module RpcClient {
  import opened Prelude
  import opened RpcFrame
  import opened HonestFrame

  // ---- one operation -------------------------------------------------------

  /** How an operation was submitted, and so how its answer is matched. */
  datatype Kind =
    | Polled(nodeId: nat, generation: nat, rpcMethod: RpcMethod)
    | Sync
    | Durable

  function IdentityOf(kind: Kind, id: nat): Identity
    requires kind.Polled?
  {
    Identity(Execution, kind.nodeId, kind.generation, id, kind.rpcMethod)
  }

  /** An acknowledgement of a durable write: exact frame length, no payload, status zero. */
  predicate DurableAccepts(frame: Bytes, id: nat) {
    var d := DecodeResponse(frame);
    d.Some? && d.value.0 == id && id != 0 && |frame| == RESP_HEADER_SIZE && d.value.2 == [] && d.value.1 == 0
  }

  /** Exactly one frame acknowledges a durable write: the empty success answer to its id. */
  lemma DurableExactly(frame: Bytes, id: nat)
    requires id < U64
    ensures DurableAccepts(frame, id) <==> id != 0 && frame == LE(id, 8) + [0, 0, 0, 0] + [0, 0, 0, 0]
  {
    assert LE(0, 4) == [0, 0, 0, 0];
    hide LE, FromLE;
    ResponseExact(id, 0, [], frame);
    assert EncodeResponse(id, 0, []) == LE(id, 8) + [0, 0, 0, 0] + [0, 0, 0, 0] + [];
  }

  /** Whether a received frame completes the operation. */
  predicate Accepts(kind: Kind, id: nat, frame: Bytes) {
    match kind
    case Polled(_, _, _) => DecodeHonestResponseFor(frame, IdentityOf(kind, id)).Ok?
    case Sync => DecodeResponse(frame).Some? && DecodeResponse(frame).value.0 == id
    case Durable => DurableAccepts(frame, id)
  }

  // ---- the step system -----------------------------------------------------

  datatype Pc =
    | Idle
    | Fetched(kind: Kind, id: nat)
    | Reserved(kind: Kind, id: nat)
    | Waiting(kind: Kind, id: nat)
    | Holding(kind: Kind, id: nat, frame: Bytes)

  predicate Owns(pc: Pc) {
    pc.Reserved? || pc.Waiting? || pc.Holding?
  }

  datatype Completion = Completion(kind: Kind, id: nat, frame: Bytes)

  datatype State = State(
    nextId: nat,                  // the process-wide id counter
    clientOf: seq<nat>,           // which client each thread calls
    threads: seq<Pc>,
    inFlight: seq<nat>,           // one word per client, zero when idle
    inbox: seq<seq<Bytes>>,       // one response ring per client
    issued: seq<nat>,             // every id handed out so far
    completed: seq<Completion>,   // every answer returned to a caller
    abandoned: set<nat>)          // ids of abandoned polled operations

  predicate WellFormed(s: State) {
    && |s.clientOf| == |s.threads| && |s.inFlight| == |s.inbox|
    && forall t :: 0 <= t < |s.clientOf| ==> s.clientOf[t] < |s.inFlight|
  }

  datatype Event =
    | Fetch(t: nat, kind: Kind)       // take the next id
    | Reserve(t: nat)                 // compare-exchange 0 -> id, or give up as busy
    | SendRefused(t: nat)             // encoding or ring refusal: release
    | Publish(t: nat)                 // the request is on the ring
    | Receive(t: nat)                 // take one frame off the response ring
    | Finish(t: nat)                  // match the frame; release unless a call keeps waiting
    | Abandon(t: nat)                 // drop a pending polled operation
    | GiveUp(t: nat)                  // a synchronous exchange fails after publication
    | Host(c: nat, frame: Bytes)      // the host writes anything

  function NextReqId(next: nat): Option<nat> {
    if next + 1 < U64 && next != 0 then Some(next) else None
  }

  function SetPc(s: State, t: nat, pc: Pc): State
    requires t < |s.threads|
  {
    s.(threads := s.threads[t := pc])
  }

  /** The thread takes the next id, unless the counter is exhausted. */
  function TakeId(s: State, t: nat, kind: Kind): State
    requires t < |s.threads|
  {
    if NextReqId(s.nextId).None? then s
    else SetPc(s, t, Fetched(kind, s.nextId)).(nextId := s.nextId + 1, issued := s.issued + [s.nextId])
  }

  /** Compare-exchange of the client's in-flight word from zero to the thread's id. */
  function TryReserve(s: State, t: nat): State
    requires WellFormed(s) && t < |s.threads| && s.threads[t].Fetched?
  {
    var pc, c := s.threads[t], s.clientOf[t];
    if s.inFlight[c] == 0 then SetPc(s, t, Reserved(pc.kind, pc.id)).(inFlight := s.inFlight[c := pc.id])
    else SetPc(s, t, Idle)
  }

  /** Compare-exchange of the in-flight word from the thread's id back to zero; the operation ends. */
  function Leave(s: State, t: nat): State
    requires WellFormed(s) && t < |s.threads| && Owns(s.threads[t])
  {
    var c := s.clientOf[t];
    SetPc(s, t, Idle).(inFlight := if s.inFlight[c] == s.threads[t].id then s.inFlight[c := 0] else s.inFlight)
  }

  /** Take the first frame off the client's response ring. */
  function TakeFrame(s: State, t: nat): State
    requires WellFormed(s) && t < |s.threads| && s.threads[t].Waiting? && s.inbox[s.clientOf[t]] != []
  {
    var pc, c := s.threads[t], s.clientOf[t];
    SetPc(s, t, Holding(pc.kind, pc.id, s.inbox[c][0])).(inbox := s.inbox[c := s.inbox[c][1..]])
  }

  /** A call that was not answered keeps waiting; every other operation ends with its first frame. */
  function FinishWith(s: State, t: nat, accepted: bool): State
    requires WellFormed(s) && t < |s.threads| && s.threads[t].Holding?
  {
    var pc := s.threads[t];
    if accepted then Leave(s, t).(completed := s.completed + [Completion(pc.kind, pc.id, pc.frame)])
    else if pc.kind.Sync? then SetPc(s, t, Waiting(pc.kind, pc.id))
    else Leave(s, t)
  }

  function Step(s: State, e: Event): (r: State)
    requires WellFormed(s)
    ensures WellFormed(r)
  {
    if e.Host? then
      if e.c < |s.inbox| then s.(inbox := s.inbox[e.c := s.inbox[e.c] + [e.frame]]) else s
    else if e.t >= |s.threads| then s
    else
      var pc, c := s.threads[e.t], s.clientOf[e.t];
      match e
      case Fetch(t, kind) => if pc.Idle? then TakeId(s, t, kind) else s
      case Reserve(t) => if pc.Fetched? then TryReserve(s, t) else s
      case SendRefused(t) => if pc.Reserved? then Leave(s, t) else s
      case Publish(t) =>
        if pc.Reserved? && (pc.kind.Polled? ==> IdentityValid(IdentityOf(pc.kind, pc.id)))
        then SetPc(s, t, Waiting(pc.kind, pc.id)) else s
      case Receive(t) =>
        if pc.Waiting? && s.inFlight[c] == pc.id && s.inbox[c] != [] then TakeFrame(s, t) else s
      case Finish(t) => if pc.Holding? then FinishWith(s, t, Accepts(pc.kind, pc.id, pc.frame)) else s
      case Abandon(t) =>
        if pc.Waiting? && pc.kind.Polled? then Leave(s, t).(abandoned := s.abandoned + {pc.id}) else s
      case GiveUp(t) => if pc.Waiting? && pc.kind.Sync? then Leave(s, t) else s
  }

  predicate Initial(s: State) {
    && WellFormed(s) && s.nextId == 1 && s.issued == [] && s.completed == [] && s.abandoned == {}
    && (forall t :: 0 <= t < |s.threads| ==> s.threads[t].Idle?)
    && (forall c :: 0 <= c < |s.inFlight| ==> s.inFlight[c] == 0)
  }

  /** The state after a whole run. */
  function Run(s: State, events: seq<Event>): (r: State)
    requires WellFormed(s)
    ensures WellFormed(r)
  {
    if events == [] then s else Step(Run(s, events[..|events| - 1]), events[|events| - 1])
  }

  // ---- what every step keeps -----------------------------------------------

  /** Ids come from the counter, and no two threads carry the same one. */
  ghost predicate IdsDistinct(s: State) {
    && 1 <= s.nextId < U64
    && (forall t :: 0 <= t < |s.threads| && !s.threads[t].Idle? ==> 1 <= s.threads[t].id < s.nextId)
    && (forall t, u :: 0 <= t < u < |s.threads| && !s.threads[t].Idle? && !s.threads[u].Idle? ==>
          s.threads[t].id != s.threads[u].id)
  }

  /** The in-flight word of a client is the id of the thread that owns the client. */
  ghost predicate OwnersMatch(s: State)
    requires WellFormed(s)
  {
    && (forall t :: 0 <= t < |s.threads| && Owns(s.threads[t]) ==> s.inFlight[s.clientOf[t]] == s.threads[t].id)
    && (forall c :: 0 <= c < |s.inFlight| && s.inFlight[c] != 0 ==>
          exists t :: 0 <= t < |s.threads| && s.clientOf[t] == c && Owns(s.threads[t]))
  }

  ghost predicate IssuedRise(s: State) {
    && (forall i, j :: 0 <= i < j < |s.issued| ==> s.issued[i] < s.issued[j])
    && (forall i :: 0 <= i < |s.issued| ==> 1 <= s.issued[i] < s.nextId)
  }

  /** Completed and abandoned operations are over: no thread carries them, none completes twice. */
  ghost predicate OutcomesFinal(s: State) {
    && (forall i :: 0 <= i < |s.completed| ==> Over(s, s.completed[i].id) && s.completed[i].id !in s.abandoned)
    && (forall i, j :: 0 <= i < j < |s.completed| ==> s.completed[i].id != s.completed[j].id)
    && (forall id :: id in s.abandoned ==> Over(s, id))
  }

  ghost predicate Over(s: State, id: nat) {
    && 1 <= id < s.nextId
    && forall t :: 0 <= t < |s.threads| && !s.threads[t].Idle? ==> s.threads[t].id != id
  }

  ghost predicate Inv(s: State)
    requires WellFormed(s)
  {
    IdsDistinct(s) && OwnersMatch(s) && IssuedRise(s) && OutcomesFinal(s)
  }

  /** A thread moves between owning states under the same id; nothing else moves. */
  lemma MoveKept(s: State, t: nat, pc: Pc, inbox: seq<seq<Bytes>>)
    requires WellFormed(s) && Inv(s) && t < |s.threads|
    requires Owns(s.threads[t]) && Owns(pc) && pc.id == s.threads[t].id && |inbox| == |s.inbox|
    ensures Inv(SetPc(s, t, pc).(inbox := inbox))
  {
    var r := SetPc(s, t, pc).(inbox := inbox);
    forall c | 0 <= c < |r.inFlight| && r.inFlight[c] != 0
      ensures exists u :: 0 <= u < |r.threads| && r.clientOf[u] == c && Owns(r.threads[u])
    {
      var u :| 0 <= u < |s.threads| && s.clientOf[u] == c && Owns(s.threads[u]);
      assert Owns(r.threads[u]);
    }
    OutcomesStay(s, r);
  }

  /** Outcomes stay final as long as threads only drop ids or take new ones. */
  lemma OutcomesStay(s: State, r: State)
    requires OutcomesFinal(s) && |r.threads| == |s.threads|
    requires r.completed == s.completed && r.abandoned == s.abandoned && s.nextId <= r.nextId
    requires forall t :: 0 <= t < |r.threads| && !r.threads[t].Idle? ==>
      (!s.threads[t].Idle? && r.threads[t].id == s.threads[t].id) || r.threads[t].id >= s.nextId
    ensures OutcomesFinal(r)
  {
    forall id | Over(s, id) ensures Over(r, id) {}
  }

  lemma TakeIdKept(s: State, t: nat, kind: Kind)
    requires WellFormed(s) && Inv(s) && t < |s.threads| && s.threads[t].Idle?
    ensures Inv(TakeId(s, t, kind))
  {
    var r := TakeId(s, t, kind);
    forall c | 0 <= c < |r.inFlight| && r.inFlight[c] != 0
      ensures exists u :: 0 <= u < |r.threads| && r.clientOf[u] == c && Owns(r.threads[u])
    {
      var u :| 0 <= u < |s.threads| && s.clientOf[u] == c && Owns(s.threads[u]);
      assert Owns(r.threads[u]);
    }
    OutcomesStay(s, r);
  }

  lemma TryReserveKept(s: State, t: nat)
    requires WellFormed(s) && Inv(s) && t < |s.threads| && s.threads[t].Fetched?
    ensures Inv(TryReserve(s, t))
  {
    var r := TryReserve(s, t);
    forall c | 0 <= c < |r.inFlight| && r.inFlight[c] != 0
      ensures exists u :: 0 <= u < |r.threads| && r.clientOf[u] == c && Owns(r.threads[u])
    {
      if s.inFlight[c] != 0 {
        var u :| 0 <= u < |s.threads| && s.clientOf[u] == c && Owns(s.threads[u]);
        assert Owns(r.threads[u]);
      } else {
        assert Owns(r.threads[t]);
      }
    }
    OutcomesStay(s, r);
  }

  /** Only the owner of a client can release it, and releasing it frees it. */
  lemma LeaveKept(s: State, t: nat)
    requires WellFormed(s) && Inv(s) && t < |s.threads| && Owns(s.threads[t])
    ensures WellFormed(Leave(s, t)) && Inv(Leave(s, t)) && Over(Leave(s, t), s.threads[t].id)
    ensures Leave(s, t).inFlight[s.clientOf[t]] == 0
  {
    var r := Leave(s, t);
    forall c | 0 <= c < |r.inFlight| && r.inFlight[c] != 0
      ensures exists u :: 0 <= u < |r.threads| && r.clientOf[u] == c && Owns(r.threads[u])
    {
      var u :| 0 <= u < |s.threads| && s.clientOf[u] == c && Owns(s.threads[u]);
      assert Owns(r.threads[u]);
    }
    OutcomesStay(s, r);
  }

  lemma FinishKept(s: State, t: nat, accepted: bool)
    requires WellFormed(s) && Inv(s) && t < |s.threads| && s.threads[t].Holding?
    ensures Inv(FinishWith(s, t, accepted))
  {
    var pc := s.threads[t];
    LeaveKept(s, t);
    MoveKept(s, t, Waiting(pc.kind, pc.id), s.inbox);
    if accepted {
      CompletedKept(Leave(s, t), Completion(pc.kind, pc.id, pc.frame));
    }
  }

  /** Recording the outcome of an operation that is over, once. */
  lemma CompletedKept(s: State, x: Completion)
    requires WellFormed(s) && Inv(s) && Over(s, x.id) && x.id !in s.abandoned
    requires forall i :: 0 <= i < |s.completed| ==> s.completed[i].id != x.id
    ensures Inv(s.(completed := s.completed + [x]))
  {
    var r := s.(completed := s.completed + [x]);
    forall k | Over(s, k) ensures Over(r, k) {}
  }

  lemma AbandonKept(s: State, t: nat)
    requires WellFormed(s) && Inv(s) && t < |s.threads| && s.threads[t].Waiting?
    ensures Inv(Leave(s, t).(abandoned := s.abandoned + {s.threads[t].id}))
  {
    LeaveKept(s, t);
    var r := Leave(s, t).(abandoned := s.abandoned + {s.threads[t].id});
    forall k | Over(Leave(s, t), k) ensures Over(r, k) {}
  }

  lemma HostKept(s: State, inbox: seq<seq<Bytes>>)
    requires WellFormed(s) && Inv(s) && |inbox| == |s.inbox|
    ensures Inv(s.(inbox := inbox))
  {
    OutcomesStay(s, s.(inbox := inbox));
  }

  lemma StepKeepsInv(s: State, e: Event)
    requires WellFormed(s) && Inv(s)
    ensures Inv(Step(s, e))
  {
    if e.Host? {
      if e.c < |s.inbox| { HostKept(s, s.inbox[e.c := s.inbox[e.c] + [e.frame]]); }
    } else if e.t < |s.threads| {
      var pc, t, c := s.threads[e.t], e.t, s.clientOf[e.t];
      match e
      case Fetch(_, kind) => if pc.Idle? { TakeIdKept(s, t, kind); }
      case Reserve(_) => if pc.Fetched? { TryReserveKept(s, t); }
      case SendRefused(_) => if pc.Reserved? { LeaveKept(s, t); }
      case Publish(_) => if pc.Reserved? { MoveKept(s, t, Waiting(pc.kind, pc.id), s.inbox); }
      case Receive(_) =>
        if pc.Waiting? && s.inbox[c] != [] {
          MoveKept(s, t, Holding(pc.kind, pc.id, s.inbox[c][0]), s.inbox[c := s.inbox[c][1..]]);
        }
      case Finish(_) => if pc.Holding? { FinishKept(s, t, Accepts(pc.kind, pc.id, pc.frame)); }
      case Abandon(_) => if pc.Waiting? { AbandonKept(s, t); }
      case GiveUp(_) => if pc.Waiting? { LeaveKept(s, t); }
    }
  }

  lemma {:induction false} RunKeepsInv(s: State, events: seq<Event>)
    requires Initial(s)
    ensures Inv(Run(s, events))
  {
    if events != [] {
      RunKeepsInv(s, events[..|events| - 1]);
      StepKeepsInv(Run(s, events[..|events| - 1]), events[|events| - 1]);
    }
  }

  // ---- the completions themselves ------------------------------------------

  ghost predicate CompletionsAccepted(s: State) {
    forall i :: 0 <= i < |s.completed| ==> Accepts(s.completed[i].kind, s.completed[i].id, s.completed[i].frame)
  }

  lemma {:induction false} RunAccepts(s: State, events: seq<Event>)
    requires Initial(s)
    ensures CompletionsAccepted(Run(s, events))
  {
    if events != [] {
      RunAccepts(s, events[..|events| - 1]);
    }
  }

  // ---- over every run ------------------------------------------------------

  /** At most one operation is in flight per client, and an in-flight word is never stranded. */
  lemma OneInFlight(s: State, events: seq<Event>)
    requires Initial(s)
    ensures var r := Run(s, events);
      && (forall t, u | 0 <= t < |r.threads| && 0 <= u < |r.threads| && r.clientOf[t] == r.clientOf[u] ::
            Owns(r.threads[t]) && Owns(r.threads[u]) ==> t == u)
      && (forall c :: 0 <= c < |r.inFlight| && r.inFlight[c] != 0 ==>
            exists t :: 0 <= t < |r.threads| && r.clientOf[t] == c && Owns(r.threads[t]) &&
              r.threads[t].id == r.inFlight[c])
  {
    RunKeepsInv(s, events);
  }

  /** Ids are never zero and never repeat, however many operations are abandoned or refused. */
  lemma IdsNeverRepeat(s: State, events: seq<Event>)
    requires Initial(s)
    ensures var r := Run(s, events);
      && (forall i, j :: 0 <= i < j < |r.issued| ==> r.issued[i] < r.issued[j])
      && (forall i :: 0 <= i < |r.issued| ==> 1 <= r.issued[i] < U64 - 1)
  {
    RunKeepsInv(s, events);
  }

  /** No operation completes twice, and an abandoned one never completes. */
  lemma OneOutcome(s: State, events: seq<Event>)
    requires Initial(s)
    ensures var r := Run(s, events);
      && (forall i, j :: 0 <= i < j < |r.completed| ==> r.completed[i].id != r.completed[j].id)
      && (forall i :: 0 <= i < |r.completed| ==> r.completed[i].id !in r.abandoned)
  {
    RunKeepsInv(s, events);
  }

  /** The plain decoder takes a role-owned answer of this identity as the answer to this request id. */
  predicate Collides(id: nat, other: Identity, payload: Bytes) {
    id == PrefixId(other.role) && other.nodeId / U32 <= 26 + |payload|
  }

  /** Exactly which operations the encoded answer of `other` completes. */
  predicate Takes(kind: Kind, id: nat, other: Identity, payload: Bytes) {
    match kind
    case Polled(_, _, _) => other == IdentityOf(kind, id)
    case Sync => Collides(id, other, payload)
    case Durable => false
  }

  lemma AcceptsExactly(kind: Kind, id: nat, other: Identity, status: Status, payload: Bytes)
    requires IdentityValid(other) && IdentityFits(other) && |payload| <= MAX_PAYLOAD
    ensures Accepts(kind, id, ResponseBytes(other, status, payload)) <==> Takes(kind, id, other, payload)
  {
    hide DecodeResponse, DecodeHonestResponse;
    match kind
    case Polled(_, _, _) => ResponseComplete(other, status, payload);
    case Sync => LegacyReadsPrefix(other, status, payload);
    case Durable =>
  }

  /** Whatever the host sends, an encoded answer has completed only operations that take it. */
  lemma LateReplyRefused(s: State, events: seq<Event>, i: nat, other: Identity, status: Status, payload: Bytes)
    requires Initial(s) && i < |Run(s, events).completed|
    requires IdentityValid(other) && IdentityFits(other) && |payload| <= MAX_PAYLOAD
    requires Run(s, events).completed[i].frame == ResponseBytes(other, status, payload)
    ensures Takes(Run(s, events).completed[i].kind, Run(s, events).completed[i].id, other, payload)
  {
    hide Accepts, Takes, ResponseBytes;
    RunAccepts(s, events);
    var done := Run(s, events).completed[i];
    AcceptsExactly(done.kind, done.id, other, status, payload);
  }

  /** A late reply to an abandoned operation completes at most a synchronous call whose request id collides with it. */
  lemma AbandonedReplyNeedsCollision(s: State, events: seq<Event>, i: nat, other: Identity, status: Status,
    payload: Bytes)
    requires Initial(s) && i < |Run(s, events).completed|
    requires IdentityValid(other) && IdentityFits(other) && |payload| <= MAX_PAYLOAD
    requires other.operationId in Run(s, events).abandoned
    requires Run(s, events).completed[i].frame == ResponseBytes(other, status, payload)
    ensures var done := Run(s, events).completed[i]; done.kind.Sync? && Collides(done.id, other, payload)
  {
    RunKeepsInv(s, events);
    LateReplyRefused(s, events, i, other, status, payload);
  }

  /**
   And the condition is met with: an operation that waits on an empty ring, and is then sent
   the encoded answer of `other`, ends with that answer exactly when it takes it.
   */
  lemma LateReplyTaken(s: State, t: nat, other: Identity, status: Status, payload: Bytes)
    requires WellFormed(s) && t < |s.threads| && s.threads[t].Waiting?
    requires s.inFlight[s.clientOf[t]] == s.threads[t].id && s.inbox[s.clientOf[t]] == []
    requires IdentityValid(other) && IdentityFits(other) && |payload| <= MAX_PAYLOAD
    ensures var (kind, id, frame) := (s.threads[t].kind, s.threads[t].id, ResponseBytes(other, status, payload));
      var after := Step(Step(Step(s, Host(s.clientOf[t], frame)), Receive(t)), Finish(t));
      if Takes(kind, id, other, payload) then after.completed == s.completed + [Completion(kind, id, frame)]
      else after.completed == s.completed
  {
    hide Accepts, Takes, ResponseBytes;
    AcceptsExactly(s.threads[t].kind, s.threads[t].id, other, status, payload);
  }

  // ---- a run in which it happens --------------------------------------------

  /** One thread on one client, idle, with an empty response ring. */
  predicate Resting(s: State) {
    s.clientOf == [0] && s.threads == [Idle] && s.inFlight == [0] && s.inbox == [[]]
  }

  lemma RunMore(s: State, events: seq<Event>, e: Event)
    requires WellFormed(s)
    ensures Run(s, events + [e]) == Step(Run(s, events), e)
  {
    assert (events + [e])[..|events|] == events;
  }

  /** A submission the ring refuses spends one id and leaves the thread as it was. */
  lemma RefusedSubmission(s: State)
    requires Resting(s) && 1 <= s.nextId && s.nextId + 1 < U64
    ensures var t := Step(Step(Step(s, Fetch(0, Sync)), Reserve(0)), SendRefused(0));
      Resting(t) && t.nextId == s.nextId + 1 && t.abandoned == s.abandoned && t.completed == s.completed
  {
  }

  /** So the id counter reaches any value. */
  lemma {:induction false} Advance(s: State, events: seq<Event>, n: nat) returns (more: seq<Event>)
    requires WellFormed(s)
    requires var r := Run(s, events); Resting(r) && 1 <= r.nextId <= n < U64
    ensures var (r, t) := (Run(s, events), Run(s, more));
      Resting(t) && t.nextId == n && t.abandoned == r.abandoned && t.completed == r.completed
    decreases n
  {
    more := events;
    if Run(s, events).nextId < n {
      var front := Advance(s, events, n - 1);
      RefusedSubmission(Run(s, front));
      RunMore(s, front, Fetch(0, Sync));
      RunMore(s, front + [Fetch(0, Sync)], Reserve(0));
      RunMore(s, front + [Fetch(0, Sync)] + [Reserve(0)], SendRefused(0));
      more := front + [Fetch(0, Sync)] + [Reserve(0)] + [SendRefused(0)];
    }
  }

  function Fresh(): State {
    State(1, [0], [Idle], [0], [[]], [], [], {})
  }

  /** A polled operation is published and abandoned. */
  lemma AbandonSteps(s: State, kind: Kind)
    requires Resting(s) && s.nextId == 1 && kind.Polled? && kind.nodeId != 0 && kind.generation != 0
    ensures var t := Step(Step(Step(Step(s, Fetch(0, kind)), Reserve(0)), Publish(0)), Abandon(0));
      Resting(t) && t.nextId == 2 && t.abandoned == s.abandoned + {1} && t.completed == s.completed
  {
    var fetched := Step(s, Fetch(0, kind));
    assert fetched.threads == [Fetched(kind, 1)];
    var reserved := Step(fetched, Reserve(0));
    assert reserved.threads == [Pc.Reserved(kind, 1)] && reserved.inFlight == [1];
    var waiting := Step(reserved, Publish(0));
    assert waiting.threads == [Waiting(kind, 1)];
  }

  lemma AbandonFirst(nodeId: nat, generation: nat, m: RpcMethod) returns (events: seq<Event>)
    requires nodeId != 0 && generation != 0
    ensures var r := Run(Fresh(), events); Resting(r) && r.nextId == 2 && r.abandoned == {1} && r.completed == []
  {
    hide Step, Run;
    var (kind, s) := (Polled(nodeId, generation, m), Fresh());
    RunNothing(s);
    RunMore(s, [], Fetch(0, kind));
    RunMore(s, [] + [Fetch(0, kind)], Reserve(0));
    RunMore(s, [] + [Fetch(0, kind)] + [Reserve(0)], Publish(0));
    RunMore(s, [] + [Fetch(0, kind)] + [Reserve(0)] + [Publish(0)], Abandon(0));
    events := [] + [Fetch(0, kind)] + [Reserve(0)] + [Publish(0)] + [Abandon(0)];
    AbandonSteps(s, kind);
  }

  lemma RunNothing(s: State)
    requires WellFormed(s)
    ensures Run(s, []) == s
  {
  }

  /** A synchronous call waits under the next id. */
  lemma CallSteps(r: State)
    requires Resting(r) && 1 <= r.nextId && r.nextId + 1 < U64
    ensures var t := Step(Step(Step(r, Fetch(0, Sync)), Reserve(0)), Publish(0));
      && t.clientOf == [0] && t.threads == [Waiting(Sync, r.nextId)] && t.inFlight == [r.nextId] && t.inbox == [[]]
      && t.abandoned == r.abandoned && t.completed == r.completed
  {
    var fetched := Step(r, Fetch(0, Sync));
    assert fetched.threads == [Fetched(Sync, r.nextId)];
    var reserved := Step(fetched, Reserve(0));
    assert reserved.threads == [Pc.Reserved(Sync, r.nextId)] && reserved.inFlight == [r.nextId];
  }

  lemma CallWaits(events: seq<Event>) returns (more: seq<Event>)
    requires var r := Run(Fresh(), events); Resting(r) && 1 <= r.nextId && r.nextId + 1 < U64
    ensures var (r, t) := (Run(Fresh(), events), Run(Fresh(), more));
      && t.clientOf == [0] && t.threads == [Waiting(Sync, r.nextId)] && t.inFlight == [r.nextId] && t.inbox == [[]]
      && t.abandoned == r.abandoned && t.completed == r.completed
  {
    hide Step, Run;
    RunMore(Fresh(), events, Fetch(0, Sync));
    RunMore(Fresh(), events + [Fetch(0, Sync)], Reserve(0));
    RunMore(Fresh(), events + [Fetch(0, Sync)] + [Reserve(0)], Publish(0));
    more := events + [Fetch(0, Sync)] + [Reserve(0)] + [Publish(0)];
    CallSteps(Run(Fresh(), events));
  }

  /** For every node id and payload that collide, some run completes a call with the reply to an abandoned operation. */
  lemma AbandonedReplyCanComplete(nodeId: nat, generation: nat, m: RpcMethod, status: Status, payload: Bytes)
    requires 0 < nodeId < U64 && 0 < generation < U64 && |payload| <= MAX_PAYLOAD && nodeId / U32 <= 26 + |payload|
    ensures exists events :: var r := Run(Fresh(), events);
      var frame := ResponseBytes(Identity(Execution, nodeId, generation, 1, m), status, payload);
      1 in r.abandoned && r.completed == [Completion(Sync, PrefixId(Execution), frame)]
  {
    hide ResponseBytes, Accepts, Step, Run;
    var other := Identity(Execution, nodeId, generation, 1, m);
    var frame := ResponseBytes(other, status, payload);
    var first := AbandonFirst(nodeId, generation, m);
    var later := Advance(Fresh(), first, PrefixId(Execution));
    var waiting := CallWaits(later);
    var s := Run(Fresh(), waiting);
    LateReplyTaken(s, 0, other, status, payload);
    RunMore(Fresh(), waiting, Host(0, frame));
    RunMore(Fresh(), waiting + [Host(0, frame)], Receive(0));
    RunMore(Fresh(), waiting + [Host(0, frame)] + [Receive(0)], Finish(0));
    var all := waiting + [Host(0, frame)] + [Receive(0)] + [Finish(0)];
    Finishes(Run(Fresh(), waiting), frame);
    assert 1 in Run(Fresh(), all).abandoned;
  }

  lemma Finishes(s: State, frame: Bytes)
    requires WellFormed(s) && s.clientOf == [0] && |s.threads| == 1 && |s.inFlight| == 1
    ensures Step(Step(Step(s, Host(0, frame)), Receive(0)), Finish(0)).abandoned == s.abandoned
  {
    hide Accepts;
  }
}
