# Enclave boundary: a Dafny model

This project models the code where an SGX enclave meets its host, and proves what that
code promises. Each component is one or a few modules.

- **Shared-memory ring** (`Ring`, `RingSteps`, `RingQueue`, `RingFifo`, `Slices`). Length-framed
  messages in a power-of-two byte ring. `RingSteps` interleaves a producer and a consumer byte by
  byte, each working from a stale copy of the other's counter. `RingQueue` is the same code over an
  array and two counter words that the host may set to anything.
- **RPC client** (`RpcFrame`, `HonestFrame`, `RpcClient`, `RpcEndpoint`, `WireLayout`). Frames, the shared id
  counter, the one in-flight word per client, polled and synchronous calls, against a host that may
  put any bytes on a response ring.
- **Allocation pool** (`Allocation`, `AllocationProgress`, `AllocationOwner`). Credit accounting with
  two reference counts per shared block, in every interleaving of clones and drops.
- **Ingress schedulers** (`StreamSession`, `StreamConnection`, `StreamWork`, `StreamOwners`,
  `StreamProgress`, `DeferredIngress`, `DeferredProgress`, `DeferredService`, `ContextWake`, `Terminals`). Bodies in fragments, sessions
  that follow each other on one connection, charges, tokens, the service quantum and the wake flags.
- **Dependency sets** (`Dependencies`, `DependencyLaws`, `DependencyOrder`, `DependencyLoops`,
  `DependencyTree`, `DependencyRegisters`, `Sorting`, `Utf8`, `Utf8Scalars`, `Hex`). The canonical codec and the folded identity of a dependency tree.
- **Quote time** (`Calendar`, `QuoteTime`, `QuoteText`). Closed-form date conversion against a calendar that
  counts days.
- **Session relay and rebind limiter** (`SessionRelay`, `SessionService`, `SessionSweep`, `SessionTable`,
  `Envelope`, `EnvelopeLanguage`, `EnvelopeLoops`, `Base64`, `Rebind`).
- **Key-value codecs** (`KvWire`, `KvLoops`, with `Codec`).

`Prelude` and `Totals` hold bytes, machine words and sums over tables.

Code that updates fields or fills buffers is written as classes, methods and loops. Each is proved
equal to a function, and the laws are proved of the functions. Concurrent code is a step system:
a state, an event type, a total step function and a run over any list of events. Machine words
wrap as in a release build: head counters modulo 2^64, the rebind count modulo 2^32, the end of a
CBOR byte string modulo 2^64.

## What does not hold, and when it does

- A decoded dependency set is the normalised, lower-cased original exactly when no TDX register
  holds a colon (`DependencyLaws.DecodeOfEncode`).
- The dependency encoding ignores declaration order exactly when entries with the same application
  id have the same canonical content (`DependencyLaws.OrderIgnoredExactly`). The doc comment claims it for all sets.
- A parsed quote time prints back exactly when its day exists in its month; the parser also takes
  31 February (`QuoteTime.WriteOfParse`). A printed time parses exactly when its year has at most
  four digits (`QuoteTime.ParseOfWrite`).
- A folded identity binds its workload down to every register, against every other workload, exactly
  when no register of the bound workload holds a colon, digest collisions aside
  (`DependencyRegisters.FoldBindsExactly`). Any workload that has a colon in a register at any depth
  has a twin with other registers and the same fold under every digest
  (`DependencyRegisters.ColonIsLost`).
- A synchronous call takes a late role-owned reply as its own answer exactly when its request id is
  the one that the reply's fixed prefix spells and the high half of the reply's node id is at most
  26 more than the payload length (`RpcClient.AcceptsExactly`). In any run that is the only
  way in which a reply to an abandoned operation completes anything
  (`RpcClient.AbandonedReplyNeedsCollision`), and every such node id and payload has a run in which
  it does (`RpcClient.AbandonedReplyCanComplete`).
- Only the first six attempts of a window are ever admitted, exactly while no window reaches 2^32
  attempts (`Rebind.LimitHoldsExactly`). While that is so and the clock does not run
  backwards, any closed sixty seconds admit at most eleven, and eleven are reached
  (`Rebind.AtMostEleven`, `Rebind.ElevenReached`).
- Sweeping sessions is invisible, whatever the callers do, exactly on the clocks that never return
  into a time to live they had already left behind (`SessionSweep.SweepingUnseenExactly`). A clock
  that does not run backwards is one of them (`SessionSweep.SweepingUnseen`).
- The envelope decoder panics instead of refusing exactly when, behind fewer than three readable
  entries, a ciphertext key stands before an eight-byte length whose end passes 2^64
  (`EnvelopeLanguage.DecodeAbortsExactly`); `Envelope.WrappedLengthAborts` is one such input.

## Model

| member | source | states |
|---|---|---|
| `RingSteps.RunKeepsInv` | common/src/queue.rs:242-300 | In every interleaving with stale counters the bytes between tail and head are the undelivered frames, and each half-finished send or receive agrees with them |
| `RingSteps.DeliveredInOrder` | common/src/queue.rs:242-558 | Whatever the interleaving, the messages received are a prefix of the messages sent, byte for byte, across the wrap |
| `RingSteps.DrainedMeansDelivered` | common/src/queue.rs:513-558 | When the consumer is idle and the counters meet, every sent message was received |
| `RingSteps.UndeliveredIsReadable` | common/src/queue.rs:419-451 | A published message that was not received is seen whole by a fresh load |
| `RingSteps.EmptyRingAccepts` | common/src/queue.rs:242-272 | A producer goes on to write exactly when its frame fits 4 MiB and the space free when it loaded; on an empty ring, when it fits 4 MiB and the ring |
| `RingSteps.EverythingCanBeDelivered` | common/src/queue.rs:419-529 | Wherever a run stands, the consumer alone can bring every message sent so far to its reader |
| `RingSteps.RoomCanBeFilled` | common/src/queue.rs:242-272 | Wherever a run stands, an idle producer can send any message whose frame fits 4 MiB and the free space |
| `RingQueue.CopyToShared` | common/src/queue.rs:337-356 | The staged chunked copy writes what the direct copy writes, for every length and alignment |
| `RingQueue.CopyFromShared` | common/src/queue.rs:311-327 | The same for reading out of shared memory |
| `RingQueue.SpscQueue.WriteBytes` | common/src/queue.rs:288-300 | A write around the ring changes exactly the addressed slots |
| `RingQueue.SpscQueue.ReadBytes` | common/src/queue.rs:542-558 | A read around the ring fills exactly the given range with the addressed bytes |
| `RingQueue.SpscQueue.TrySend` | common/src/queue.rs:242-272 | For any counter words: accepted exactly when the message and four bytes fit 4 MiB and the free space; a refusal changes nothing |
| `RingQueue.SpscQueue.ReadableFrame` | common/src/queue.rs:419-451 | For any counter and length words: a frame is offered only within the bounds; an oversized length skips its header |
| `RingQueue.SpscQueue.TryRecv` | common/src/queue.rs:513-529 | Returns exactly the payload of the offered frame and moves the tail behind it |
| `RingQueue.SpscQueue.TryRecvInto` | common/src/queue.rs:459-472 | Storage that is too short consumes and copies nothing; otherwise the payload fills the front and the rest is untouched |
| `RingQueue.SpscQueue.TryRecvWith` | common/src/queue.rs:482-510 | Whatever the other side writes between the two copies: one frame is consumed, the data have the place and the length validated before, and refusal, discard and short backing give out none |
| `RingFifo.SendAppends` | common/src/queue.rs:242-272 | A send on a ring that holds a message sequence leaves it holding one more, exactly when the frame fits 4 MiB and the space behind the frames held |
| `RingFifo.ReceiveTakesFirst` | common/src/queue.rs:419-529 | A receive yields the oldest message and leaves the others; an empty ring yields nothing |
| `RingFifo.HostCannotOversize` | common/src/queue.rs:419-451 | For any words the host wrote: which frame is offered, which length word is skipped and what is left alone, as exact bounds on the published bytes, the ring and 4 MiB |
| `Ring.CapacityDivides` | common/src/queue.rs:78-92 | Every valid capacity divides 2^64, so counters that wrap keep their slots |
| `Ring.EmptyAccepts` | common/src/queue.rs:85-92 | An empty ring takes a message exactly when it and four bytes fit the ring and 4 MiB |
| `Ring.SendExactly` | common/src/queue.rs:242-262 | The length and space check in numbers, for any counters |
| `Ring.JudgeExactly` | common/src/queue.rs:419-451 | The consumer's verdict on a length word in numbers |
| `Ring.CapacityValues` | common/src/queue.rs:78-83 | The valid capacities are the thirteen powers of two from 4 KiB to 16 MiB |
| `WireLayout.RingFrameBytes` | common/src/queue.rs:263-272 | A frame is four length bytes, low byte first, and the message |
| `RpcFrame.MethodCodes` | common/src/rpc.rs:36-96 | Method codes and methods determine each other; every other code is refused |
| `WireLayout.MethodTable` | common/src/rpc.rs:36-68 | The identifier of every method |
| `WireLayout.RequestBytes` | common/src/rpc.rs:143-166 | Which byte of id, method, length and payload stands where in a request |
| `WireLayout.ResponseBytesAt` | common/src/rpc.rs:237-244 | The same for a response, the status in two's complement |
| `RpcFrame.RequestExact` | common/src/rpc.rs:143-232 | A request decodes to a value exactly when the data starts with that value's encoding |
| `RpcFrame.RequestPrefixRefused` | common/src/rpc.rs:218-232 | No strict prefix of a request decodes |
| `RpcFrame.ResponseExact` | common/src/rpc.rs:237-266 | The same exactness for responses |
| `RpcFrame.EncodeRequestPartsInto` | common/src/rpc.rs:167-193 | The scatter encoder writes the simple encoder's frame of the concatenated parts, touches nothing behind it, and leaves the output untouched when it refuses |
| `RpcFrame.ConcatJoins` | common/src/rpc.rs:167-193 | The parts are joined in order |
| `HonestFrame.AcceptedExactly` | common/src/rpc/honest.rs:190-245 | A reply is accepted for an identity exactly when it is the encoding of an answer to that identity |
| `HonestFrame.OtherIdentityRefuses` | common/src/rpc/honest.rs:236-245 | No other identity accepts it |
| `HonestFrame.UnexpectedExactly` | common/src/rpc/honest.rs:236-245 | An answer is refused as another operation's exactly when it is the encoded answer of another identity |
| `HonestFrame.HeaderErrors` | common/src/rpc/honest.rs:104-130 | When a frame is refused for its magic, its version or its role |
| `WireLayout.HonestRequestBytes` | common/src/rpc/honest.rs:93-168 | When a role-owned request is encoded, and every byte of it |
| `WireLayout.HonestResponseBytes` | common/src/rpc/honest.rs:93-206 | The same for a role-owned answer |
| `HonestFrame.LegacyReadsPrefix` | common/src/rpc/honest.rs:93-102 | The plain response decoder accepts an identity frame exactly when the high half of its node id is at most 26 more than the payload length, and then as the one request id its prefix spells |
| `HonestFrame.HonestReadsLegacy` | common/src/rpc/honest.rs:104-150 | The identity decoder accepts a plain response frame exactly under the request ids that spell a prefix and with a payload laid out like the rest of an identity frame |
| `RpcClient.RunKeepsInv` | enclave/src/rpc_client.rs:78-541 | Ids are distinct, each in-flight word names the thread that owns the client, completed and abandoned operations are over |
| `RpcClient.OneInFlight` | enclave/src/rpc_client.rs:241-256 | At most one operation per client is in flight, and no in-flight word is stranded |
| `RpcClient.IdsNeverRepeat` | enclave/src/rpc_client.rs:78-85 | Issued ids strictly increase and are never zero |
| `RpcClient.OneOutcome` | enclave/src/rpc_client.rs:385-541 | No operation completes twice and an abandoned one never completes |
| `RpcClient.DurableExactly` | enclave/src/rpc_client.rs:759-783 | One frame acknowledges a durable write: its id, status zero and no payload |
| `RpcClient.AcceptsExactly` | enclave/src/rpc_client.rs:385-541 | A polled operation takes exactly its own answers, and a synchronous call a role-owned answer exactly at the prefix id and with a small enough node id |
| `RpcClient.LateReplyRefused` | enclave/src/rpc_client.rs:385-541 | In every run an encoded answer has completed only operations that take it |
| `RpcClient.AbandonedReplyNeedsCollision` | enclave/src/rpc_client.rs:470-483 | In every run a reply to an abandoned operation has completed at most a synchronous call whose request id and the reply's node id collide |
| `RpcClient.LateReplyTaken` | enclave/src/rpc_client.rs:492-541 | A waiting operation that is sent an encoded answer ends with it exactly when it takes it |
| `RpcClient.AbandonedReplyCanComplete` | enclave/src/rpc_client.rs:470-541 | For every colliding node id and payload some run abandons an operation and then completes a call with its reply |
| `RpcEndpoint.IdCounter.NextReqId` | enclave/src/rpc_client.rs:78-85 | Hands out the counter and never wraps it |
| `RpcEndpoint.Endpoint.TryReserveRequest` | enclave/src/rpc_client.rs:241-247 | Reserves exactly an idle client; a busy one keeps its word |
| `RpcEndpoint.Endpoint.ReleaseRequest` | enclave/src/rpc_client.rs:249-256 | Frees only the request it names |
| `RpcEndpoint.Endpoint.TryExecutionRequest` | enclave/src/rpc_client.rs:262-302 | Which refusal comes when, for every id counter, in-flight word, payload size and ring; published exactly once under a fresh identity, or the client is free again; each outcome is a path of the `RpcClient` system |
| `RpcEndpoint.SubmitExactly` | enclave/src/rpc_client.rs:262-302 | Which five methods are submitted and which refusal comes exactly when, in numbers |
| `RpcEndpoint.Endpoint.PollExecutionRpc` | enclave/src/rpc_client.rs:385-409 | Completes exactly on an encoding of an answer to the pending identity, fails as unexpected exactly on an answer to another and as malformed otherwise; one frame decides, as one turn of the `RpcClient` system does |
| `RpcEndpoint.Endpoint.AbandonExecutionRpc` | enclave/src/rpc_client.rs:470-483 | Frees the client exactly when the operation is the pending one, as the abandoning step does |
| `RpcEndpoint.Endpoint.AwaitAnswer` | enclave/src/rpc_client.rs:492-541 | Returns the first frame that carries the request id and drops exactly the foreign frames before it; that many turns of the `RpcClient` system end in the same state |
| `RpcEndpoint.Endpoint.ReceiveKvInto` | enclave/src/rpc_client.rs:825-883 | The first frame that decides is judged on its header and again on the copy of the validated length, whatever the host made of its bytes in between; frames behind it stay |
| `RpcEndpoint.ValueIsValidated` | enclave/src/rpc_client.rs:825-883 | A value is given out exactly when header and copy both answer the request with success and the owner's storage suffices, and it fits the validated frame |
| `RpcEndpoint.OutcomeExactly` | enclave/src/rpc_client.rs:825-883 | When a frame is passed over, means an absent key, a value or which error, from the ids and statuses of the header as shown and as copied and the owner's answer |
| `Allocation.RunKeepsInv` | common/src/allocation.rs:75-427 | Accounts, reference counts, running destructors, alias stages and the order of effects hold in every reachable state |
| `Allocation.CreditConserved` | common/src/allocation.rs:100-151 | At all times the bytes in use are the bytes of the live leases and within capacity; the gross count is the saturated total ever reserved but for reservations whose second update is still to come |
| `Allocation.RefundedOnceAfterDestruction` | common/src/allocation.rs:360-427 | A credit is refunded at most once, after the destructor that the last payload reference started has ended, and the release callback comes after the refund |
| `Allocation.DestroyerIsAlone` | common/src/allocation.rs:417-427 | While a destructor runs no other alias can read or destroy the value and the credit stays out |
| `Allocation.AliasKeepsCredit` | common/src/allocation.rs:403-427 | While an alias remains its credit is out, and while one can read the value is alive |
| `Allocation.LastAliasReturnsCredit` | common/src/allocation.rs:417-427 | A block is shared exactly as long as some alias remains |
| `Allocation.LastCreditIsLast` | common/src/allocation.rs:417-427 | The last credit reference goes only after the last payload reference, with the value destroyed |
| `Allocation.SoleHolder` | common/src/allocation.rs:266-277 | A payload count of one means no other alias can reach the payload |
| `Allocation.DrainedIsEmpty` | common/src/allocation.rs:118-151 | When every owner is done the pool is empty and every value was destroyed |
| `Allocation.RingsExactlyWhenPublished` | common/src/allocation.rs:78-125 | A finished owner has rung exactly when it was published and the pool has a callback; rollback stays silent |
| `Allocation.NotifyStays` | common/src/allocation.rs:139-141 | Only activation arms the callback and nothing disarms it |
| `AllocationProgress.GrantedExactly` | common/src/allocation.rs:100-117 | A reservation is granted exactly when it is not empty and fits the free capacity |
| `AllocationProgress.PoolCanBeEmptied` | common/src/allocation.rs:360-427 | Wherever a run stands it can be completed with every value destroyed, every credit refunded and the pool empty |
| `AllocationProgress.CloneMakesAlias` | common/src/allocation.rs:403-410 | A clone of a whole alias is another whole alias, with both counts one higher |
| `AllocationProgress.ReservedCanBeShared` | common/src/allocation.rs:360-393 | A reservation can be built into a block with one alias and both counts at one |
| `AllocationOwner.Pool.ReserveBackendBytes` | common/src/allocation.rs:100-117 | Granted exactly when non-zero and within capacity; a refusal takes nothing |
| `AllocationOwner.Pool.ReleaseBackendBytes` | common/src/allocation.rs:118-125 | Returns the bytes and rings at most once |
| `AllocationOwner.ReserveWithNotification` | common/src/allocation.rs:83-97 | A lease exists exactly for the bytes charged |
| `AllocationOwner.Lease.Drop` | common/src/allocation.rs:146-151 | Refunds its own bytes |
| `AllocationOwner.SharedAllocation.Clone` | common/src/allocation.rs:403-410 | The clone shares payload and credit and both counts rise |
| `AllocationOwner.SharedAllocation.Drop` | common/src/allocation.rs:417-427 | Payload and credit each go with their own last reference |
| `AllocationOwner.SharedAllocation.TryMakeUniqueWith` | common/src/allocation.rs:252-295 | Every refusal leaves the alias, both counts, the charge and the callback as they were; success gives a sole copy with the old notification disposition |
| `AllocationOwner.BoundedVecCapacity` | common/src/allocation.rs:155-165 | The least power of two that suffices, or the maximum; never short, never above what can be laid out; nothing exactly for an empty or oversized request, or one above 2^62 with a maximum that cannot be laid out |
| `StreamSession.RunKeepsInv` | enclave/src/stream_ingress.rs:167-197 | Slot, work and receiver account for every byte read |
| `StreamSession.ConsumedIsBodyPrefix` | enclave/src/stream_ingress.rs:458-491 | The receiver has consumed a body prefix of exactly the length the slot no longer owes; nothing past the length is read; a finish comes at most once and only with the whole length |
| `StreamSession.FinishIsFinal` | enclave/src/stream_ingress.rs:483-485 | After a finish nothing more is consumed or read |
| `StreamSession.PostponedIsOfferedAgain` | enclave/src/stream_ingress.rs:180-191 | A postponed fragment is kept whole and is what the next extraction offers |
| `StreamSession.ConsumedMovesOn` | enclave/src/stream_ingress.rs:180-191 | After a consumed fragment the slot owes that much less, keeps nothing and is ready for more |
| `StreamSession.LastFragmentFinishes` | enclave/src/stream_ingress.rs:483-485 | Consuming the last fragment finishes the receiver once, with an answer and the whole declared body, and ends the session |
| `StreamSession.HeaderBegins` | enclave/src/stream_ingress.rs:464-468 | An accepted header gives an unanswered session with a receiver, a refused one an answer and no session |
| `StreamSession.RejectedEnds` | enclave/src/stream_ingress.rs:471-477 | A rejected fragment is not consumed and ends the session with an answer |
| `StreamSession.WithoutContextEnds` | enclave/src/ratls/server.rs:743-775 | Without a context nothing is offered and the session ends unanswered |
| `StreamSession.FreshBytesOffered` | enclave/src/ratls/server.rs:711-727 | An extraction offers the next body bytes, as many as are there, owed and allowed at once |
| `StreamSession.WholeBodyCanBeDelivered` | enclave/src/stream_ingress.rs:458-491 | Wherever a session at rest stands, a receiver that consumes what it is offered gets the whole body and is finished once |
| `StreamSession.AdmittedIsReady` | enclave/src/ratls/server.rs:1058-1076 | An admitted session stands so exactly when its body is long enough |
| `StreamSession.RetainMoves` | enclave/src/stream_ingress.rs:167-192 | The receiver, and a postponed fragment, move from the work to the slot |
| `StreamSession.CreditAndInvalidation` | enclave/src/stream_ingress.rs:193-197 | Returned credit unparks the slot, invalidation removes it, and neither does more |
| `StreamConnection.SessionsRunAlone` | enclave/src/ratls/server.rs:1008-1084 | In every run of a connection, sessions admitted while earlier work is out included, each session is where its own steps alone would have brought it |
| `StreamConnection.LateFinishTouchesNothing` | enclave/src/ratls/server.rs:743-775 | Work of an earlier session that finishes late changes neither the slot nor any other session |
| `StreamConnection.EachConsumesItsOwn` | enclave/src/stream_ingress.rs:458-491 | Every session of a connection consumes a prefix of its own body and finishes at most once |
| `StreamConnection.RunKeepsInv` | enclave/src/ratls/server.rs:1040-1076 | Nonces grow from session to session and a slot always belongs to the last one |
| `StreamProgress.SessionAdmittedExactly` | enclave/src/ratls/server.rs:1008-1076 | A session is admitted exactly without a slot and with a nonce left, and begins under the next nonce |
| `StreamProgress.WorkReachesItsSession` | enclave/src/ecall.rs:672-692 | Every session's work can be served and finished, facing the slot that is there then |
| `StreamProgress.SlotBelongsToLast` | enclave/src/ratls/server.rs:644-741 | Extraction, credit and invalidation act on the last session |
| `StreamWork.SlotCell.Extract` | enclave/src/ratls/server.rs:711-741 | The kept fragment goes first; the books of slot and work add up |
| `StreamWork.WorkCell.Serve` | enclave/src/stream_ingress.rs:458-491 | One adopter call: begin, or offer the fragment once |
| `StreamWork.RetainWork` | enclave/src/stream_ingress.rs:167-192 | Rejoins exactly the slot it came from with its books in order; a refusal changes neither slot nor work |
| `StreamOwners.RunKeepsInv` | enclave/src/stream_ingress.rs:54-131 | The shared counter equals the live charges in every reachable state |
| `StreamOwners.AtMostSixteen` | enclave/src/stream_ingress.rs:81-126 | At most sixteen charges are live and each had at most one receiver |
| `StreamOwners.HandOffFindsPlace` | enclave/src/stream_ingress.rs:216-232 | The terminal hand-off finds a free place in every reachable state |
| `StreamOwners.MarkersAndDebt` | enclave/src/ratls/server.rs:1028-1052 | Markers, cancelled receivers and terminal debt together stay within the live charges |
| `StreamOwners.ReceiverIsCharged` | enclave/src/stream_ingress.rs:127-164 | A receiver that can still act keeps its charge out |
| `StreamProgress.AdmittedExactly` | enclave/src/stream_ingress.rs:81-126 | A charge is granted exactly when fewer than sixteen are owned |
| `StreamProgress.ChargesCanBeReturned` | enclave/src/stream_ingress.rs:54-131 | Wherever a run stands every charge can be returned |
| `StreamProgress.ReceiverComesAndGoes` | enclave/src/stream_ingress.rs:127-192 | An accepted header makes one receiver, which goes through work into the slot with its charge still out |
| `Terminals.RoomFound` | enclave/src/stream_ingress.rs:218-225 | A table with fewer debts than places has a free one |
| `Terminals.Table.HandOff` | enclave/src/stream_ingress.rs:218-225 | Stores in the first free place and nowhere else |
| `Terminals.Table.Take` | enclave/src/stream_ingress.rs:226-232 | Takes the first held debt and nothing else |
| `DeferredIngress.RunKeepsInv` | enclave/src/deferred_ingress.rs:331-381 | Tokens, markers, work and debt agree in every reachable state |
| `DeferredIngress.TokensConserved` | enclave/src/ecall.rs:591-641 | Every admission of a token is out in exactly one place or was released exactly once |
| `DeferredIngress.DebtBounded` | enclave/src/deferred_ingress.rs:331-381 | Markers, cancelled and terminal tokens never exceed sixteen, and while anything could be handed off the table has a free place |
| `DeferredIngress.ReusedConnectionUntouched` | enclave/src/ratls/server.rs:889-962 | Over any run: once a request is admitted on a connection, older work that finishes later leaves that request's marker and token as they are |
| `DeferredIngress.DroppedMarkerIsEmpty` | enclave/src/ratls/server.rs:889-962 | Finishing never drops a marker that holds a token |
| `DeferredProgress.AdmittedExactly` | enclave/src/ratls/server.rs:1150-1215 | A request is admitted exactly when its connection has no marker, fewer than sixteen requests and debts are out and a nonce is left |
| `DeferredProgress.DeclinedSpendsNonce` | enclave/src/ratls/server.rs:1150-1215 | A declined start spends its nonce and leaves no marker |
| `DeferredProgress.FinishExactly` | enclave/src/ratls/server.rs:889-962 | Extracted work finishes with nothing changed exactly when it is in time, its session sound and no answer there; otherwise the marker goes and the token is released |
| `DeferredProgress.InvalidationExactly` | enclave/src/deferred_ingress.rs:331-381 | Invalidation removes the marker and queues the token it holds |
| `DeferredProgress.NoncesStart` | enclave/src/ratls/server.rs:1183-1186 | Nonces start at one, and again only with a new server that has nothing of the old one out |
| `DeferredProgress.EverythingCanBeReleased` | enclave/src/ecall.rs:591-641 | Wherever a run stands it can be ended with every admission released exactly once |
| `DeferredService.SelectionIsCyclic` | enclave/src/deferred_ingress.rs:123-137 | Selection finds the cyclically first eligible marker and fails only when there is none |
| `DeferredService.SelectionIsNext` | enclave/src/deferred_ingress.rs:123-137 | The selected connection is the next eligible one behind the cursor, or the lowest when none is behind it |
| `DeferredService.DeferredServer.TakeDeferred` | enclave/src/ratls/server.rs:828-884 | Moves the token of the selected marker into work and the cursor to it |
| `DeferredService.DeferredServer.FinishDeferred` | enclave/src/ratls/server.rs:889-962 | Agrees with the step system's finishing step |
| `DeferredService.DeferredServer.Progress` | enclave/src/ecall.rs:591-641 | One quantum polls every marker that holds a token exactly once in cyclic order, and empties the terminal table and a full cancelled queue |
| `ContextWake.RunKeepsInv` | enclave/src/deferred_ingress.rs:61-121 | A refused scheduler finds the charge busy, its flag up, or a notification still to come |
| `ContextWake.NoLostWake` | enclave/src/deferred_ingress.rs:61-121 | No quiet state has a refused scheduler, a free charge and a clear flag |
| `ContextWake.TryExactly` | enclave/src/deferred_ingress.rs:85-107 | A try takes the charge exactly when none is out and the size is allowed, and waits exactly when it was refused for the charge |
| `StreamProgress.ContextComesBack` | enclave/src/deferred_ingress.rs:109-121 | A held charge comes back in four steps with both schedulers told |
| `StreamProgress.WokenTakesCharge` | enclave/src/deferred_ingress.rs:85-107 | A raised flag wakes its scheduler once, and its try takes a free charge of up to 128 KiB |
| `StreamProgress.RefundRings` | enclave/src/deferred_ingress.rs:61-73 | A refund raises both flags exactly with the pool's callback |
| `StreamProgress.FirstWake` | enclave/src/deferred_ingress.rs:61-74 | How the flags and the charge start |
| `ContextWake.ReversedOrderLosesWake` | enclave/src/deferred_ingress.rs:109-121 | From a reachable state, notifying before clearing the flag leaves a refused scheduler waiting in a quiet state |
| `Dependencies.WireExact` | common/src/dependencies.rs:144-224 | The decoder accepts exactly the encodings of valid content: no truncation, no trailing byte |
| `DependencyLaws.EncodeIsContent` | common/src/dependencies.rs:104-142 | The writer's bytes are the wire form of the canonical content |
| `DependencyLaws.EncodesContent` | common/src/dependencies.rs:107-142 | Two sets encode alike exactly when their canonical content is the same |
| `DependencyOrder.LexExactly` | common/src/dependencies.rs:107-116 | The order of texts is that of the first byte in which they differ, a prefix first |
| `DependencyOrder.EntryAscends` | common/src/dependencies.rs:107-113 | An entry's measurement texts and OID pairs ascend, each as often as declared |
| `DependencyOrder.ContentAscends` | common/src/dependencies.rs:114-116 | Entries ascend by application id, each as often as declared |
| `DependencyOrder.SampleIsVector` | common/src/dependencies.rs:284-316 | The sample encodes to the bytes the other implementations are pinned to |
| `DependencyLaws.EntryOrderIgnored` | common/src/dependencies.rs:107-116 | The order of measurements and OIDs inside an entry does not matter |
| `DependencyLaws.SetOrderIgnored` | common/src/dependencies.rs:107-116 | With application ids that determine their entries the order of entries does not matter |
| `DependencyLaws.OrderIgnoredExactly` | common/src/dependencies.rs:105-116 | Every permutation has the same content exactly when application ids determine their entries |
| `DependencyLaws.MeasurementSurvives` | common/src/dependencies.rs:43-63 | A measurement comes back lower-cased exactly when its registers hold no colon |
| `DependencyLaws.DecodeOfEncode` | common/src/dependencies.rs:178-224 | Decoding an encoding gives the normalised lower-cased set exactly when no register holds a colon |
| `DependencyLaws.CanonicalizeTwice` | common/src/dependencies.rs:226-230 | Canonicalising is idempotent whenever the re-encoded texts fit their prefixes |
| `DependencyLaws.CanonicalizeIdempotent` | common/src/dependencies.rs:226-230 | Canonicalising is idempotent on every accepted input under 4 GiB |
| `DependencyLoops.CanonicalWriter.WriteCanonical` | common/src/dependencies.rs:84-134 | Nested loops over entries, measurements and OIDs append exactly the bytes `DependencyLaws.EncodeIsContent` describes |
| `DependencyLoops.NormalisedCopy` | common/src/dependencies.rs:107-116 | Sorting each entry in turn and then the entries gives the normal form |
| `DependencyLoops.EncodeSet` | common/src/dependencies.rs:138-142 | The whole writer gives the canonical bytes |
| `DependencyLoops.CanonicalReader.ReadEntry` | common/src/dependencies.rs:198-219 | One turn of the reading loop does what the decoder does on the rest of the input |
| `DependencyLoops.DecodeSet` | common/src/dependencies.rs:194-224 | Nested loops over a moving offset accept exactly what `Dependencies.WireExact` allows |
| `DependencyLoops.CanonicalizeEncoded` | common/src/dependencies.rs:226-230 | Reader and writer composed are the idempotent canonicalisation |
| `DependencyTree.FoldOfTree` | common/src/dependencies.rs:232-277 | A folded identity depends only on the canonical tree |
| `DependencyTree.PreimageSays` | common/src/dependencies.rs:243-261 | Equal preimages say the same measurements, OIDs and direct dependencies |
| `DependencyOrder.OnePreimage` | common/src/dependencies.rs:243-261 | What is hashed, byte by byte, for one measurement and one OID |
| `DependencyOrder.DomainText` | common/src/dependencies.rs:28-28 | The domain text |
| `DependencyTree.FoldBinds` | common/src/dependencies.rs:232-267 | Trees of any depth with the same fold are equal unless two of their hashed strings collide |
| `DependencyTree.FoldIdentityBinds` | common/src/dependencies.rs:232-277 | Without a collision, folds are equal exactly when canonical trees are |
| `DependencyTree.FoldCollision` | common/src/dependencies.rs:232-267 | Unequal trees with one fold exhibit two distinct hashed strings with one digest |
| `DependencyRegisters.FoldBindsRegisters` | common/src/dependencies.rs:232-277 | Without a collision, a workload without colons in its registers has the fold of another, colons or not, exactly when both trees agree down to every register |
| `DependencyRegisters.TextIsRegistersExactly` | common/src/dependencies.rs:43-63 | Every workload with this workload's canonical tree has its registers, exactly when none of its registers holds a colon |
| `DependencyRegisters.ColonIsLost` | common/src/dependencies.rs:43-63 | Every workload with a colon in a register at any depth has a twin of text with other registers, the same canonical tree and the same fold under every digest |
| `DependencyRegisters.FoldBindsExactly` | common/src/dependencies.rs:232-277 | A fold binds its workload down to every register exactly when no register holds a colon, digest collisions aside |
| `Hex.DecodeOfEncode` | common/src/hex.rs:9-42 | Hex text decodes to the bytes it was made from |
| `Hex.EncodeOfDecode` | common/src/hex.rs:9-42 | Re-encoding decoded text gives it in lower case |
| `Hex.DecodesExactly` | common/src/hex.rs:9-32 | Text decodes exactly when it is an even number of hexadecimal digits in either case |
| `Utf8Scalars.ValidExactly` | common/src/dependencies.rs:173-176 | The texts that are accepted as UTF-8 are exactly the encodings of sequences of Unicode scalar values |
| `Calendar.CivilInverts` | common/src/attest.rs:364-371 | Converting a real date to a day and back gives the date |
| `Calendar.CalendarDayNumber` | common/src/attest.rs:364-371 | The parser's day number counts the days of the day-by-day calendar |
| `Calendar.CivilIsCalendar` | common/src/attest.rs:301-310 | The formatter's closed form is the day-by-day calendar from year zero on |
| `Calendar.CivilIsReal` | common/src/attest.rs:301-310 | Every day number, also before year zero, gives a real date of that number |
| `Calendar.DaysOrder` | common/src/attest.rs:364-371 | Date order is day order |
| `QuoteTime.ParseOfWrite` | common/src/attest.rs:295-372 | For every time, the text parses exactly when the year has at most four digits, and then to the time rounded down to its minute |
| `QuoteTime.YearRange` | common/src/attest.rs:295-320 | Those are the times from 0000-01-01 up to 10000-01-01 |
| `QuoteTime.WriteIsCalendar` | common/src/attest.rs:295-320 | The written date is the day-by-day calendar's |
| `QuoteTime.WriteOfParse` | common/src/attest.rs:338-372 | An accepted text is reproduced exactly when its day exists in its month |
| `QuoteTime.TextOrderIsTimeOrder` | common/src/attest.rs:295-320 | In the four-digit range the order of texts is the order of minutes |
| `QuoteTime.ParseNum` | common/src/attest.rs:349-358 | The digit loop gives the decimal value or refuses |
| `QuoteTime.ParseQuoteTimeText` | common/src/attest.rs:338-372 | The five digit loops and range checks accept and return exactly what the round-trip laws are about |
| `QuoteText.ParsesExactly` | common/src/attest.rs:338-372 | A text is read exactly when it has the fixed shape and its fields are in range, and as which time |
| `QuoteText.WrittenText` | common/src/attest.rs:295-320 | In four-digit years, which digit and which separator stands where |
| `QuoteText.OtherYears` | common/src/attest.rs:295-320 | How other years are shown |
| `SessionRelay.RunKeepsInv` | enclave/src/sessionrelay.rs:479-561 | Every session's counters are past everything its key was used for |
| `SessionRelay.AcceptedCountersIncrease` | enclave/src/sessionrelay.rs:495-518 | Per key, accepted client counters strictly increase and stay below 2^63 |
| `SessionRelay.ServerNoncesDiffer` | enclave/src/sessionrelay.rs:540-559 | Per key, no server counter seals twice |
| `SessionRelay.RefusalExtendsNothing` | enclave/src/sessionrelay.rs:489-520 | A request that is not opened makes no session live longer |
| `SessionRelay.FreshSession` | enclave/src/sessionrelay.rs:220-235 | A new session takes any counter below 2^63, refuses every other, and is known for exactly its time to live |
| `SessionRelay.OpenedLivesOn` | enclave/src/sessionrelay.rs:514-519 | An opened request keeps its own session for a whole time to live from then on, and no other |
| `SessionService.OpenExactly` | enclave/src/sessionrelay.rs:479-521 | A request is opened exactly by a live session, under a counter below 2^63 above all opened before, when it authenticates; and which refusal comes exactly when |
| `SessionService.OpenEffect` | enclave/src/sessionrelay.rs:489-520 | A request removes its own session when found expired, moves it on when opened, and changes nothing else |
| `SessionService.NextCounterOpens` | enclave/src/sessionrelay.rs:495-519 | After an opened request every greater counter below 2^63 is opened for another 900 seconds, and no other |
| `SessionService.SealExactly` | enclave/src/sessionrelay.rs:527-561 | A live session seals under its next counter up to 2^64 - 1 and spends it even when sealing fails |
| `SessionService.ClientIsServed` | enclave/src/sessionrelay.rs:479-561 | From any state and whatever other sessions do: a client that counts up and comes back in time has every request opened and its n-th response sealed under n - 1 |
| `SessionService.SweepExactly` | enclave/src/sessionrelay.rs:127-134 | When a sweep is due and what it drops |
| `SessionService.BootstrapExactly` | enclave/src/sessionrelay.rs:220-235 | A session starts with no counter used and 900 seconds to live |
| `SessionService.StartsEmpty` | enclave/src/sessionrelay.rs:118-134 | The table starts empty |
| `SessionSweep.SweepingUnseenExactly` | enclave/src/sessionrelay.rs:127-134 | On a list of times, sweeping and never sweeping give the same answers to everything done at those times exactly when no time returns into a life already outlived |
| `SessionSweep.SweepingUnseen` | enclave/src/sessionrelay.rs:127-134 | So they do with a clock that does not run backwards |
| `SessionTable.Sessions.SweepExpired` | enclave/src/sessionrelay.rs:127-134 | Keeps exactly the sessions that have not expired, once a minute |
| `SessionTable.Sessions.BootstrapSession` | enclave/src/sessionrelay.rs:220-242 | A new key with fresh counters |
| `SessionTable.Sessions.OpenRequest` | enclave/src/sessionrelay.rs:479-521 | The table step, and the plaintext the cipher gives for the accepted counter |
| `SessionTable.Sessions.SealResponse` | enclave/src/sessionrelay.rs:527-561 | The table step, and the envelope of the sealed text under the spent counter |
| `SessionTable.Sessions.IsKnownSession` | enclave/src/sessionrelay.rs:631-636 | Known means present and not expired |
| `SessionTable.SealedResponseOpens` | enclave/src/sessionrelay.rs:540-559 | What was sealed opens at the peer, when the cipher opens what it sealed |
| `SessionTable.SecondSendRefused` | enclave/src/sessionrelay.rs:495-518 | The same sealed body a second time, whatever the clock reads then, is a replay, or finds the session expired |
| `Envelope.DecodeOfEncode` | enclave/src/sessionrelay.rs:247-472 | Every counter and ciphertext comes back, whatever follows the envelope |
| `WireLayout.EnvelopeBytes` | enclave/src/sessionrelay.rs:424-472 | Every byte of an envelope, its heads in the shortest form |
| `Envelope.DecodeOfFields` | enclave/src/sessionrelay.rs:247-277 | Three entries decode exactly when they are a version of one, a counter and a ciphertext, in any order; a repeated key leaves another missing and is refused |
| `EnvelopeLanguage.AcceptedExactly` | enclave/src/sessionrelay.rs:247-421 | The decoder accepts exactly a map head and three laid-out entries that are a version of one, a counter and a ciphertext, each head in any of its five widths |
| `EnvelopeLanguage.DecodeAbortsExactly` | enclave/src/sessionrelay.rs:247-421 | The decoder panics exactly when an overlong ciphertext stands behind fewer than three readable entries |
| `Envelope.PrefixRefused` | enclave/src/sessionrelay.rs:247-421 | No strict prefix of an envelope decodes |
| `Envelope.AbortsExactly` | enclave/src/sessionrelay.rs:360-421 | Reading a byte string panics exactly when its announced end passes 2^64 |
| `Envelope.WrappedLengthAborts` | enclave/src/sessionrelay.rs:396-418 | An input that does |
| `EnvelopeLoops.DecodeEnvelope` | enclave/src/sessionrelay.rs:247-277 | The cursor accepts exactly the language of `EnvelopeLanguage.AcceptedExactly` and panics exactly on that of `EnvelopeLanguage.DecodeAbortsExactly` |
| `EnvelopeLoops.EncodeEnvelope` | enclave/src/sessionrelay.rs:424-472 | The appended bytes are the envelope of the round trip |
| `Base64.DecodeOfEncode` | enclave/src/sessionrelay.rs:566-628 | Every byte string comes back from its URL-safe text |
| `Base64.DecodeOfStandard` | enclave/src/sessionrelay.rs:566-598 | So it does from the standard alphabet with any amount of padding |
| `Base64.DecodesExactly` | enclave/src/sessionrelay.rs:566-598 | A text decodes to given bytes exactly when its characters are known, no single digit is left over, and its digits are theirs but for the unused bits of the last |
| `Base64.LetterTable` | enclave/src/sessionrelay.rs:601-603 | The URL-safe alphabet, letter by letter |
| `Base64.ReadTable` | enclave/src/sessionrelay.rs:566-585 | Either alphabet is read, letter by letter |
| `Base64.SkipTable` | enclave/src/sessionrelay.rs:566-585 | Padding and line breaks are skipped, and nothing else |
| `Base64.WhiteTable` | enclave/src/sessionrelay.rs:566-568 | Which characters are trimmed off both ends |
| `Base64.WhiteAround` | enclave/src/sessionrelay.rs:566-570 | White space around a text is not read |
| `Base64.EncodeIsUrlSafe` | enclave/src/sessionrelay.rs:601-628 | No plus, no slash and no padding in any text |
| `Base64.EncodeLength` | enclave/src/sessionrelay.rs:601-628 | How long a text is |
| `Base64.EncodeVectors` | enclave/src/sessionrelay.rs:601-628 | The vectors of section 10 of RFC 4648 |
| `Base64.EncodeUrl` | enclave/src/sessionrelay.rs:601-628 | The group loop and the remainder branches give the text of the round trip |
| `Base64.DecodeText` | enclave/src/sessionrelay.rs:566-598 | The character loop and the group loop accept and return exactly what `Base64.DecodesExactly` allows |
| `Rebind.Limiter.AllowRebind` | enclave/src/encauth.rs:177-199 | One attempt on the map agrees with the per-window rule |
| `Rebind.SweepChangesNothing` | enclave/src/encauth.rs:180-182 | With a clock that does not run backwards the sweep never changes a decision |
| `Rebind.SweepForgets` | enclave/src/encauth.rs:180-182 | An attempt forgets another id exactly when more than ten thousand are held and its sixty seconds are over |
| `Rebind.AttemptExactly` | enclave/src/encauth.rs:183-199 | A window of at most sixty seconds counts on and admits six, any other begins anew |
| `Rebind.AdmittedExactly` | enclave/src/encauth.rs:183-199 | With a clock that does not run backwards, the k-th attempt of a window is admitted exactly when k modulo 2^32 is at most six |
| `Rebind.LimitHoldsExactly` | enclave/src/encauth.rs:177-199 | In a run, every admitted attempt is among the first six of its window exactly when no window reaches 2^32 attempts |
| `Rebind.AtMostEleven` | enclave/src/encauth.rs:177-199 | With a clock that does not run backwards and no window of 2^32 attempts, any closed sixty seconds admit at most eleven attempts on one session id |
| `Rebind.ElevenReached` | enclave/src/encauth.rs:177-199 | Under the same conditions eleven are reached |
| `KvWire.WriteBatchExact` | common/src/rpc.rs:524-598 | A write batch decodes to a value exactly when the payload starts with its encoding; a strict prefix decodes to nothing |
| `WireLayout.OperationBytes` | common/src/rpc.rs:524-553 | A put carries zero, its key and its value, a delete one and its key, byte by byte |
| `WireLayout.TabledBytes` | common/src/rpc.rs:524-553 | Table name and count stand in front of the items, byte by byte |
| `KvWire.MultiGetReqExact` | common/src/rpc.rs:604-642 | The same for multi-get requests |
| `KvWire.MultiGetRespExact` | common/src/rpc.rs:643-693 | The same for multi-get answers |
| `WireLayout.MaybeBytes` | common/src/rpc.rs:643-661 | A value that is there carries one, one that is not is a zero byte |
| `KvWire.ListKeysRespExact` | common/src/rpc.rs:478-508 | The same for key lists |
| `WireLayout.CountedBytes` | common/src/rpc.rs:478-487 | The count stands in front of the items, byte by byte |
| `KvWire.ScanRespExact` | common/src/rpc.rs:740-780 | The same for scan answers |
| `WireLayout.PairBytes` | common/src/rpc.rs:740-751 | A pair is its key and its value, each behind its length |
| `KvLoops.EncodeWriteBatch` | common/src/rpc.rs:524-553 | The growing buffer ends as the wire form that `KvWire.WriteBatchExact` is about |
| `KvLoops.DecodeWriteBatch` | common/src/rpc.rs:554-598 | The moving offset accepts and returns exactly what `KvWire.WriteBatchExact` allows, stopping at the first short field |
| `KvLoops.EncodeMultiGet` | common/src/rpc.rs:643-661 | The growing buffer ends as the wire form that `KvWire.MultiGetRespExact` is about |
| `KvLoops.DecodeMultiGet` | common/src/rpc.rs:662-693 | The moving offset accepts and returns exactly what `KvWire.MultiGetRespExact` allows |
| `KvLoops.EncodeScan` | common/src/rpc.rs:740-751 | The growing buffer ends as the wire form that `KvWire.ScanRespExact` is about |
| `KvLoops.DecodeScan` | common/src/rpc.rs:752-780 | The moving offset accepts and returns exactly what `KvWire.ScanRespExact` allows |
| `KvLoops.EncodeKeyList` | common/src/rpc.rs:478-487 | The growing buffer ends as the wire form that `KvWire.ListKeysRespExact` is about |
| `KvLoops.DecodeKeyList` | common/src/rpc.rs:488-508 | The moving offset accepts and returns exactly what `KvWire.ListKeysRespExact` allows |

## Left out

- Spin loops: `send_bounded` and the blocking `recv` repeat the modelled calls and add only waiting.
- Raw pointers and hardware memory ordering: memory is a sequence or an array, and each side may act on a stale counter.
- Debug builds: overflow panics of unoptimised builds are not modelled; words wrap.
- Error kinds: decoders give `None` where the source names several errors, except where a caller acts on the difference.
- Dependencies.LowerMeasurement: lower case is ASCII only; the source applies the Unicode case tables, which differ only outside hexadecimal text.
- DependencyTree.FoldBinds: SHA-256 is a parameter with 32-byte results; nothing else is assumed of it.
- RpcEndpoint.Endpoint.AwaitAnswer: works on the frames already on the ring; waking the host and sleeping between polls are not modelled.
- RpcClient: network, quote and configuration calls are instances of the modelled synchronous call and have no members of their own.
- Allocation: layout sizes of the two containers are a number; allocator-private overhead is not counted. The pool-bound map allocator is not modelled.
- StreamSession: the cipher session, read control and the response queue are events of the environment.
- StreamOwners: the stream quantum repeats the loop that `DeferredService` models and has no member of its own.
- DeferredIngress: an adopter hands out no token that is still out; the terminal table would merge two equal ones. A replaced server starts its nonces again only once no work is extracted.
- DeferredService.DeferredServer.Progress: no admission and no invalidation happen during the quantum.
- SessionRelay: HKDF, ECDH and AES-GCM are parameters; associated data is one byte string.
- KvLoops and DependencyLoops: the source reserves a vector for an unchecked 32-bit count before it reads any item. A huge count can fail in the allocator where the model returns `None`.
- QuoteTime: the counting writer that measures a text without storing it is not modelled.
- The control role's method, worker storage batches, OIDC, JWKS, HTTP parsing, quote verification and the build scripts would add only easy members.
