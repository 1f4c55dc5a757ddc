/**
 Producer and consumer of one ring as two processes that interleave byte by byte. Each
 loads the other's counter once and then acts on that snapshot, however stale it gets.
 */
module RingSteps {
  import opened Prelude
  import opened Ring

  datatype Producer =
    | PIdle
    | PLoaded(msg: Bytes, tail: nat)          // the peer's counter, as loaded
    | PWriting(msg: Bytes, k: nat)            // `k` bytes of the frame are in the buffer

  datatype Consumer =
    | CIdle
    | CHeader(avail: nat, read: Bytes)        // bytes available when the peer's counter was loaded
    | CBody(len: nat, read: Bytes)

  datatype State = State(
    cap: nat, buf: Bytes, head: nat, tail: nat,
    producer: Producer, consumer: Consumer,
    sent: seq<Bytes>, received: seq<Bytes>,
    producerSaw: nat,                         // history: bytes consumed when the producer loaded
    consumerSaw: nat)                         // history: messages published when the consumer loaded

  datatype Event =
    | PLoad(msg: Bytes) | PCheck | PWrite | PPublish
    | CLoad | CRead | CDecide | CConsume

  predicate Shape(s: State) {
    CapacityValid(s.cap) && |s.buf| == s.cap
  }

  function Index(s: State, counter: nat, k: nat): (i: nat)
    requires Shape(s)
    ensures i < |s.buf|
  {
    WrapAdd(counter, k) % s.cap
  }

  function Step(s: State, e: Event): (r: State)
    requires Shape(s)
    ensures Shape(r) && r.cap == s.cap
  {
    match e
    case PLoad(msg) =>
      if s.producer.PIdle? then s.(producer := PLoaded(msg, s.tail), producerSaw := |Stream(s.received)|) else s
    case PCheck =>
      if !s.producer.PLoaded? then s
      else if CanSend(s.cap, s.head, s.producer.tail, |s.producer.msg|) then s.(producer := PWriting(s.producer.msg, 0))
      else s.(producer := PIdle)
    case PWrite =>
      if s.producer.PWriting? && s.producer.k < |Frame(s.producer.msg)|
      then
        var p := s.producer;
        s.(buf := s.buf[Index(s, s.head, p.k) := Frame(p.msg)[p.k]], producer := PWriting(p.msg, p.k + 1))
      else s
    case PPublish =>
      if s.producer.PWriting? && s.producer.k >= |Frame(s.producer.msg)|
      then
        var msg := s.producer.msg;
        s.(head := WrapAdd(s.head, |Frame(msg)|), producer := PIdle, sent := s.sent + [msg])
      else s
    case CLoad =>
      if s.consumer.CIdle? && HasHeader(s.cap, s.head, s.tail)
      then s.(consumer := CHeader(WrapSub(s.head, s.tail), []), consumerSaw := |s.sent|) else s
    case CRead => s.(consumer := ReadByte(s))
    case CDecide => if s.consumer.CHeader? && |s.consumer.read| >= MSG_HEADER_SIZE then Decide(s) else s
    case CConsume =>
      if s.consumer.CBody? && |s.consumer.read| >= s.consumer.len
      then s.(tail := WrapAdd(WrapAdd(s.tail, MSG_HEADER_SIZE), s.consumer.len), consumer := CIdle,
              received := s.received + [s.consumer.read])
      else s
  }

  function ReadByte(s: State): Consumer
    requires Shape(s)
  {
    match s.consumer
    case CIdle => s.consumer
    case CHeader(avail, read) =>
      if |read| < MSG_HEADER_SIZE then CHeader(avail, read + [s.buf[Index(s, s.tail, |read|)]]) else s.consumer
    case CBody(len, read) =>
      if |read| < len then CBody(len, read + [s.buf[Index(s, s.tail, MSG_HEADER_SIZE + |read|)]]) else s.consumer
  }

  /** A corrupt length skips the four header bytes; an incomplete frame is left alone. */
  function Decide(s: State): State
    requires s.consumer.CHeader?
  {
    var len := FromLE(s.consumer.read);
    match Judge(s.cap, s.consumer.avail, len)
    case Corrupt => s.(tail := WrapAdd(s.tail, MSG_HEADER_SIZE), consumer := CIdle)
    case Incomplete => s.(consumer := CIdle)
    case Readable => s.(consumer := CBody(len, []))
  }

  predicate Initial(s: State) {
    Shape(s) && s.head == 0 && s.tail == 0 && s.producer.PIdle? && s.consumer.CIdle? && s.sent == [] && s.received == []
  }

  function Run(s: State, events: seq<Event>): (r: State)
    requires Shape(s)
    ensures Shape(r) && r.cap == s.cap
  {
    if events == [] then s else Step(Run(s, events[..|events| - 1]), events[|events| - 1])
  }

  // ---- the invariant, in true (unwrapped) positions --------------------------

  /** Bytes published, and bytes consumed, since the ring was created. */
  function H(s: State): nat { |Stream(s.sent)| }
  function T(s: State): nat { |Stream(s.received)| }

  function ByteAt(buf: Bytes, cap: nat, position: nat): Byte
    requires cap > 0 && |buf| == cap
  {
    buf[position % cap]
  }

  /** From `lo` on, the buffer holds the data at its true positions. */
  ghost predicate Window(buf: Bytes, cap: nat, data: Bytes, lo: nat)
    requires cap > 0 && |buf| == cap
  {
    forall i :: lo <= i < |data| ==> ByteAt(buf, cap, i) == data[i]
  }

  /** Everything the producer has put in the buffer, published or not. */
  function Written(s: State): Bytes {
    Stream(s.sent) +
      if s.producer.PWriting? && s.producer.k <= |Frame(s.producer.msg)| then Frame(s.producer.msg)[..s.producer.k]
      else []
  }

  ghost predicate Counters(s: State) {
    && s.received <= s.sent
    && T(s) <= H(s) <= T(s) + s.cap
    && s.head == H(s) % U64 && s.tail == T(s) % U64
    && forall i :: 0 <= i < |s.sent| ==> |s.sent[i]| <= MaxMessageBytes(s.cap)
  }

  ghost predicate ProducerOk(s: State) {
    match s.producer
    case PIdle => true
    case PLoaded(msg, tail) => s.producerSaw <= T(s) && tail == s.producerSaw % U64 && H(s) <= s.producerSaw + s.cap
    case PWriting(msg, k) =>
      |msg| <= MaxMessageBytes(s.cap) && k <= |Frame(msg)| && H(s) + |Frame(msg)| <= T(s) + s.cap
  }

  ghost predicate ConsumerOk(s: State) {
    match s.consumer
    case CIdle => true
    case CHeader(avail, read) =>
      && |s.received| < s.consumerSaw <= |s.sent|
      && avail == |Stream(s.sent[..s.consumerSaw])| - T(s)
      && read <= Frame(s.sent[|s.received|])[..4]
    case CBody(len, read) =>
      && |s.received| < |s.sent| && len == |s.sent[|s.received|]|
      && read <= s.sent[|s.received|]
  }

  ghost predicate Inv(s: State) {
    Shape(s) && Counters(s) && ProducerOk(s) && ConsumerOk(s) && Window(s.buf, s.cap, Written(s), T(s))
  }

  // ---- positions -----------------------------------------------------------

  lemma IndexIsPosition(s: State, position: nat, k: nat)
    requires Shape(s)
    ensures Index(s, position % U64, k) == (position + k) % s.cap
  {
    CapacityDivides(s.cap);
    WrapAddTrue(position, k);
    ModOfMod(position + k, U64, s.cap);
  }

  lemma DistinctSlots(a: nat, b: nat, cap: nat)
    requires cap > 0 && a < b < a + cap
    ensures a % cap != b % cap
  {
    if a % cap == b % cap {
      var k := b / cap - a / cap;
      assert b - a == k * cap by {
        assert a == a / cap * cap + a % cap && b == b / cap * cap + b % cap;
        assert k * cap == b / cap * cap - a / cap * cap;
      }
      if k >= 1 { MulGrows(k, cap); } else if k <= -1 { MulGrows(-k, cap); }
    }
  }

  /** Writing the next byte keeps every byte of the window, as long as the window fits the ring. */
  lemma WindowWrite(buf: Bytes, cap: nat, data: Bytes, lo: nat, b: Byte)
    requires cap > 0 && |buf| == cap && lo <= |data| < lo + cap && Window(buf, cap, data, lo)
    ensures Window(buf[|data| % cap := b], cap, data + [b], lo)
  {
    var hi := |data|;
    var after := buf[hi % cap := b];
    forall i | lo <= i < hi + 1
      ensures ByteAt(after, cap, i) == (data + [b])[i]
    {
      if i < hi {
        DistinctSlots(i, hi, cap);
        assert ByteAt(buf, cap, i) == data[i];
      }
    }
  }

  // ---- every step keeps the invariant ----------------------------------------

  lemma ProducerKept(s: State, e: Event)
    requires Inv(s) && (e.PLoad? || e.PCheck? || e.PPublish?)
    ensures Inv(Step(s, e))
  {
    match e
    case PLoad(msg) =>
    case PCheck =>
      if s.producer.PLoaded? { WrapSubTrue(H(s), s.producerSaw); }
    case PPublish =>
      if s.producer.PWriting? && s.producer.k >= |Frame(s.producer.msg)| { PublishKept(s); }
  }

  lemma PublishKept(s: State)
    requires Inv(s) && s.producer.PWriting? && s.producer.k == |Frame(s.producer.msg)|
    ensures Inv(Step(s, PPublish))
  {
    hide Stream, LE;
    var msg, r := s.producer.msg, Step(s, PPublish);
    StreamSnoc(s.sent, msg);
    assert Frame(msg)[..s.producer.k] == Frame(msg);
    assert Written(r) == Written(s);
    WrapAddTrue(H(s), |Frame(msg)|);
    if s.consumer.CHeader? {
      assert r.sent[..s.consumerSaw] == s.sent[..s.consumerSaw];
    }
  }

  lemma WriteKept(s: State)
    requires Inv(s) && s.producer.PWriting? && s.producer.k < |Frame(s.producer.msg)|
    ensures Inv(Step(s, PWrite))
  {
    var msg, k := s.producer.msg, s.producer.k;
    IndexIsPosition(s, H(s), k);
    WindowWrite(s.buf, s.cap, Written(s), T(s), Frame(msg)[k]);
    assert Frame(msg)[..k + 1] == Frame(msg)[..k] + [Frame(msg)[k]];
    assert Written(Step(s, PWrite)) == Written(s) + [Frame(msg)[k]];
  }

  /** The consumer sees a whole message whenever it sees anything. */
  lemma LoadKept(s: State)
    requires Inv(s) && s.consumer.CIdle? && HasHeader(s.cap, s.head, s.tail)
    ensures Inv(Step(s, CLoad))
  {
    WrapSubTrue(H(s), T(s));
    assert s.sent[..|s.sent|] == s.sent;
    assert s.received != s.sent;
    assert |s.received| < |s.sent|;
  }

  /** The byte at true position `T + k` is byte `k` of the next frame. */
  lemma NextFrameByte(s: State, k: nat)
    requires Inv(s) && |s.received| < |s.sent| && k < |Frame(s.sent[|s.received|])|
    ensures s.buf[Index(s, s.tail, k)] == Frame(s.sent[|s.received|])[k]
  {
    var r := |s.received|;
    assert s.sent[..r] == s.received;
    StreamAt(s.sent, r);
    IndexIsPosition(s, T(s), k);
    assert Written(s)[T(s) + k] == Stream(s.sent)[T(s) + k] == Stream(s.sent)[T(s)..T(s) + |Frame(s.sent[r])|][k];
    assert ByteAt(s.buf, s.cap, T(s) + k) == Written(s)[T(s) + k];
  }

  /** A step that only moves the consumer needs only the consumer's part of the invariant. */
  lemma ConsumerMoves(s: State, c: Consumer)
    requires Inv(s) && ConsumerOk(s.(consumer := c))
    ensures Inv(s.(consumer := c))
  {
    assert Written(s.(consumer := c)) == Written(s);
  }

  lemma ReadKept(s: State)
    requires Inv(s)
    ensures Inv(Step(s, CRead))
  {
    match s.consumer
    case CIdle =>
    case CHeader(avail, read) => if |read| < 4 { HeaderByteKept(s); }
    case CBody(len, read) => if |read| < len { BodyByteKept(s); }
    ConsumerMoves(s, ReadByte(s));
  }

  lemma HeaderByteKept(s: State)
    requires Inv(s) && s.consumer.CHeader? && |s.consumer.read| < 4
    ensures ConsumerOk(s.(consumer := ReadByte(s)))
  {
    var read, frame := s.consumer.read, Frame(s.sent[|s.received|]);
    NextFrameByte(s, |read|);
    assert read == frame[..|read|];
    assert read + [frame[|read|]] == frame[..4][..|read| + 1];
  }

  lemma BodyByteKept(s: State)
    requires Inv(s) && s.consumer.CBody? && |s.consumer.read| < s.consumer.len
    ensures ConsumerOk(s.(consumer := ReadByte(s)))
  {
    var read, msg := s.consumer.read, s.sent[|s.received|];
    NextFrameByte(s, 4 + |read|);
    assert Frame(msg)[4 + |read|] == msg[|read|];
    assert read + [msg[|read|]] == msg[..|read| + 1];
  }

  lemma DecideKept(s: State)
    requires Inv(s) && s.consumer.CHeader? && |s.consumer.read| >= 4
    ensures Inv(Step(s, CDecide)) && Step(s, CDecide).consumer.CBody?
  {
    var r := |s.received|;
    var msg := s.sent[r];
    assert |msg| < U32;
    HeaderLength(msg);
    assert s.consumer.read == Frame(msg)[..4];
    WholeFrameSeen(s);
    assert Judge(s.cap, s.consumer.avail, |msg|) == Readable;
    ConsumerMoves(s, CBody(|msg|, []));
  }

  /** The snapshot ends on a frame boundary, so it covers the whole next frame. */
  lemma WholeFrameSeen(s: State)
    requires Inv(s) && s.consumer.CHeader?
    ensures |Frame(s.sent[|s.received|])| <= s.consumer.avail
  {
    var r, seen := |s.received|, s.sent[..s.consumerSaw];
    assert seen[..r] == s.received && seen[r] == s.sent[r];
    StreamAt(seen, r);
  }

  lemma ConsumeKept(s: State)
    requires Inv(s) && s.consumer.CBody? && |s.consumer.read| >= s.consumer.len
    ensures Inv(Step(s, CConsume))
  {
    hide Frame, Stream;
    var r, msg, after := |s.received|, s.sent[|s.received|], Step(s, CConsume);
    assert s.consumer.read == msg;
    assert s.sent[..r] == s.received;
    assert s.sent[..r + 1] == s.received + [msg] == after.received;
    StreamSnoc(s.received, msg);
    StreamPrefix(s.sent, r + 1);
    WrapAddTrue(T(s), 4);
    WrapAddTrue(T(s) + 4, |msg|);
    assert Written(after) == Written(s);
  }

  lemma StepKeepsInv(s: State, e: Event)
    requires Inv(s)
    ensures Inv(Step(s, e))
  {
    if e.PWrite? {
      if s.producer.PWriting? && s.producer.k < |Frame(s.producer.msg)| { WriteKept(s); }
    } else if e.PLoad? || e.PCheck? || e.PPublish? {
      ProducerKept(s, e);
    } else {
      ConsumerKept(s, e);
    }
  }

  lemma ConsumerKept(s: State, e: Event)
    requires Inv(s) && (e.CLoad? || e.CRead? || e.CDecide? || e.CConsume?)
    ensures Inv(Step(s, e))
  {
    match e
    case CLoad => if s.consumer.CIdle? && HasHeader(s.cap, s.head, s.tail) { LoadKept(s); }
    case CRead => ReadKept(s);
    case CDecide => if s.consumer.CHeader? && |s.consumer.read| >= 4 { DecideKept(s); }
    case CConsume => if s.consumer.CBody? && |s.consumer.read| >= s.consumer.len { ConsumeKept(s); }
  }

  lemma {:induction false} RunKeepsInv(s: State, events: seq<Event>)
    requires Initial(s)
    ensures Inv(Run(s, events))
  {
    if events != [] {
      RunKeepsInv(s, events[..|events| - 1]);
      StepKeepsInv(Run(s, events[..|events| - 1]), events[|events| - 1]);
    }
  }

  // ---- over every interleaving -----------------------------------------------

  /** Whatever the interleaving, the received messages are a prefix of the sent ones, byte for byte. */
  lemma DeliveredInOrder(s: State, events: seq<Event>)
    requires Initial(s)
    ensures Run(s, events).received <= Run(s, events).sent
  {
    RunKeepsInv(s, events);
  }

  /** A ring whose counters agree has delivered everything. */
  lemma DrainedMeansDelivered(s: State, events: seq<Event>)
    requires Initial(s)
    ensures var r := Run(s, events);
      r.head == r.tail ==> r.received == r.sent
  {
    RunKeepsInv(s, events);
    var r := Run(s, events);
    if r.head == r.tail && |r.received| < |r.sent| {
      assert r.sent[..|r.received|] == r.received;
      StreamAt(r.sent, |r.received|);
      WrapSubTrue(H(r), T(r));
    }
  }

  /**
   A consumer that loads while something is undelivered goes on to deliver a message: no frame
   ever looks corrupt or cut off.
   */
  lemma UndeliveredIsReadable(s: State, events: seq<Event>)
    requires Initial(s)
    ensures var r := Run(s, events);
      && (r.consumer.CIdle? && r.received != r.sent ==> Step(r, CLoad).consumer.CHeader?)
      && (r.consumer.CHeader? && |r.consumer.read| >= 4 ==> Step(r, CDecide).consumer.CBody?)
  {
    RunKeepsInv(s, events);
    var r := Run(s, events);
    if r.consumer.CIdle? && r.received != r.sent {
      assert r.sent[..|r.received|] == r.received;
      StreamAt(r.sent, |r.received|);
      WrapSubTrue(H(r), T(r));
    }
    if r.consumer.CHeader? && |r.consumer.read| >= 4 { DecideKept(r); }
  }

  /**
   A producer goes on to write exactly when the frame fits 4 MiB and the space free when it
   loaded, whatever the consumer does meanwhile; on an empty ring, when it fits the ring.
   */
  lemma EmptyRingAccepts(s: State, events: seq<Event>)
    requires Initial(s)
    ensures var r := Run(s, events);
      r.producer.PLoaded? ==>
        var n := |r.producer.msg|;
        && (Step(r, PCheck).producer.PWriting? <==> 4 + n <= 4 * 1024 * 1024 && H(r) + 4 + n <= r.producerSaw + r.cap)
        && (!Step(r, PCheck).producer.PWriting? ==> Step(r, PCheck) == r.(producer := PIdle))
        && (r.producerSaw == H(r) ==>
              (Step(r, PCheck).producer.PWriting? <==> 4 + n <= 4 * 1024 * 1024 && 4 + n <= r.cap))
  {
    RunKeepsInv(s, events);
    var r := Run(s, events);
    if r.producer.PLoaded? {
      WrapSubTrue(H(r), r.producerSaw);
      SendExactly(r.cap, r.head, r.producer.tail, |r.producer.msg|);
    }
  }

  // ---- every message gets through ---------------------------------------------

  lemma {:induction false} RunMore(s: State, events: seq<Event>, more: seq<Event>)
    requires Shape(s)
    ensures Run(s, events + more) == Run(Run(s, events), more)
  {
    hide Step;
    if more == [] {
      assert events + more == events;
    } else {
      var front := more[..|more| - 1];
      RunMore(s, events, front);
      assert (events + more)[..|events + more| - 1] == events + front;
    }
  }

  /** Read the rest of the header, or of the body. */
  lemma {:induction false} ReadOn(s: State) returns (more: seq<Event>)
    requires Inv(s) && !s.consumer.CIdle?
    ensures var r := Run(s, more);
      && Inv(r) && r.received == s.received && r.sent == s.sent
      && (s.consumer.CHeader? ==> r.consumer.CHeader? && |r.consumer.read| == 4)
      && (s.consumer.CBody? ==> r.consumer.CBody? && |r.consumer.read| == r.consumer.len)
    decreases (if s.consumer.CHeader? then 4 else s.consumer.len) - |s.consumer.read|
  {
    var goal := if s.consumer.CHeader? then 4 else s.consumer.len;
    if |s.consumer.read| >= goal {
      more := [];
    } else {
      StepKeepsInv(s, CRead);
      var t := Step(s, CRead);
      var rest := ReadOn(t);
      OneMore(s, CRead, rest);
      more := [CRead] + rest;
    }
  }

  lemma OneMore(s: State, e: Event, rest: seq<Event>)
    requires Shape(s)
    ensures Run(s, [e] + rest) == Run(Step(s, e), rest)
  {
    RunMore(s, [e], rest);
    assert [e][..0] == [];
    assert Run(s, []) == s;
  }

  /** From a header in hand the consumer can go on to have the message. */
  lemma TakeBody(s: State) returns (more: seq<Event>)
    requires Inv(s) && !s.consumer.CIdle?
    ensures var r := Run(s, more);
      Inv(r) && r.sent == s.sent && |r.received| == |s.received| + 1 && r.consumer.CIdle?
  {
    assert Shape(s);
    hide Inv, Step;
    var first := ReadOn(s);
    var t := Run(s, first);
    var upto := first;
    if s.consumer.CHeader? {
      DecideGoesOn(t);
      var u := Step(t, CDecide);
      var second := ReadOn(u);
      OneMore(t, CDecide, second);
      RunMore(s, first, [CDecide] + second);
      upto := first + ([CDecide] + second);
    }
    var v := Run(s, upto);
    ConsumeGoesOn(v);
    OneMore(v, CConsume, []);
    RunMore(s, upto, [CConsume] + []);
    assert Run(Step(v, CConsume), []) == Step(v, CConsume);
    more := upto + ([CConsume] + []);
  }

  lemma DecideGoesOn(s: State)
    requires Inv(s) && s.consumer.CHeader? && |s.consumer.read| == 4
    ensures var r := Step(s, CDecide); Inv(r) && r.consumer.CBody? && r.sent == s.sent && r.received == s.received
  {
    StepKeepsInv(s, CDecide);
    DecideKept(s);
  }

  lemma ConsumeGoesOn(s: State)
    requires Inv(s) && s.consumer.CBody? && |s.consumer.read| == s.consumer.len
    ensures var r := Step(s, CConsume);
      Inv(r) && r.consumer.CIdle? && r.sent == s.sent && |r.received| == |s.received| + 1
  {
    StepKeepsInv(s, CConsume);
  }

  lemma LoadGoesOn(s: State)
    requires Inv(s) && s.consumer.CIdle? && |s.received| < |s.sent|
    ensures var r := Step(s, CLoad);
      Inv(r) && r.consumer.CHeader? && r.sent == s.sent && r.received == s.received
  {
    StepKeepsInv(s, CLoad);
    assert s.sent[..|s.received|] == s.received;
    StreamAt(s.sent, |s.received|);
    WrapSubTrue(H(s), T(s));
  }

  lemma {:induction false} Deliver(s: State) returns (more: seq<Event>)
    requires Inv(s)
    ensures Run(s, more).sent == s.sent && Run(s, more).received == s.sent
    decreases |s.sent| - |s.received|, if s.consumer.CIdle? then 1 else 0
  {
    if s.received == s.sent {
      more := [];
    } else {
      var first := [];
      if s.consumer.CIdle? {
        LoadGoesOn(s);
        first := [CLoad];
        OneMore(s, CLoad, []);
        assert [CLoad] + [] == [CLoad];
      }
      hide Step, Inv;
      var t := Run(s, first);
      var body := TakeBody(t);
      RunMore(s, first, body);
      Ahead(t, body);
      var rest := Deliver(Run(t, body));
      RunMore(s, first + body, rest);
      more := first + body + rest;
    }
  }

  lemma Ahead(s: State, body: seq<Event>)
    requires Shape(s) && Inv(Run(s, body))
    ensures |Run(s, body).received| <= |Run(s, body).sent|
  {
  }

  /** Write the rest of the frame. */
  lemma {:induction false} WriteOn(s: State) returns (more: seq<Event>)
    requires Inv(s) && s.producer.PWriting?
    ensures var r := Run(s, more);
      Inv(r) && r.sent == s.sent && r.producer == PWriting(s.producer.msg, 4 + |s.producer.msg|)
    decreases 4 + |s.producer.msg| - s.producer.k
  {
    if s.producer.k == |Frame(s.producer.msg)| {
      more := [];
    } else {
      StepKeepsInv(s, PWrite);
      var rest := WriteOn(Step(s, PWrite));
      OneMore(s, PWrite, rest);
      more := [PWrite] + rest;
    }
  }

  lemma SendStarts(s: State, msg: Bytes)
    requires Inv(s) && s.producer.PIdle?
    requires 4 + |msg| <= 4 * 1024 * 1024 && H(s) + 4 + |msg| <= T(s) + s.cap
    ensures var r := Step(Step(s, PLoad(msg)), PCheck); Inv(r) && r.sent == s.sent && r.producer == PWriting(msg, 0)
  {
    StepKeepsInv(s, PLoad(msg));
    StepKeepsInv(Step(s, PLoad(msg)), PCheck);
    WrapSubTrue(H(s), T(s));
    SendExactly(s.cap, s.head, s.tail, |msg|);
  }

  /** An idle producer can send, by itself, any message whose frame fits 4 MiB and the free space. */
  lemma RoomCanBeFilled(s: State, events: seq<Event>, msg: Bytes)
    requires Initial(s) && Run(s, events).producer.PIdle?
    requires var r := Run(s, events); 4 + |msg| <= 4 * 1024 * 1024 && H(r) + 4 + |msg| <= T(r) + r.cap
    ensures exists more :: Run(s, events + more).sent == Run(s, events).sent + [msg]
  {
    RunKeepsInv(s, events);
    var more := Send(Run(s, events), msg);
    RunMore(s, events, more);
  }

  lemma Publish(s: State, msg: Bytes)
    requires Shape(s) && s.producer == PWriting(msg, 4 + |msg|)
    ensures Run(s, [PPublish]).sent == s.sent + [msg]
  {
    OneMore(s, PPublish, []);
    assert [PPublish] + [] == [PPublish];
    assert Run(Step(s, PPublish), []) == Step(s, PPublish);
  }

  lemma Send(r: State, msg: Bytes) returns (more: seq<Event>)
    requires Inv(r) && r.producer.PIdle?
    requires 4 + |msg| <= 4 * 1024 * 1024 && H(r) + 4 + |msg| <= T(r) + r.cap
    ensures Shape(r) && Run(r, more).sent == r.sent + [msg]
  {
    SendStarts(r, msg);
    assert Shape(r);
    hide Inv, Step;
    var writing := Step(Step(r, PLoad(msg)), PCheck);
    var rest := WriteOn(writing);
    Publish(Run(writing, rest), msg);
    RunMore(writing, rest, [PPublish]);
    var tail := rest + [PPublish];
    OneMore(Step(r, PLoad(msg)), PCheck, tail);
    OneMore(r, PLoad(msg), [PCheck] + tail);
    more := [PLoad(msg)] + ([PCheck] + tail);
  }

  /** Wherever a run stands, the consumer alone can bring every message sent so far to its reader. */
  lemma EverythingCanBeDelivered(s: State, events: seq<Event>)
    requires Initial(s)
    ensures exists more :: var r := Run(s, events + more); r.sent == Run(s, events).sent && r.received == r.sent
  {
    RunKeepsInv(s, events);
    var more := Deliver(Run(s, events));
    RunMore(s, events, more);
  }
}
