/**
 A ring that nobody else touches is a first-in first-out queue of messages: what the
 endpoint operations do to the buffer and the counters, read as a message sequence.
 */
module RingFifo {
  import opened Prelude
  import opened Ring
  import opened RingQueue

  /** The ring holds exactly these messages, wherever its counters stand. */
  ghost predicate Holds(cap: nat, buf: Bytes, head: nat, tail: nat, msgs: seq<Bytes>) {
    && CapacityValid(cap) && |buf| == cap
    && WrapSub(head, tail) == |Stream(msgs)| <= cap
    && RingRead(buf, tail, |Stream(msgs)|) == Stream(msgs)
    && forall i :: 0 <= i < |msgs| ==> |msgs[i]| <= MaxMessageBytes(cap)
  }

  // ---- the ring's algebra --------------------------------------------------

  lemma SameSlot(p: nat, q: nat, i: int, cap: nat)
    requires cap > 0 && p % cap == q % cap
    ensures (p + i) % cap == (q + i) % cap && (i - p) % cap == (i - q) % cap
  {
    var k := p / cap - q / cap;
    assert p == q + k * cap by {
      assert p == p / cap * cap + p % cap && q == q / cap * cap + q % cap;
      assert k * cap == p / cap * cap - q / cap * cap;
    }
    ModShift(q + i, k, cap);
    ModShift(i - p, k, cap);
    assert i - q == k * cap + (i - p);
  }

  lemma ReadCongruent(buf: Bytes, p: nat, q: nat, n: nat)
    requires |buf| > 0 && p % |buf| == q % |buf|
    ensures RingRead(buf, p, n) == RingRead(buf, q, n)
  {
    forall i | 0 <= i < n
      ensures RingRead(buf, p, n)[i] == RingRead(buf, q, n)[i]
    {
      SameSlot(p, q, i, |buf|);
    }
  }

  lemma WriteCongruent(buf: Bytes, p: nat, q: nat, data: Bytes)
    requires |buf| > 0 && p % |buf| == q % |buf|
    ensures RingWrite(buf, p, data) == RingWrite(buf, q, data)
  {
    forall j | 0 <= j < |buf|
      ensures RingWrite(buf, p, data)[j] == RingWrite(buf, q, data)[j]
    {
      SameSlot(p, q, j, |buf|);
    }
  }

  lemma ReadSplit(buf: Bytes, p: nat, a: nat, b: nat)
    requires |buf| > 0
    ensures RingRead(buf, p, a + b) == RingRead(buf, p, a) + RingRead(buf, p + a, b)
  {
    var whole, parts := RingRead(buf, p, a + b), RingRead(buf, p, a) + RingRead(buf, p + a, b);
    forall i | 0 <= i < |whole|
      ensures whole[i] == parts[i]
    {
      if i >= a {
        assert p + i == (p + a) + (i - a);
      }
    }
  }

  /** The slot of the byte `i` places behind `p` is `i` places behind `p`. */
  lemma SlotBack(p: nat, i: nat, cap: nat)
    requires i < cap
    ensures ((p + i) % cap - p) % cap == i
  {
    OffsetSlot(p, i, cap);
    SlotOffset((p + i) % cap, p, cap);
  }

  /** Distances behind a position, seen from `n` places further on. */
  lemma OffsetShift(j: nat, p: nat, n: nat, cap: nat)
    requires cap > 0 && n <= cap
    ensures var o := (j - p) % cap;
      (j - (p + n)) % cap == if o >= n then o - n else o - n + cap
  {
    var o, q := (j - p) % cap, (j - p) / cap;
    assert j - p == q * cap + o;
    if o >= n {
      DivModUnique(j - (p + n), cap, q, o - n);
    } else {
      assert j - (p + n) == (q - 1) * cap + (o - n + cap);
      DivModUnique(j - (p + n), cap, q - 1, o - n + cap);
    }
  }

  lemma WriteConcat(buf: Bytes, p: nat, a: Bytes, b: Bytes)
    requires |buf| > 0 && |a| + |b| <= |buf|
    ensures RingWrite(RingWrite(buf, p, a), p + |a|, b) == RingWrite(buf, p, a + b)
  {
    forall j | 0 <= j < |buf|
      ensures RingWrite(RingWrite(buf, p, a), p + |a|, b)[j] == RingWrite(buf, p, a + b)[j]
    {
      OffsetShift(j, p, |a|, |buf|);
    }
  }

  lemma ReadWritten(buf: Bytes, p: nat, data: Bytes)
    requires 0 < |data| <= |buf|
    ensures RingRead(RingWrite(buf, p, data), p, |data|) == data
  {
    forall i | 0 <= i < |data|
      ensures RingRead(RingWrite(buf, p, data), p, |data|)[i] == data[i]
    {
      SlotBack(p, i, |buf|);
    }
  }

  /** Writing right behind a stretch leaves the stretch alone while both fit the ring. */
  lemma ReadBefore(buf: Bytes, p: nat, n: nat, data: Bytes)
    requires 0 < |buf| && n + |data| <= |buf|
    ensures RingRead(RingWrite(buf, p + n, data), p, n) == RingRead(buf, p, n)
  {
    forall i | 0 <= i < n
      ensures RingRead(RingWrite(buf, p + n, data), p, n)[i] == RingRead(buf, p, n)[i]
    {
      ReadBeforeAt(buf, p, n, data, i);
    }
  }

  lemma ReadBeforeAt(buf: Bytes, p: nat, n: nat, data: Bytes, i: nat)
    requires 0 < |buf| && n + |data| <= |buf| && i < n
    ensures RingRead(RingWrite(buf, p + n, data), p, n)[i] == RingRead(buf, p, n)[i]
  {
    SlotBack(p, i, |buf|);
    OffsetShift((p + i) % |buf|, p, n, |buf|);
  }

  lemma WrappedPosition(cap: nat, position: nat, k: nat)
    requires CapacityValid(cap)
    ensures WrapAdd(position, k) % cap == (position + k) % cap
  {
    CapacityDivides(cap);
    ModOfMod(position + k, U64, cap);
  }

  /** The two writes of a send put down one whole frame. */
  lemma SentIsFrame(cap: nat, buf: Bytes, head: nat, msg: Bytes)
    requires CapacityValid(cap) && |buf| == cap && |Frame(msg)| <= cap
    ensures Sent(buf, head, msg) == RingWrite(buf, head, Frame(msg))
  {
    WrappedPosition(cap, head, 4);
    var mid := RingWrite(buf, head, LE(|msg|, 4));
    WriteCongruent(mid, WrapAdd(head, 4), head + 4, msg);
    WriteConcat(buf, head, LE(|msg|, 4), msg);
  }

  lemma {:induction false} StreamCons(msg: Bytes, msgs: seq<Bytes>)
    ensures Stream([msg] + msgs) == Frame(msg) + Stream(msgs)
  {
    hide Frame;
    if msgs == [] {
      assert [msg] + msgs == [msg] && [msg][..0] == [];
    } else {
      var front, last := msgs[..|msgs| - 1], msgs[|msgs| - 1];
      StreamCons(msg, front);
      assert ([msg] + msgs)[..|msgs|] == [msg] + front;
    }
  }

  // ---- the queue laws ------------------------------------------------------

  /** The head counter is the tail counter plus the bytes in between. */
  lemma HeadFromTail(head: nat, tail: nat)
    requires head < U64
    ensures head == WrapAdd(tail, WrapSub(head, tail))
  {
    var used := WrapSub(head, tail);
    assert head - tail == (head - tail) / U64 * U64 + used;
    assert tail + used == (-((head - tail) / U64)) * U64 + head;
    ModShift(head, -((head - tail) / U64), U64);
  }

  /** Sending appends a message; it is refused exactly when the message is too long or does not fit. */
  lemma SendAppends(cap: nat, buf: Bytes, head: nat, tail: nat, msgs: seq<Bytes>, msg: Bytes)
    requires head < U64 && Holds(cap, buf, head, tail, msgs)
    ensures CanSend(cap, head, tail, |msg|) <==> 4 + |msg| <= 4 * 1024 * 1024 && |Stream(msgs)| + 4 + |msg| <= cap
    ensures CanSend(cap, head, tail, |msg|) ==>
      Holds(cap, Sent(buf, head, msg), WrapAdd(head, |Frame(msg)|), tail, msgs + [msg])
  {
    var used, f := |Stream(msgs)|, Frame(msg);
    StreamSnoc(msgs, msg);
    if CanSend(cap, head, tail, |msg|) {
      ReadAfterSend(cap, buf, head, tail, used, msg);
      UsedGrows(head, tail, |f|);
    }
  }

  lemma ReadAfterSend(cap: nat, buf: Bytes, head: nat, tail: nat, used: nat, msg: Bytes)
    requires CapacityValid(cap) && |buf| == cap && head < U64
    requires WrapSub(head, tail) == used && used + |Frame(msg)| <= cap
    ensures var after := Sent(buf, head, msg);
      |after| == cap && RingRead(after, tail, used + |Frame(msg)|) == RingRead(buf, tail, used) + Frame(msg)
  {
    hide Frame, RingRead, RingWrite, Sent, LE, WrapAdd, WrapSub;
    var f := Frame(msg);
    SentIsFrame(cap, buf, head, msg);
    HeadFromTail(head, tail);
    WrappedPosition(cap, tail, used);
    WriteCongruent(buf, head, tail + used, f);
    ReadSplit(RingWrite(buf, tail + used, f), tail, used, |f|);
    ReadBefore(buf, tail, used, f);
    ReadWritten(buf, tail + used, f);
  }

  lemma UsedGrows(head: nat, tail: nat, n: nat)
    requires WrapSub(head, tail) + n < U64
    ensures WrapSub(WrapAdd(head, n), tail) == WrapSub(head, tail) + n
  {
    var used := WrapSub(head, tail);
    assert head - tail == (head - tail) / U64 * U64 + used;
    assert head + n == (head + n) / U64 * U64 + WrapAdd(head, n);
    var k := (head - tail) / U64 - (head + n) / U64;
    assert WrapAdd(head, n) - tail == k * U64 + (used + n);
    ModShift(used + n, k, U64);
  }

  /** Receiving yields the oldest message and leaves the others; an empty ring yields nothing. */
  lemma ReceiveTakesFirst(cap: nat, buf: Bytes, head: nat, tail: nat, msgs: seq<Bytes>)
    requires Holds(cap, buf, head, tail, msgs)
    ensures msgs == [] ==> Peek(cap, buf, head, tail) == NoFrame(tail)
    ensures msgs != [] ==>
      && Peek(cap, buf, head, tail) == FrameOf(|msgs[0]|)
      && Payload(buf, tail, |msgs[0]|) == msgs[0]
      && Holds(cap, buf, head, Behind(tail, |msgs[0]|), msgs[1..])
  {
    hide Frame, RingRead, LE, FromLE;
    if msgs != [] {
      var msg, rest := msgs[0], msgs[1..];
      var f := Frame(msg);
      assert msgs == [msg] + rest;
      StreamCons(msg, rest);
      ReadSplit(buf, tail, |f|, |Stream(rest)|);
      assert RingRead(buf, tail, |f|) == (f + Stream(rest))[..|f|];
      FrameRead(cap, buf, tail, msg);
      UsedShrinks(head, tail, |msg|);
      RestRead(cap, buf, tail, |msg|, Stream(rest));
    }
  }

  lemma FrameRead(cap: nat, buf: Bytes, tail: nat, msg: Bytes)
    requires CapacityValid(cap) && |buf| == cap && |msg| <= MaxMessageBytes(cap)
    requires RingRead(buf, tail, |Frame(msg)|) == Frame(msg)
    ensures FromLE(RingRead(buf, tail, 4)) == |msg| && Payload(buf, tail, |msg|) == msg
  {
    HeaderLength(msg);
    ReadSplit(buf, tail, 4, |msg|);
    WrappedPosition(cap, tail, 4);
    ReadCongruent(buf, WrapAdd(tail, 4), tail + 4, |msg|);
    assert RingRead(buf, tail, 4) == Frame(msg)[..4];
  }

  lemma RestRead(cap: nat, buf: Bytes, tail: nat, len: nat, rest: Bytes)
    requires CapacityValid(cap) && |buf| == cap
    requires RingRead(buf, tail + 4 + len, |rest|) == rest
    ensures RingRead(buf, Behind(tail, len), |rest|) == rest
  {
    WrappedPosition(cap, tail, 4);
    WrappedPosition(cap, WrapAdd(tail, 4), len);
    SameSlot(WrapAdd(tail, 4), tail + 4, len, cap);
    ReadCongruent(buf, Behind(tail, len), tail + 4 + len, |rest|);
  }

  lemma UsedShrinks(head: nat, tail: nat, len: nat)
    requires WrapSub(head, tail) >= 4 + len
    ensures WrapSub(head, Behind(tail, len)) == WrapSub(head, tail) - 4 - len
  {
    var used, mid := WrapSub(head, tail), WrapAdd(tail, 4);
    assert head - tail == (head - tail) / U64 * U64 + used;
    assert tail + 4 == (tail + 4) / U64 * U64 + mid;
    assert mid + len == (mid + len) / U64 * U64 + Behind(tail, len);
    var k := (head - tail) / U64 + (tail + 4) / U64 + (mid + len) / U64;
    assert head - Behind(tail, len) == k * U64 + (used - 4 - len);
    ModShift(used - 4 - len, k, U64);
  }

  /**
   For any words the host chooses: a frame is handed out exactly when its length word keeps it
   within what was published, the ring and 4 MiB; a length word past the ring or 4 MiB alone
   is skipped; everything else is left where it is.
   */
  lemma HostCannotOversize(cap: nat, buf: Bytes, head: nat, tail: nat)
    requires CapacityValid(cap) && |buf| == cap
    ensures var (avail, len) := ((head - tail) % U64, FromLE(RingRead(buf, tail, 4)));
      Peek(cap, buf, head, tail) ==
        if !(4 <= avail <= cap) then NoFrame(tail)
        else if 4 + len > cap || 4 + len > 4 * 1024 * 1024 then NoFrame((tail + 4) % U64)
        else if 4 + len > avail then NoFrame(tail)
        else FrameOf(len)
  {
    JudgeExactly(cap, (head - tail) % U64, FromLE(RingRead(buf, tail, 4)));
    hide FromLE, RingRead;
  }
}
