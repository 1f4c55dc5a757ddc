/**
 The two endpoints of the ring over its real storage: a byte array, two counter words
 the host may set to anything, staged copies that match the peer's alignment, and the
 four receive variants.
 */
module RingQueue {
  import opened Prelude
  import opened Slices
  import opened Ring

  const STAGE: nat := 4096

  // ---- staged copies -------------------------------------------------------

  /** Copies in chunks through an aligned stage when the two addresses differ modulo eight. */
  method CopyToShared(data: Bytes, dataAddr: nat, dest: array<Byte>, start: nat, destAddr: nat)
    requires start + |data| <= dest.Length
    modifies dest
    ensures dest[..] == Patched(old(dest[..]), start, data)
  {
    hide Patched;
    if |data| >= 64 && dataAddr % 8 != destAddr % 8 {
      var staging := new Byte[STAGE + 8](_ => 0);
      ghost var whole := dest[..];
      var done := 0;
      PatchedNothing(whole, start);
      while done < |data|
        invariant done <= |data| && dest[..] == Patched(whole, start, data[..done])
      {
        var end := if done + STAGE < |data| then done + STAGE else |data|;
        var chunk := data[done..end];
        assert data[..end] == data[..done] + chunk;
        PatchedTwice(whole, start, data[..done], chunk);
        CopyStaged(staging, destAddr % 8, chunk, dest, start + done);
        done := end;
      }
      assert data[..|data|] == data;
      return;
    }
    WriteAt(dest, start, data);
  }

  /** One chunk, through the stage at the peer's alignment. */
  method CopyStaged(staging: array<Byte>, prefix: nat, chunk: Bytes, dest: array<Byte>, at: nat)
    requires staging != dest && prefix + |chunk| <= staging.Length && at + |chunk| <= dest.Length
    modifies staging, dest
    ensures dest[..] == Patched(old(dest[..]), at, chunk)
  {
    PatchedSlice(staging[..], prefix, chunk);
    WriteAt(staging, prefix, chunk);
    assert staging[prefix..prefix + |chunk|] == staging[..][prefix..prefix + |chunk|];
    WriteAt(dest, at, staging[prefix..prefix + |chunk|]);
  }

  method CopyFromShared(source: array<Byte>, start: nat, n: nat, sourceAddr: nat, out: array<Byte>, outStart: nat,
    outAddr: nat)
    requires start + n <= source.Length && outStart + n <= out.Length && source != out
    modifies out
    ensures out[..] == Patched(old(out[..]), outStart, source[start..start + n])
  {
    hide Patched;
    if n >= 64 && sourceAddr % 8 != outAddr % 8 {
      var staging := new Byte[STAGE + 8](_ => 0);
      ghost var whole, data := out[..], source[start..start + n];
      var done := 0;
      PatchedNothing(whole, outStart);
      while done < n
        invariant done <= n && source[start..start + n] == data && out[..] == Patched(whole, outStart, data[..done])
      {
        var end := if done + STAGE < n then done + STAGE else n;
        var chunk := source[start + done..start + end];
        assert data[..end] == data[..done] + chunk;
        PatchedTwice(whole, outStart, data[..done], chunk);
        CopyStaged(staging, sourceAddr % 8, chunk, out, outStart + done);
        done := end;
      }
      assert data[..n] == data;
      return;
    }
    WriteAt(out, outStart, source[start..start + n]);
  }

  // ---- reading and writing around the ring ----------------------------------

  /** The `n` bytes from a position on, each at its remainder modulo the capacity. */
  function RingRead(buf: Bytes, position: nat, n: nat): (r: Bytes)
    requires |buf| > 0
    ensures |r| == n
  {
    seq(n, i requires 0 <= i < n => buf[(position + i) % |buf|])
  }

  /** The buffer after writing `data` from a position on; slots it does not reach keep their byte. */
  function RingWrite(buf: Bytes, position: nat, data: Bytes): (r: Bytes)
    requires |buf| > 0
    ensures |r| == |buf|
  {
    seq(|buf|, j requires 0 <= j < |buf| =>
      var o := (j - position) % |buf|;
      if o < |data| then data[o] else buf[j])
  }

  /** Distance of a slot behind a position, going round. */
  lemma SlotOffset(j: nat, position: nat, cap: nat)
    requires j < cap
    ensures var start := position % cap;
      (j - position) % cap == if j >= start then j - start else j + cap - start
  {
    var start, q := position % cap, position / cap;
    assert position == q * cap + start;
    if j >= start {
      assert j - position == (-q) * cap + (j - start);
      DivModUnique(j - position, cap, -q, j - start);
    } else {
      assert j - position == (-q - 1) * cap + (j + cap - start);
      DivModUnique(j - position, cap, -q - 1, j + cap - start);
    }
  }

  /** Slot of a byte `i` places behind a position, going round. */
  lemma OffsetSlot(position: nat, i: nat, cap: nat)
    requires i < cap
    ensures var start := position % cap;
      (position + i) % cap == if start + i < cap then start + i else start + i - cap
  {
    var start, q := position % cap, position / cap;
    assert position == q * cap + start;
    if start + i < cap {
      DivModUnique(position + i, cap, q, start + i);
    } else {
      assert position + i == (q + 1) * cap + (start + i - cap);
      DivModUnique(position + i, cap, q + 1, start + i - cap);
    }
  }

  // ---- what one send and one receive do -------------------------------------

  /** The buffer after the two writes of a send: the length word, then the payload behind it. */
  function Sent(buf: Bytes, head: nat, msg: Bytes): Bytes
    requires |buf| > 0
  {
    RingWrite(RingWrite(buf, head, LE(|msg|, MSG_HEADER_SIZE)), WrapAdd(head, MSG_HEADER_SIZE), msg)
  }

  datatype Peeked = NoFrame(tail: nat) | FrameOf(len: nat)

  /** What the consumer finds at its tail; only a corrupt length moves the tail. */
  function Peek(cap: nat, buf: Bytes, head: nat, tail: nat): Peeked
    requires |buf| > 0
  {
    if !HasHeader(cap, head, tail) then NoFrame(tail)
    else
      var len := FromLE(RingRead(buf, tail, MSG_HEADER_SIZE));
      match Judge(cap, WrapSub(head, tail), len)
      case Corrupt => NoFrame(WrapAdd(tail, MSG_HEADER_SIZE))
      case Incomplete => NoFrame(tail)
      case Readable => FrameOf(len)
  }

  function Payload(buf: Bytes, tail: nat, len: nat): Bytes
    requires |buf| > 0
  {
    RingRead(buf, WrapAdd(tail, MSG_HEADER_SIZE), len)
  }

  function Behind(tail: nat, len: nat): nat {
    WrapAdd(WrapAdd(tail, MSG_HEADER_SIZE), len)
  }

  /** A read around the ring is one slice, or the end of the buffer and its beginning. */
  lemma ReadPieces(buf: Bytes, offset: nat, n: nat)
    requires 0 < |buf| && n <= |buf|
    ensures var start := offset % |buf|;
      RingRead(buf, offset, n) ==
        if start + n <= |buf| then buf[start..start + n] else buf[start..] + buf[..start + n - |buf|]
  {
    var start := offset % |buf|;
    forall i | 0 <= i < n
      ensures RingRead(buf, offset, n)[i] == if start + i < |buf| then buf[start + i] else buf[start + i - |buf|]
    {
      OffsetSlot(offset, i, |buf|);
    }
  }

  datatype Into = Empty | TooShort(needed: nat) | Filled(len: nat)
  datatype OwnerChoice = OwnerRefuses | OwnerDiscards | OwnerProvides(size: nat)
  datatype With = WithNothing | WithRefused | WithTooShort | WithData(bytes: Bytes)

  class SpscQueue {
    const capacity: nat
    const buf: array<Byte>
    const bufAddr: nat
    var head: nat
    var tail: nat

    /** The construction-time contract: validated geometry, 64-bit counter words. */
    ghost predicate Valid()
      reads this
    {
      CapacityValid(capacity) && buf.Length == capacity && head < U64 && tail < U64
    }

    constructor (capacity: nat, buf: array<Byte>, bufAddr: nat)
      requires CapacityValid(capacity) && buf.Length == capacity
      ensures Valid() && this.capacity == capacity && this.buf == buf && head == 0 && tail == 0
    {
      this.capacity, this.buf, this.bufAddr := capacity, buf, bufAddr;
      head, tail := 0, 0;
    }

    method WriteBytes(offset: nat, data: Bytes, dataAddr: nat)
      requires Valid() && |data| <= capacity
      modifies buf
      ensures buf[..] == RingWrite(old(buf[..]), offset, data)
    {
      var start := offset % capacity;
      var first := if |data| < capacity - start then |data| else capacity - start;
      CopyToShared(data[..first], dataAddr, buf, start, bufAddr + start);
      if first < |data| {
        CopyToShared(data[first..], dataAddr + first, buf, 0, bufAddr);
      }
      forall j | 0 <= j < capacity
        ensures buf[..][j] == RingWrite(old(buf[..]), offset, data)[j]
      {
        SlotOffset(j, offset, capacity);
      }
    }

    /** Fills `out[outStart..outStart + n]` and nothing else. */
    method ReadBytes(offset: nat, n: nat, out: array<Byte>, outStart: nat, outAddr: nat)
      requires Valid() && n <= capacity && outStart + n <= out.Length && out != buf
      modifies out
      ensures out[..] == Patched(old(out[..]), outStart, RingRead(buf[..], offset, n))
    {
      hide RingRead, Patched;
      var start := offset % capacity;
      var end := start + n;
      ReadPieces(buf[..], offset, n);
      if end <= capacity {
        assert buf[start..start + n] == buf[..][start..start + n];
        CopyFromShared(buf, start, n, bufAddr + start, out, outStart, outAddr);
      } else {
        var first := capacity - start;
        assert buf[start..start + first] == buf[..][start..] && buf[0..n - first] == buf[..][..n - first];
        PatchedTwice(out[..], outStart, buf[start..start + first], buf[0..n - first]);
        CopyFromShared(buf, start, first, bufAddr + start, out, outStart, outAddr);
        CopyFromShared(buf, 0, n - first, bufAddr, out, outStart + first, outAddr + first);
      }
    }

    /** Accepts exactly when the length and the space allow it; a refusal changes nothing. */
    method TrySend(msg: Bytes, msgAddr: nat) returns (ok: bool)
      requires Valid()
      modifies this`head, buf
      ensures Valid()
      ensures ok <==> 4 + |msg| <= 4 * 1024 * 1024 && (old(head) - tail) % U64 + 4 + |msg| <= capacity
      ensures ok ==>
        buf[..] == Sent(old(buf[..]), old(head), msg) && head == WrapAdd(old(head), MSG_HEADER_SIZE + |msg|)
      ensures !ok ==> buf[..] == old(buf[..]) && head == old(head)
    {
      if |msg| > MaxMessageBytes(capacity) { return false; }
      var total := MSG_HEADER_SIZE + |msg|;
      var used := WrapSub(head, tail);
      if used > capacity { return false; }
      var free := capacity - used;
      if free < total { return false; }
      WriteBytes(head, LE(|msg|, MSG_HEADER_SIZE), 0);
      WriteBytes(WrapAdd(head, MSG_HEADER_SIZE), msg, msgAddr);
      head := WrapAdd(head, total);
      return true;
    }

    method ReadableFrame() returns (r: Option<nat>)
      requires Valid()
      modifies this`tail
      ensures Valid()
      ensures match Peek(capacity, buf[..], head, old(tail))
        case NoFrame(next) => r == None && tail == next
        case FrameOf(len) => r == Some(len) && tail == old(tail)
    {
      var avail := WrapSub(head, tail);
      if avail > capacity { return None; }
      if avail < MSG_HEADER_SIZE { return None; }
      var word := new Byte[MSG_HEADER_SIZE];
      ReadBytes(tail, MSG_HEADER_SIZE, word, 0, 0);
      assert word[..] == RingRead(buf[..], tail, MSG_HEADER_SIZE);
      var len := FromLE(word[..]);
      if len > MaxMessageBytes(capacity) {
        tail := WrapAdd(tail, MSG_HEADER_SIZE);
        return None;
      }
      if MSG_HEADER_SIZE + len > capacity || avail < MSG_HEADER_SIZE + len { return None; }
      return Some(len);
    }

    method ConsumeFrame(len: nat)
      requires Valid()
      modifies this`tail
      ensures Valid() && tail == Behind(old(tail), len)
    {
      tail := WrapAdd(WrapAdd(tail, MSG_HEADER_SIZE), len);
    }

    method TryRecv() returns (r: Option<Bytes>)
      requires Valid()
      modifies this`tail
      ensures Valid()
      ensures match Peek(capacity, buf[..], head, old(tail))
        case NoFrame(next) => r == None && tail == next
        case FrameOf(len) => r == Some(Payload(buf[..], old(tail), len)) && tail == Behind(old(tail), len)
    {
      var frame := ReadableFrame();
      if frame == None { return None; }
      var payload := new Byte[frame.value];
      ReadBytes(WrapAdd(tail, MSG_HEADER_SIZE), frame.value, payload, 0, 0);
      assert payload[..] == Payload(buf[..], tail, frame.value);
      ConsumeFrame(frame.value);
      return Some(payload[..]);
    }

    /** Storage that is too short copies nothing and consumes nothing. */
    method TryRecvInto(output: array<Byte>, outputAddr: nat) returns (r: Into)
      requires Valid() && output != buf
      modifies this`tail, output
      ensures Valid()
      ensures match Peek(capacity, buf[..], head, old(tail))
        case NoFrame(next) => r == Empty && tail == next && output[..] == old(output[..])
        case FrameOf(len) =>
          && (output.Length < len ==> r == TooShort(len) && tail == old(tail) && output[..] == old(output[..]))
          && (output.Length >= len ==>
                && r == Filled(len) && tail == Behind(old(tail), len)
                && output[..] == Payload(buf[..], old(tail), len) + old(output[len..]))
    {
      var frame := ReadableFrame();
      if frame == None { return Empty; }
      var len := frame.value;
      if output.Length < len { return TooShort(len); }
      ReadBytes(WrapAdd(tail, MSG_HEADER_SIZE), len, output, 0, outputAddr);
      ConsumeFrame(len);
      return Filled(len);
    }

    /** The other side may write any byte of the shared buffer at any moment. */
    method Rewritten(host: Bytes)
      requires Valid() && |host| == capacity
      modifies buf
      ensures buf[..] == host
    {
      forall i | 0 <= i < buf.Length { buf[i] := host[i]; }
    }

    /**
     The owner decides from the length and a bounded prefix. Refusal, discard and short
     backing all consume exactly the one validated frame and publish no data. `host` is what
     the other side has made of the shared bytes by the time of the second copy: the data
     come from there, in the place and the length validated before, whatever it wrote.
     */
    method TryRecvWith(prefixLen: nat, owner: (nat, Bytes) -> OwnerChoice, host: Bytes) returns (r: With)
      requires Valid() && |host| == capacity
      modifies this`tail, buf
      ensures Valid()
      ensures match Peek(capacity, old(buf[..]), head, old(tail))
        case NoFrame(next) => r == WithNothing && tail == next
        case FrameOf(len) =>
          && tail == Behind(old(tail), len)
          && var copied := if len < prefixLen then len else prefixLen;
             match owner(len, Payload(old(buf[..]), old(tail), copied))
             case OwnerRefuses => r == WithRefused
             case OwnerDiscards => r == WithNothing
             case OwnerProvides(size) =>
               r == if size < len then WithTooShort else WithData(Payload(host, old(tail), len))
    {
      var frame := ReadableFrame();
      if frame == None { return WithNothing; }
      var len := frame.value;
      var copied := if len < prefixLen then len else prefixLen;
      var prefix := new Byte[copied];
      ReadBytes(WrapAdd(tail, MSG_HEADER_SIZE), copied, prefix, 0, 0);
      assert prefix[..] == Payload(buf[..], tail, copied);
      var choice := owner(len, prefix[..]);
      Rewritten(host);
      r := WithNothing;
      match choice {
        case OwnerRefuses => r := WithRefused;
        case OwnerDiscards =>
        case OwnerProvides(size) =>
          if size < len {
            r := WithTooShort;
          } else {
            var output := new Byte[len];
            ReadBytes(WrapAdd(tail, MSG_HEADER_SIZE), len, output, 0, 0);
            assert output[..] == Payload(buf[..], tail, len);
            r := WithData(output[..]);
          }
      }
      ConsumeFrame(len);
    }
  }
}
