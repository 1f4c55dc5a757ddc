/**
 The shared-memory ring: length-framed messages in a power-of-two byte buffer between a
 producer-owned and a consumer-owned 64-bit counter that wrap around.
 */
module Ring {
  import opened Prelude

  const MSG_HEADER_SIZE: nat := 4
  const MIN_CAPACITY: nat := 4096
  const MAX_CAPACITY: nat := 16 * 1024 * 1024
  const MAX_RING_FRAME_BYTES: nat := 4 * 1024 * 1024

  // ---- geometry ------------------------------------------------------------

  predicate IsPowerOfTwo(n: nat) {
    n == 1 || (n > 1 && n % 2 == 0 && IsPowerOfTwo(n / 2))
  }

  predicate CapacityValid(cap: nat) {
    IsPowerOfTwo(cap) && MIN_CAPACITY <= cap <= MAX_CAPACITY
  }

  function MaxMessageBytes(cap: nat): nat {
    var frame := if cap < MAX_RING_FRAME_BYTES then cap else MAX_RING_FRAME_BYTES;
    if frame < MSG_HEADER_SIZE then 0 else frame - MSG_HEADER_SIZE
  }

  lemma {:induction false} PowersDivide(n: nat, m: nat)
    requires IsPowerOfTwo(n) && IsPowerOfTwo(m) && n <= m
    ensures m % n == 0
  {
    if n > 1 {
      PowersDivide(n / 2, m / 2);
      var half, q := n / 2, m / 2 / (n / 2);
      assert m / 2 == q * half;
      assert m == q * n + 0 by { assert q * n == q * (2 * half) == 2 * (q * half); }
      DivModUnique(m, n, q, 0);
    }
  }

  lemma Doubled(p: nat)
    requires IsPowerOfTwo(p)
    ensures IsPowerOfTwo(2 * p)
  {
    assert 2 * p % 2 == 0 && 2 * p / 2 == p;
  }

  lemma {:induction false} WordIsPower(width: nat)
    ensures IsPowerOfTwo(Pow256(width))
  {
    if width > 0 {
      WordIsPower(width - 1);
      var p := Pow256(width - 1);
      Doubled(p); Doubled(2 * p); Doubled(4 * p); Doubled(8 * p);
      Doubled(16 * p); Doubled(32 * p); Doubled(64 * p); Doubled(128 * p);
    }
  }

  /** Masking a wrapped counter with `capacity - 1` is the remainder of the true position. */
  lemma CapacityDivides(cap: nat)
    requires CapacityValid(cap)
    ensures U64 % cap == 0
  {
    WordSizes();
    WordIsPower(8);
    PowersDivide(cap, U64);
  }

  // ---- wrapping counters ---------------------------------------------------

  function WrapAdd(a: nat, b: nat): (r: nat)
    ensures r < U64
  {
    (a + b) % U64
  }

  function WrapSub(a: nat, b: nat): (r: nat)
    ensures r < U64
  {
    (a - b) % U64
  }

  lemma WrapAddTrue(position: nat, k: nat)
    ensures WrapAdd(position % U64, k) == (position + k) % U64
  {
    ModShift(position % U64 + k, position / U64, U64);
    assert position + k == position / U64 * U64 + (position % U64 + k);
  }

  lemma WrapSubTrue(a: nat, b: nat)
    requires b <= a < b + U64
    ensures WrapSub(a % U64, b % U64) == a - b
  {
    var k := b / U64 - a / U64;
    assert a == a / U64 * U64 + a % U64 && b == b / U64 * U64 + b % U64;
    assert a % U64 - b % U64 == k * U64 + (a - b);
    ModShift(a - b, k, U64);
  }

  // ---- frames --------------------------------------------------------------

  function Frame(msg: Bytes): (f: Bytes)
    ensures |f| == MSG_HEADER_SIZE + |msg|
  {
    LE(|msg|, MSG_HEADER_SIZE) + msg
  }

  /** All frames of a message sequence, one after the other. */
  function Stream(msgs: seq<Bytes>): Bytes {
    if msgs == [] then [] else Stream(msgs[..|msgs| - 1]) + Frame(msgs[|msgs| - 1])
  }

  lemma StreamSnoc(msgs: seq<Bytes>, msg: Bytes)
    ensures Stream(msgs + [msg]) == Stream(msgs) + Frame(msg)
  {
    assert (msgs + [msg])[..|msgs|] == msgs;
  }

  lemma {:induction false} StreamPrefix(msgs: seq<Bytes>, r: nat)
    requires r <= |msgs|
    ensures Stream(msgs[..r]) <= Stream(msgs)
    decreases |msgs|
  {
    if r < |msgs| {
      StreamPrefix(msgs[..|msgs| - 1], r);
      assert msgs[..|msgs| - 1][..r] == msgs[..r];
    } else {
      assert msgs[..r] == msgs;
    }
  }

  /** The `r`-th frame sits in the stream right behind the frames before it. */
  lemma StreamAt(msgs: seq<Bytes>, r: nat)
    requires r < |msgs|
    ensures var start := |Stream(msgs[..r])|;
      start + |Frame(msgs[r])| <= |Stream(msgs)| && Stream(msgs)[start..start + |Frame(msgs[r])|] == Frame(msgs[r])
  {
    StreamPrefix(msgs, r + 1);
    assert msgs[..r + 1][..r] == msgs[..r];
    var start := |Stream(msgs[..r])|;
    assert Stream(msgs[..r + 1]) == Stream(msgs[..r]) + Frame(msgs[r]);
    assert Stream(msgs)[..|Stream(msgs[..r + 1])|] == Stream(msgs[..r + 1]);
  }

  lemma HeaderLength(msg: Bytes)
    requires |msg| < U32
    ensures FromLE(Frame(msg)[..4]) == |msg| && Frame(msg)[4..] == msg
  {
    WordSizes();
    LERoundTrip(|msg|, 4);
    assert Frame(msg)[..4] == LE(|msg|, 4);
  }

  // ---- the decisions both sides make ---------------------------------------

  /** The producer's length and space check on its own head and a loaded tail. */
  predicate CanSend(cap: nat, head: nat, tail: nat, len: nat) {
    && len <= MaxMessageBytes(cap)
    && WrapSub(head, tail) <= cap
    && cap - WrapSub(head, tail) >= MSG_HEADER_SIZE + len
  }

  /** A message and its four-byte length go in exactly when they fit the free space and a frame of 4 MiB. */
  lemma SendExactly(cap: nat, head: nat, tail: nat, len: nat)
    requires CapacityValid(cap)
    ensures CanSend(cap, head, tail, len) <==> 4 + len <= 4 * 1024 * 1024 && (head - tail) % U64 + 4 + len <= cap
  {
  }

  /** An empty ring takes a message exactly when the frame fits the ring and 4 MiB, wherever its counters stand. */
  lemma EmptyAccepts(cap: nat, head: nat, len: nat)
    requires CapacityValid(cap)
    ensures CanSend(cap, head, head, len) <==> 4 + len <= cap && 4 + len <= 4 * 1024 * 1024
  {
    SendExactly(cap, head, head, len);
  }

  /** The thirteen powers of two from 4 KiB to 16 MiB. */
  lemma CapacityValues(cap: nat)
    ensures CapacityValid(cap) <==>
      cap in {4096, 8192, 16384, 32768, 65536, 131072, 262144, 524288, 1048576, 2097152, 4194304, 8388608, 16777216}
  {
    hide IsPowerOfTwo;
    PowersFrom(4096);
    PowersFrom(65536);
    PowersFrom(1048576);
    if CapacityValid(cap) {
      if cap <= 65536 {
        DoublesBetween(cap, 4096);
      } else if cap <= 1048576 {
        DoublesBetween(cap, 65536);
      } else {
        DoublesBetween(cap, 1048576);
      }
    }
  }

  lemma PowersFrom(p: nat)
    requires p == 4096 || p == 65536 || p == 1048576
    ensures IsPowerOfTwo(p) && IsPowerOfTwo(2 * p) && IsPowerOfTwo(4 * p) && IsPowerOfTwo(8 * p) && IsPowerOfTwo(16 * p)
  {
    hide IsPowerOfTwo;
    assert IsPowerOfTwo(1) by { OneIsPower(); }
    SixteenTimes(1);
    SixteenTimes(16);
    SixteenTimes(256);
    SixteenTimes(4096);
    SixteenTimes(65536);
    SixteenTimes(1048576);
  }

  lemma OneIsPower()
    ensures IsPowerOfTwo(1)
  {
  }

  lemma SixteenTimes(p: nat)
    requires IsPowerOfTwo(p)
    ensures IsPowerOfTwo(2 * p) && IsPowerOfTwo(4 * p) && IsPowerOfTwo(8 * p) && IsPowerOfTwo(16 * p)
  {
    hide IsPowerOfTwo;
    Doubled(p);
    Doubled(2 * p);
    Doubled(4 * p);
    Doubled(8 * p);
  }

  lemma DoublesBetween(n: nat, p: nat)
    requires IsPowerOfTwo(p) && IsPowerOfTwo(n) && p <= n <= 16 * p
    ensures n == p || n == 2 * p || n == 4 * p || n == 8 * p || n == 16 * p
  {
    hide IsPowerOfTwo;
    SixteenTimes(p);
    PowerBetween(n, p);
    PowerBetween(n, 2 * p);
    PowerBetween(n, 4 * p);
    PowerBetween(n, 8 * p);
  }

  /** No power of two lies strictly between one and its double. */
  lemma {:induction false} PowerBetween(n: nat, p: nat)
    requires IsPowerOfTwo(p)
    ensures p < n < 2 * p ==> !IsPowerOfTwo(n)
  {
    if p > 1 && n > 1 && n % 2 == 0 { PowerBetween(n / 2, p / 2); }
  }

  /** The consumer takes a frame exactly within its bounds and skips exactly an oversized length word. */
  lemma JudgeExactly(cap: nat, avail: nat, len: nat)
    requires CapacityValid(cap)
    ensures Judge(cap, avail, len) == Readable <==> 4 + len <= cap && 4 + len <= 4 * 1024 * 1024 && 4 + len <= avail
    ensures Judge(cap, avail, len) == Corrupt <==> 4 + len > cap || 4 + len > 4 * 1024 * 1024
  {
  }

  /** The consumer's first check on a loaded head and its own tail. */
  predicate HasHeader(cap: nat, head: nat, tail: nat) {
    MSG_HEADER_SIZE <= WrapSub(head, tail) <= cap
  }

  datatype Verdict = Corrupt | Incomplete | Readable

  function Judge(cap: nat, avail: nat, len: nat): Verdict {
    if len > MaxMessageBytes(cap) then Corrupt
    else if MSG_HEADER_SIZE + len > cap || avail < MSG_HEADER_SIZE + len then Incomplete
    else Readable
  }
}
