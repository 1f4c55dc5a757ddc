/**
 The pool, its leases and the shared owner as objects: reserving and releasing bytes,
 cloning and dropping aliases of the two reference counts, and copy-on-write.
 Whether the allocator grants a container is a parameter of each call.
 */
module AllocationOwner {
  import opened Prelude

  const ISIZE_MAX: nat := U64 / 2 - 1

  class Pool {
    const capacity: nat
    const callback: bool
    var used: nat
    var gross: nat
    var rings: nat

    ghost predicate Valid() reads this {
      used <= capacity <= USIZE_MAX
    }

    constructor (c: nat, cb: bool)
      requires 0 < c <= USIZE_MAX
      ensures Valid() && capacity == c && callback == cb && used == 0 && gross == 0 && rings == 0
    {
      capacity, callback, used, gross, rings := c, cb, 0, 0, 0;
    }

    /** All or nothing: granted exactly when non-zero and within capacity. */
    method ReserveBackendBytes(bytes: nat) returns (ok: bool)
      requires Valid()
      modifies this
      ensures Valid() && rings == old(rings)
      ensures ok <==> bytes > 0 && old(used) + bytes <= capacity
      ensures used == old(used) + (if ok then bytes else 0)
      ensures gross == if ok then Saturating(old(gross), bytes) else old(gross)
    {
      if bytes == 0 { return false; }
      if used + bytes > USIZE_MAX || used + bytes > capacity { return false; }
      used := used + bytes;
      gross := Saturating(gross, bytes);
      return true;
    }

    method ReleaseBackendBytes(bytes: nat, notify: bool)
      requires Valid() && bytes <= used
      modifies this
      ensures Valid() && used == old(used) - bytes && gross == old(gross)
      ensures rings == old(rings) + if notify && callback then 1 else 0
    {
      used := used - bytes;
      if notify && callback { rings := rings + 1; }
    }
  }

  class Lease {
    const pool: Pool
    const bytes: nat
    var notify: bool

    constructor (p: Pool, b: nat, n: bool)
      ensures pool == p && bytes == b && notify == n
    {
      pool, bytes, notify := p, b, n;
    }

    method Drop()
      requires pool.Valid() && bytes <= pool.used
      modifies pool
      ensures pool.Valid() && pool.used == old(pool.used) - bytes && pool.gross == old(pool.gross)
      ensures pool.rings == old(pool.rings) + if notify && pool.callback then 1 else 0
    {
      pool.ReleaseBackendBytes(bytes, notify);
    }
  }

  method ReserveWithNotification(pool: Pool, bytes: nat, notify: bool) returns (lease: Lease?)
    requires pool.Valid()
    modifies pool
    ensures pool.Valid() && pool.rings == old(pool.rings)
    ensures lease != null <==> bytes > 0 && old(pool.used) + bytes <= pool.capacity
    ensures lease == null ==> pool.used == old(pool.used) && pool.gross == old(pool.gross)
    ensures lease != null ==>
      fresh(lease) && lease.pool == pool && lease.bytes == bytes && lease.notify == notify
      && pool.used == old(pool.used) + bytes && pool.gross == Saturating(old(pool.gross), bytes)
  {
    if bytes == 0 { return null; }
    var ok := pool.ReserveBackendBytes(bytes);
    if !ok { return null; }
    lease := new Lease(pool, bytes, notify);
  }

  class PayloadArc<T(0)> {
    var strong: nat
    var value: T
    var live: bool

    constructor (v: T)
      ensures strong == 1 && value == v && live
    {
      strong, value, live := 1, v, true;
    }
  }

  class CreditArc {
    var strong: nat
    const lease: Lease

    constructor (l: Lease)
      ensures strong == 1 && lease == l
    {
      strong, lease := 1, l;
    }
  }

  datatype Copied<T, E> = Copy(value: T) | Refused(error: E)
  datatype MutationError<E> = DifferentPool | Admission | AllocationRefused | CloneFailed(error: E)
  datatype Outcome<E> = Unique | Kept(error: MutationError<E>)

  /** Both container layouts and the declared children, or nothing on overflow. */
  function RequiredBytes(containers: nat, children: nat): Option<nat> {
    if containers + children > USIZE_MAX then None else Some(containers + children)
  }

  class SharedAllocation<T(0)> {
    var payload: PayloadArc?<T>
    var credit: CreditArc?

    /** A live alias: both references held, both counts positive, the credit still charged. */
    ghost predicate Live()
      reads this, payload, credit, (if credit == null then {} else {credit.lease, credit.lease.pool})
    {
      && payload != null && credit != null
      && payload.strong > 0 && payload.live && credit.strong > 0
      && credit.lease.pool.Valid() && credit.lease.bytes <= credit.lease.pool.used
    }

    constructor (p: PayloadArc<T>, c: CreditArc)
      ensures payload == p && credit == c
    {
      payload, credit := p, c;
    }

    method Clone() returns (other: SharedAllocation<T>)
      requires Live()
      modifies payload, credit
      ensures Live() && other.Live() && fresh(other)
      ensures other.payload == payload == old(payload) && other.credit == credit == old(credit)
      ensures payload.strong == old(payload.strong) + 1 && credit.strong == old(credit.strong) + 1
      ensures payload.value == old(payload.value)
    {
      payload.strong := payload.strong + 1;
      credit.strong := credit.strong + 1;
      other := new SharedAllocation<T>(payload, credit);
    }

    /** The payload goes with its last reference, the credit returns with its own last reference, and only then. */
    method Drop()
      requires Live()
      modifies this, payload, credit, credit.lease.pool
      ensures payload == null && credit == null
      ensures old(payload).strong == old(payload.strong) - 1 && old(credit).strong == old(credit.strong) - 1
      ensures old(payload).live <==> old(payload).strong > 0
      ensures old(payload).value == old(payload.value)
      ensures var lease := old(credit).lease;
        && lease.pool.Valid() && lease.pool.gross == old(credit.lease.pool.gross)
        && lease.pool.used == old(credit.lease.pool.used) - (if old(credit.strong) == 1 then lease.bytes else 0)
        && lease.pool.rings == old(credit.lease.pool.rings)
           + (if old(credit.strong) == 1 && lease.notify && lease.pool.callback then 1 else 0)
    {
      var p, c := payload, credit;
      payload := null;
      p.strong := p.strong - 1;
      if p.strong == 0 { p.live := false; }
      credit := null;
      c.strong := c.strong - 1;
      if c.strong == 0 { c.lease.Drop(); }
    }

    /**
     Reuse a sole payload or admit a full copy. Every refusal leaves this alias, both
     counts, the charge and the release callback as they were.
     */
    method TryMakeUniqueWith<E>(pool: Pool, containers: nat, children: nat, copy: T -> Copied<T, E>,
      containerOk: bool, payloadOk: bool)
      returns (r: Outcome<E>)
      requires Live() && pool.Valid()
      modifies this, payload, credit, pool
      ensures Live() && pool.Valid()
      ensures r.Kept? || old(payload.strong) == 1 ==>
        && payload == old(payload) && credit == old(credit)
        && payload.strong == old(payload.strong) && credit.strong == old(credit.strong)
        && payload.value == old(payload.value)
        && pool.used == old(pool.used) && pool.rings == old(pool.rings)
      ensures r == Kept(DifferentPool) <==> old(credit.lease.pool) != pool
      ensures old(credit.lease.pool) == pool && old(payload.strong) == 1 ==>
        (r == Unique <==> containers + children <= USIZE_MAX && containers + children <= credit.lease.bytes)
        && (r.Kept? ==> r.error == Admission)
      ensures old(credit.lease.pool) == pool && old(payload.strong) > 1 ==>
        r == (if containers + children == 0 || old(pool.used) + containers + children > pool.capacity
              then Kept(Admission)
              else match copy(old(payload.value))
                case Refused(e) => Kept(CloneFailed(e))
                case Copy(_) => if containerOk && payloadOk then Unique else Kept(AllocationRefused))
      ensures r == Unique && old(payload.strong) > 1 ==>
        && fresh(payload) && fresh(credit) && fresh(credit.lease)
        && payload.strong == 1 && credit.strong == 1
        && copy(old(payload.value)) == Copy(payload.value)
        && credit.lease.pool == pool && credit.lease.bytes == containers + children
        && credit.lease.notify == old(credit.lease.notify)
        && old(payload).strong == old(payload.strong) - 1 && old(payload).live &&
          old(payload).value == old(payload.value)
        && old(credit).strong == old(credit.strong) - 1
        && pool.used == old(pool.used) + containers + children
           - (if old(credit.strong) == 1 then old(credit.lease.bytes) else 0)
    {
      if credit.lease.pool != pool { return Kept(DifferentPool); }
      var notify := credit.lease.notify;
      var required := RequiredBytes(containers, children);
      if payload.strong == 1 {
        if required == None || credit.lease.bytes < required.value { return Kept(Admission); }
        return Unique;
      }
      if required == None { return Kept(Admission); }
      var lease := ReserveWithNotification(pool, required.value, false);
      if lease == null { return Kept(Admission); }
      var value := copy(payload.value);
      if value.Refused? {
        lease.Drop();
        return Kept(CloneFailed(value.error));
      }
      if !containerOk || !payloadOk {
        lease.Drop();
        return Kept(AllocationRefused);
      }
      var p := new PayloadArc<T>(value.value);
      var c := new CreditArc(lease);
      if notify { lease.notify := true; }
      Drop();
      payload, credit := p, c;
      return Unique;
    }
  }

  // ---- growth ------------------------------------------------------------------

  function Pow2(n: nat): (r: nat)
    ensures r > 0
  {
    if n == 0 then 1 else 2 * Pow2(n - 1)
  }

  /** The least power of two at or above `x`, searched upwards. */
  method NextPowerOfTwo(x: nat) returns (r: nat, ghost n: nat)
    requires x > 0
    ensures r == Pow2(n) && x <= r < 2 * x
    ensures forall m: nat :: x <= Pow2(m) ==> r <= Pow2(m)
  {
    r, n := 1, 0;
    while r < x
      invariant r == Pow2(n) && r < 2 * x
      invariant forall m: nat :: x <= Pow2(m) ==> r <= Pow2(m)
      decreases x - r
    {
      forall m: nat | x <= Pow2(m) ensures 2 * r <= Pow2(m) { Above(n, m); }
      r, n := 2 * r, n + 1;
    }
  }

  lemma {:induction false} Above(n: nat, m: nat)
    ensures Pow2(n) < Pow2(m) ==> 2 * Pow2(n) <= Pow2(m)
    decreases n + m
  {
    if n > 0 && m > 0 {
      Above(n - 1, m - 1);
    } else if m > 0 {
      assert Pow2(m) == 2 * Pow2(m - 1);
    }
  }

  lemma WordPower()
    ensures Pow2(62) == U64 / 4
  {
    assert Pow2(0) == 1 && Pow2(2) == 2 * Pow2(1) && Pow2(4) == 4 * Pow2(2) && Pow2(6) == 4 * Pow2(4);
    EightMore(6);
    EightMore(14);
    EightMore(22);
    EightMore(30);
    EightMore(38);
    EightMore(46);
    EightMore(54);
  }

  lemma EightMore(n: nat)
    ensures Pow2(n + 8) == 256 * Pow2(n)
  {
    assert Pow2(n + 2) == 4 * Pow2(n) && Pow2(n + 4) == 4 * Pow2(n + 2);
    assert Pow2(n + 6) == 4 * Pow2(n + 4) && Pow2(n + 8) == 4 * Pow2(n + 6);
  }

  /** Geometric growth inside the caller's maximum: at most doubled, never short, never above what can be laid out. */
  method BoundedVecCapacity(required: nat, maximum: nat) returns (r: Option<nat>)
    requires required <= USIZE_MAX && maximum <= USIZE_MAX
    ensures r == None <==> required == 0 || required > maximum || (required > U64 / 4 && maximum > ISIZE_MAX)
    ensures r.Some? ==> required <= r.value <= maximum && r.value <= ISIZE_MAX
    ensures r.Some? && r.value != maximum ==> r.value < 2 * required && exists n: nat :: r.value == Pow2(n)
    ensures r.Some? ==> forall m: nat :: required <= Pow2(m) <= maximum ==> r.value <= Pow2(m)
  {
    if required == 0 || required > maximum { return None; }
    var next, n := NextPowerOfTwo(required);
    WordPower();
    Above(62, n);
    var capacity := if next <= USIZE_MAX && next <= maximum then next else maximum;
    if capacity > ISIZE_MAX { return None; }
    return Some(capacity);
  }
}
