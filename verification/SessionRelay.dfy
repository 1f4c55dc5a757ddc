/**
 The sealed-session table: replay counters, server nonce counters, a sliding expiry and a
 periodic sweep. Whether a sealed body authenticates is a parameter of the call; each
 bootstrap gets a key of its own, named by its generation.
 */
module SessionRelay {
  import opened Prelude

  const TTL: nat := 900
  const SWEEP_EVERY: nat := 60
  const I63: nat := U64 / 2

  type Sid = Bytes

  datatype Entry = Entry(gen: nat, lastSeen: int, s2cNext: nat, expiresAt: nat)
  datatype Table = Table(sessions: map<Sid, Entry>, lastSweep: nat)

  datatype Reply =
    Opened(gen: nat, ctr: nat) | Sealed(gen: nat, ctr: nat) | UnknownSession | Replay | BadEnvelope | Crypto | Internal

  /** A 64-bit word read as a signed one. */
  function Signed(ctr: nat): int {
    if ctr < I63 then ctr else ctr - U64
  }

  // ---- the operations -----------------------------------------------------------

  predicate SweepDue(t: Table, now: nat) {
    now >= (t.lastSweep + SWEEP_EVERY) % U64
  }

  function Sweep(t: Table, now: nat): Table {
    if !SweepDue(t, now) then t
    else Table(map sid | sid in t.sessions && t.sessions[sid].expiresAt > now :: t.sessions[sid], now)
  }

  function Bootstrap(t: Table, sid: Sid, gen: nat, now: nat): Table {
    t.(sessions := t.sessions[sid := Entry(gen, -1, 0, Saturating(now, TTL))])
  }

  function Forget(t: Table, sid: Sid): Table {
    t.(sessions := t.sessions - {sid})
  }

  /** `ctr` is what the envelope decoded to, `authentic` whether its body opens under the session key. */
  function Open(t: Table, sid: Sid, ctr: Option<nat>, authentic: bool, now: nat): (Table, Reply) {
    if ctr.None? then (t, BadEnvelope)
    else if sid !in t.sessions then (t, UnknownSession)
    else
      var e := t.sessions[sid];
      if e.expiresAt <= now then (Forget(t, sid), UnknownSession)
      else if Signed(ctr.value) <= e.lastSeen then (t, Replay)
      else if !authentic then (t, Crypto)
      else (t.(sessions := t.sessions[sid := e.(lastSeen := Signed(ctr.value), expiresAt := Saturating(now, TTL))]),
            Opened(e.gen, ctr.value))
  }

  /** The counter is spent before sealing is tried. */
  function Seal(t: Table, sid: Sid, seals: bool, now: nat): (Table, Reply) {
    if sid !in t.sessions then (t, UnknownSession)
    else
      var e := t.sessions[sid];
      if e.expiresAt <= now then (Forget(t, sid), UnknownSession)
      else if e.s2cNext + 1 >= U64 then (t, Internal)
      else (t.(sessions := t.sessions[sid := e.(s2cNext := e.s2cNext + 1)]),
            if seals then Sealed(e.gen, e.s2cNext) else Crypto)
  }

  predicate Known(t: Table, sid: Sid, now: nat) {
    sid in t.sessions && t.sessions[sid].expiresAt > now
  }

  /** A request that is not opened never makes any session live longer. */
  lemma RefusalExtendsNothing(t: Table, sid: Sid, ctr: Option<nat>, authentic: bool, now: nat, other: Sid)
    requires !Open(t, sid, ctr, authentic, now).1.Opened?
    ensures var u := Open(t, sid, ctr, authentic, now).0;
      other in u.sessions ==> other in t.sessions && u.sessions[other] == t.sessions[other]
  {
  }

  /** A new session takes any counter below 2^63, refuses every other as a replay, and lives for its time. */
  lemma FreshSession(t: Table, sid: Sid, gen: nat, now: nat, ctr: nat, later: nat)
    requires ctr < U64
    ensures var u := Bootstrap(t, sid, gen, now);
      && (Known(u, sid, later) <==> later < Saturating(now, TTL))
      && (later < Saturating(now, TTL) ==>
           Open(u, sid, Some(ctr), true, later).1 == if ctr < I63 then Opened(gen, ctr) else Replay)
  {
  }

  /** An opened request keeps its session for a whole time to live from then on, and no other session. */
  lemma OpenedLivesOn(t: Table, sid: Sid, ctr: nat, now: nat, later: nat, other: Sid)
    requires Open(t, sid, Some(ctr), true, now).1.Opened?
    ensures var u := Open(t, sid, Some(ctr), true, now).0;
      && (Known(u, sid, later) <==> later < Saturating(now, TTL))
      && (other != sid ==> (Known(u, other, later) <==> Known(t, other, later)))
  {
  }

  // ---- runs -------------------------------------------------------------------------

  datatype Event =
    | BootstrapAt(sid: Sid, now: nat)
    | OpenAt(sid: Sid, ctr: Option<nat>, authentic: bool, now: nat)
    | SealAt(sid: Sid, seals: bool, now: nat)
    | KnownAt(sid: Sid, now: nat)

  /** What a caller sees of one event. */
  datatype Seen = Started | Answered(reply: Reply) | IsKnown(yes: bool)

  /** `gens` keys were handed out; the replies stand in order. */
  datatype State = State(table: Table, gens: nat, seen: seq<Seen>)

  predicate WordCtr(ctr: Option<nat>) {
    ctr.Some? ==> ctr.value < U64
  }

  function Step(s: State, e: Event, sweeps: bool): State {
    match e
    case BootstrapAt(sid, now) =>
      var t := if sweeps then Sweep(s.table, now) else s.table;
      State(Bootstrap(t, sid, s.gens, now), s.gens + 1, s.seen + [Started])
    case OpenAt(sid, ctr, authentic, now) =>
      var t := if sweeps then Sweep(s.table, now) else s.table;
      var r := Open(t, sid, ctr, authentic, now);
      s.(table := r.0, seen := s.seen + [Answered(r.1)])
    case SealAt(sid, seals, now) =>
      var r := Seal(s.table, sid, seals, now);
      s.(table := r.0, seen := s.seen + [Answered(r.1)])
    case KnownAt(sid, now) => s.(seen := s.seen + [IsKnown(Known(s.table, sid, now))])
  }

  function Run(s: State, events: seq<Event>, sweeps: bool): State {
    if events == [] then s else Step(Run(s, events[..|events| - 1], sweeps), events[|events| - 1], sweeps)
  }

  function Start(): State {
    State(Table(map[], 0), 0, [])
  }

  // ---- counters ------------------------------------------------------------------------

  predicate OpenedAs(x: Seen, gen: nat) {
    x.Answered? && x.reply.Opened? && x.reply.gen == gen
  }

  predicate SealedAs(x: Seen, gen: nat) {
    x.Answered? && x.reply.Sealed? && x.reply.gen == gen
  }

  /** Each session has its own key, and its counters are past everything that key was used for. */
  ghost predicate Ahead(s: State) {
    && (forall sid :: sid in s.table.sessions ==>
         s.table.sessions[sid].gen < s.gens && -1 <= s.table.sessions[sid].lastSeen < I63)
    && (forall a, b :: a in s.table.sessions && b in s.table.sessions && a != b ==>
         s.table.sessions[a].gen != s.table.sessions[b].gen)
    && (forall i, sid ::
         0 <= i < |s.seen| && sid in s.table.sessions && OpenedAs(s.seen[i], s.table.sessions[sid].gen) ==>
         s.seen[i].reply.ctr <= s.table.sessions[sid].lastSeen)
    && (forall i, sid ::
         0 <= i < |s.seen| && sid in s.table.sessions && SealedAs(s.seen[i], s.table.sessions[sid].gen) ==>
         s.seen[i].reply.ctr < s.table.sessions[sid].s2cNext)
  }

  ghost predicate Monotone(seen: seq<Seen>, gens: nat) {
    && (forall i :: 0 <= i < |seen| && seen[i].Answered? && seen[i].reply.Opened? ==>
         seen[i].reply.gen < gens && seen[i].reply.ctr < I63)
    && (forall i :: 0 <= i < |seen| && seen[i].Answered? && seen[i].reply.Sealed? ==>
         seen[i].reply.gen < gens && seen[i].reply.ctr < U64 - 1)
    && (forall i, j ::
         0 <= i < j < |seen| && seen[i].Answered? && seen[i].reply.Opened? && OpenedAs(seen[j], seen[i].reply.gen) ==>
         seen[i].reply.ctr < seen[j].reply.ctr)
    && (forall i, j ::
         0 <= i < j < |seen| && seen[i].Answered? && seen[i].reply.Sealed? && SealedAs(seen[j], seen[i].reply.gen) ==>
         seen[i].reply.ctr < seen[j].reply.ctr)
  }

  ghost predicate Inv(s: State) {
    Ahead(s) && Monotone(s.seen, s.gens)
  }

  predicate EventOk(e: Event) {
    e.OpenAt? ==> WordCtr(e.ctr)
  }

  lemma SweepKeepsAhead(s: State, now: nat)
    requires Ahead(s)
    ensures Ahead(s.(table := Sweep(s.table, now)))
  {
  }

  predicate Plain(x: Seen) {
    !(x.Answered? && (x.reply.Opened? || x.reply.Sealed?))
  }

  /** An answer that uses no counter leaves the history monotone. */
  lemma PlainMonotone(seen: seq<Seen>, gens: nat, x: Seen)
    requires Monotone(seen, gens) && Plain(x)
    ensures Monotone(seen + [x], gens)
  {
  }

  /** Losing sessions and giving plain answers keeps counters ahead. */
  lemma PlainKeepsInv(s: State, t: Table, x: Seen)
    requires Inv(s) && Plain(x)
    requires forall sid :: sid in t.sessions ==> sid in s.table.sessions && t.sessions[sid] == s.table.sessions[sid]
    ensures Inv(s.(table := t, seen := s.seen + [x]))
  {
    PlainMonotone(s.seen, s.gens, x);
  }

  /** The next counter of a key extends the history. */
  lemma CounterMonotone(seen: seq<Seen>, gens: nat, r: Reply)
    requires Monotone(seen, gens) && (r.Opened? || r.Sealed?) && r.gen < gens
    requires if r.Opened? then r.ctr < I63 else r.ctr < U64 - 1
    requires forall i ::
      0 <= i < |seen| && (if r.Opened? then OpenedAs(seen[i], r.gen) else SealedAs(seen[i], r.gen)) ==>
      seen[i].reply.ctr < r.ctr
    ensures Monotone(seen + [Answered(r)], gens)
  {
  }

  /** A session's new counters cover the old history and the new answer. */
  lemma AheadAfter(s: State, sid: Sid, e: Entry, x: Seen)
    requires Ahead(s) && sid in s.table.sessions
    requires var old_ := s.table.sessions[sid];
      e.gen == old_.gen && old_.lastSeen <= e.lastSeen < I63 && old_.s2cNext <= e.s2cNext
    requires x.Answered? && x.reply.Opened? ==> x.reply.gen == e.gen && x.reply.ctr <= e.lastSeen
    requires x.Answered? && x.reply.Sealed? ==> x.reply.gen == e.gen && x.reply.ctr < e.s2cNext
    ensures Ahead(s.(table := s.table.(sessions := s.table.sessions[sid := e]), seen := s.seen + [x]))
  {
  }

  lemma OpenKeepsInv(s: State, sid: Sid, ctr: Option<nat>, authentic: bool, now: nat)
    requires Inv(s) && WordCtr(ctr)
    ensures var r := Open(s.table, sid, ctr, authentic, now); Inv(s.(table := r.0, seen := s.seen + [Answered(r.1)]))
  {
    var r := Open(s.table, sid, ctr, authentic, now);
    if r.1.Opened? {
      AheadAfter(s, sid, r.0.sessions[sid], Answered(r.1));
      CounterMonotone(s.seen, s.gens, r.1);
    } else {
      PlainKeepsInv(s, r.0, Answered(r.1));
    }
  }

  lemma SealKeepsInv(s: State, sid: Sid, seals: bool, now: nat)
    requires Inv(s)
    ensures var r := Seal(s.table, sid, seals, now); Inv(s.(table := r.0, seen := s.seen + [Answered(r.1)]))
  {
    var r := Seal(s.table, sid, seals, now);
    if r.1.Sealed? {
      AheadAfter(s, sid, r.0.sessions[sid], Answered(r.1));
      CounterMonotone(s.seen, s.gens, r.1);
    } else if r.1.Crypto? {
      AheadAfter(s, sid, r.0.sessions[sid], Answered(r.1));
      PlainMonotone(s.seen, s.gens, Answered(r.1));
    } else {
      PlainKeepsInv(s, r.0, Answered(r.1));
    }
  }

  lemma BootstrapKeepsInv(s: State, sid: Sid, now: nat)
    requires Inv(s)
    ensures Inv(State(Bootstrap(s.table, sid, s.gens, now), s.gens + 1, s.seen + [Started]))
  {
    hide Ahead, Monotone;
    BootstrapMonotone(s.seen, s.gens);
    BootstrapAhead(s, sid, now);
  }

  lemma BootstrapMonotone(seen: seq<Seen>, gens: nat)
    requires Monotone(seen, gens)
    ensures Monotone(seen + [Started], gens + 1)
  {
    PlainMonotone(seen, gens, Started);
  }

  /** A new key has no history. */
  lemma BootstrapAhead(s: State, sid: Sid, now: nat)
    requires Inv(s)
    ensures Ahead(State(Bootstrap(s.table, sid, s.gens, now), s.gens + 1, s.seen + [Started]))
  {
  }

  lemma StepKeepsInv(s: State, e: Event, sweeps: bool)
    requires Inv(s) && EventOk(e)
    ensures Inv(Step(s, e, sweeps))
  {
    hide Ahead, Monotone, Open, Seal, Sweep;
    match e
    case BootstrapAt(sid, now) =>
      var t := SweptFirst(s, now, sweeps);
      BootstrapKeepsInv(t, sid, now);
    case OpenAt(sid, ctr, authentic, now) =>
      var t := SweptFirst(s, now, sweeps);
      OpenKeepsInv(t, sid, ctr, authentic, now);
    case SealAt(sid, seals, now) => SealKeepsInv(s, sid, seals, now);
    case KnownAt(sid, now) => PlainKeepsInv(s, s.table, IsKnown(Known(s.table, sid, now)));
  }

  lemma SweptFirst(s: State, now: nat, sweeps: bool) returns (t: State)
    requires Inv(s)
    ensures t == s.(table := if sweeps then Sweep(s.table, now) else s.table) && Inv(t)
  {
    t := s.(table := if sweeps then Sweep(s.table, now) else s.table);
    SweepKeepsAhead(s, now);
  }

  ghost predicate EventsOk(events: seq<Event>) {
    forall i :: 0 <= i < |events| ==> EventOk(events[i])
  }

  lemma {:induction false} RunKeepsInv(events: seq<Event>, sweeps: bool)
    requires EventsOk(events)
    ensures Inv(Run(Start(), events, sweeps))
  {
    if events != [] {
      RunKeepsInv(events[..|events| - 1], sweeps);
      StepKeepsInv(Run(Start(), events[..|events| - 1], sweeps), events[|events| - 1], sweeps);
    }
  }

  /** Per key, the client counters that were accepted strictly increase and stay below 2^63. */
  lemma AcceptedCountersIncrease(events: seq<Event>, sweeps: bool, i: nat, j: nat)
    requires EventsOk(events)
    ensures var seen := Run(Start(), events, sweeps).seen;
      i < j < |seen| && seen[i].Answered? && seen[i].reply.Opened? && OpenedAs(seen[j], seen[i].reply.gen) ==>
        seen[i].reply.ctr < seen[j].reply.ctr < I63
  {
    RunKeepsInv(events, sweeps);
  }

  /** Per key, no server counter seals twice. */
  lemma ServerNoncesDiffer(events: seq<Event>, sweeps: bool, i: nat, j: nat)
    requires EventsOk(events)
    ensures var seen := Run(Start(), events, sweeps).seen;
      i < j < |seen| && seen[i].Answered? && seen[i].reply.Sealed? && SealedAs(seen[j], seen[i].reply.gen) ==>
        seen[i].reply.ctr != seen[j].reply.ctr
  {
    RunKeepsInv(events, sweeps);
  }
}
