/**
 What a live session does for its client: exactly which requests are opened, under which
 counters responses are sealed, and that a client who counts up and comes back in time is
 always served, whatever happens to other sessions meanwhile.
 */
module SessionService {
  import opened Prelude
  import opened SessionRelay

  // ---- one call ------------------------------------------------------------------

  /** A request is opened exactly under a counter below 2^63 and above all opened before, while the session lives. */
  lemma OpenExactly(t: Table, sid: Sid, ctr: Option<nat>, authentic: bool, now: nat)
    requires WordCtr(ctr) && (sid in t.sessions ==> t.sessions[sid].lastSeen >= -1)
    ensures var r := Open(t, sid, ctr, authentic, now).1;
      var live := sid in t.sessions && t.sessions[sid].expiresAt > now;
      var newer := ctr.Some? && live && t.sessions[sid].lastSeen < ctr.value < 0x8000_0000_0000_0000;
      && (r == BadEnvelope <==> ctr == None)
      && (r == UnknownSession <==> ctr.Some? && !live)
      && (r == Replay <==> ctr.Some? && live && !newer)
      && (r == Crypto <==> newer && !authentic)
      && (r.Opened? <==> newer && authentic)
      && (r.Opened? ==> r == Opened(t.sessions[sid].gen, ctr.value))
  {
  }

  /** A request changes its own session only: it goes when found expired, moves on when opened and stays otherwise. */
  lemma OpenEffect(t: Table, sid: Sid, ctr: Option<nat>, authentic: bool, now: nat, other: Sid)
    requires WordCtr(ctr) && (sid in t.sessions ==> t.sessions[sid].lastSeen >= -1)
    ensures var (u, r) := Open(t, sid, ctr, authentic, now);
      && u.lastSweep == t.lastSweep
      && (other != sid ==>
           && (other in u.sessions <==> other in t.sessions)
           && (other in u.sessions ==> u.sessions[other] == t.sessions[other]))
      && (sid in u.sessions <==> sid in t.sessions && (ctr.None? || t.sessions[sid].expiresAt > now))
      && (r.Opened? ==>
           u.sessions[sid] ==
             t.sessions[sid].(lastSeen := ctr.value, expiresAt := if now + 900 < U64 then now + 900 else U64 - 1))
      && (!r.Opened? && sid in u.sessions ==> u.sessions[sid] == t.sessions[sid])
  {
  }

  /** After an opened request every greater authentic counter is opened for another fifteen minutes, and no other. */
  lemma NextCounterOpens(t: Table, sid: Sid, c: nat, now: nat, ctr: nat, later: nat)
    requires Open(t, sid, Some(c), true, now).1.Opened? && ctr < U64 && c < 0x8000_0000_0000_0000
    requires later < now + 900 < U64
    ensures var (u, first) := Open(t, sid, Some(c), true, now);
      Open(u, sid, Some(ctr), true, later).1 ==
        if c < ctr < 0x8000_0000_0000_0000 then Opened(first.gen, ctr) else Replay
  {
  }

  /** A live session seals under its next counter until 2^64 - 1, and spends it even when sealing fails. */
  lemma SealExactly(t: Table, sid: Sid, seals: bool, now: nat)
    ensures var (u, r) := Seal(t, sid, seals, now);
      && (r == UnknownSession <==> sid !in t.sessions || t.sessions[sid].expiresAt <= now)
      && (r == UnknownSession ==> u == t.(sessions := t.sessions - {sid}))
      && (sid in t.sessions && t.sessions[sid].expiresAt > now ==>
           var e := t.sessions[sid];
           if e.s2cNext >= 0xFFFF_FFFF_FFFF_FFFF then r == Internal && u == t
           else
             && r == (if seals then Sealed(e.gen, e.s2cNext) else Crypto)
             && u == t.(sessions := t.sessions[sid := e.(s2cNext := e.s2cNext + 1)]))
  {
  }

  /** A sweep is due sixty seconds after the last, on a 64-bit clock, and then drops exactly the expired sessions. */
  lemma SweepExactly(t: Table, now: nat, sid: Sid)
    ensures var (u, due) := (Sweep(t, now), now >= (t.lastSweep + 60) % U64);
      && (sid in u.sessions <==> sid in t.sessions && (!due || t.sessions[sid].expiresAt > now))
      && (sid in u.sessions ==> u.sessions[sid] == t.sessions[sid])
      && u.lastSweep == if due then now else t.lastSweep
  {
  }

  /** A session starts under its own key with no counter used and fifteen minutes to live. */
  lemma BootstrapExactly(t: Table, sid: Sid, gen: nat, now: nat)
    ensures Bootstrap(t, sid, gen, now) ==
      t.(sessions := t.sessions[sid := Entry(gen, -1, 0, if now + 900 < U64 then now + 900 else U64 - 1)])
  {
  }

  // ---- a client that keeps to the rules ----------------------------------------------

  /** The greatest counter sent for the session so far. */
  function LastCounter(events: seq<Event>, sid: Sid): int {
    if events == [] then -1
    else
      var e := events[|events| - 1];
      if e.OpenAt? && e.sid == sid && e.ctr.Some? then e.ctr.value else LastCounter(events[..|events| - 1], sid)
  }

  /** When the session runs out: fifteen minutes after its last request, or after its start. */
  function LivesUntil(events: seq<Event>, sid: Sid, started: nat): nat {
    if events == [] then started + 900
    else
      var e := events[|events| - 1];
      if e.OpenAt? && e.sid == sid then e.now + 900 else LivesUntil(events[..|events| - 1], sid, started)
  }

  function Responses(events: seq<Event>, sid: Sid): nat {
    if events == [] then 0
    else
      var e := events[|events| - 1];
      Responses(events[..|events| - 1], sid) + if e.SealAt? && e.sid == sid then 1 else 0
  }

  /** One more step in the session's life: in time, and under a greater counter if it is a request of its own. */
  predicate KeepsTo(events: seq<Event>, e: Event, sid: Sid, started: nat) {
    && e.now < LivesUntil(events, sid, started)
    && (e.sid == sid ==>
         match e
         case BootstrapAt(_, _) => false
         case OpenAt(_, ctr, authentic, now) =>
           ctr.Some? && LastCounter(events, sid) < ctr.value < 0x8000_0000_0000_0000 && authentic && now + 900 < U64
         case SealAt(_, _, _) => Responses(events, sid) < 0xFFFF_FFFF_FFFF_FFFF
         case KnownAt(_, _) => true)
  }

  /** Everything after the start of the session keeps to the rules; other sessions may do anything in its lifetime. */
  predicate Proper(events: seq<Event>, sid: Sid, started: nat) {
    events != [] ==>
      var front := events[..|events| - 1];
      Proper(front, sid, started) && KeepsTo(front, events[|events| - 1], sid, started)
  }

  ghost predicate Held(s: State, events: seq<Event>, sid: Sid, gen: nat, started: nat) {
    sid in s.table.sessions
      && s.table.sessions[sid] ==
           Entry(gen, LastCounter(events, sid), Responses(events, sid), LivesUntil(events, sid, started))
  }

  lemma SweepKeepsLive(t: Table, now: nat, sid: Sid)
    requires sid in t.sessions && t.sessions[sid].expiresAt > now
    ensures sid in Sweep(t, now).sessions && Sweep(t, now).sessions[sid] == t.sessions[sid]
  {
  }

  lemma OtherLeaves(s: State, e: Event, sid: Sid)
    requires e.sid != sid && sid in s.table.sessions && s.table.sessions[sid].expiresAt > e.now
    ensures var t := Step(s, e, true).table; sid in t.sessions && t.sessions[sid] == s.table.sessions[sid]
  {
    SweepKeepsLive(s.table, e.now, sid);
  }

  /** What the client of the session sees of a step that keeps to the rules. */
  function Expected(events: seq<Event>, e: Event, sid: Sid, gen: nat): Seen
    requires e.sid == sid && !e.BootstrapAt? && (e.OpenAt? ==> e.ctr.Some?)
  {
    match e
    case OpenAt(_, ctr, _, _) => Answered(Opened(gen, ctr.value))
    case SealAt(_, seals, _) => Answered(if seals then Sealed(gen, Responses(events, sid)) else Crypto)
    case KnownAt(_, _) => IsKnown(true)
  }

  lemma OwnStep(s: State, events: seq<Event>, e: Event, sid: Sid, gen: nat, started: nat)
    requires Held(s, events, sid, gen, started) && e.sid == sid && KeepsTo(events, e, sid, started)
    ensures Held(Step(s, e, true), events + [e], sid, gen, started)
    ensures Step(s, e, true).seen == s.seen + [Expected(events, e, sid, gen)]
  {
    assert (events + [e])[..|events|] == events;
    SweepKeepsLive(s.table, e.now, sid);
  }

  lemma OtherStep(s: State, events: seq<Event>, e: Event, sid: Sid, gen: nat, started: nat)
    requires Held(s, events, sid, gen, started) && e.sid != sid && KeepsTo(events, e, sid, started)
    ensures Held(Step(s, e, true), events + [e], sid, gen, started)
  {
    assert (events + [e])[..|events|] == events;
    OtherLeaves(s, e, sid);
  }

  lemma {:induction false} StaysHeld(s: State, events: seq<Event>, sid: Sid, gen: nat, started: nat)
    requires Held(s, [], sid, gen, started) && Proper(events, sid, started)
    ensures Held(Run(s, events, true), events, sid, gen, started)
  {
    hide Step, Held, KeepsTo;
    if events != [] {
      var (front, e) := (events[..|events| - 1], events[|events| - 1]);
      StaysHeld(s, front, sid, gen, started);
      assert front + [e] == events;
      if e.sid == sid {
        OwnStep(Run(s, front, true), front, e, sid, gen, started);
      } else {
        OtherStep(Run(s, front, true), front, e, sid, gen, started);
      }
    }
  }

  lemma StartsHeld(s: State, sid: Sid, started: nat)
    requires started + 900 < U64
    ensures Held(Step(s, BootstrapAt(sid, started), true), [], sid, s.gens, started)
  {
  }

  /**
   From any state: a session that is started and whose client counts up and comes back within
   fifteen minutes is served every time. Each of its requests is opened under its counter, and
   its n-th response is sealed under n - 1.
   */
  lemma ClientIsServed(s: State, sid: Sid, started: nat, events: seq<Event>, e: Event)
    requires started + 900 < U64 && Proper(events, sid, started) && KeepsTo(events, e, sid, started) && e.sid == sid
    ensures var before := Run(Step(s, BootstrapAt(sid, started), true), events, true);
      Step(before, e, true).seen == before.seen + [Expected(events, e, sid, s.gens)]
  {
    var begun := Step(s, BootstrapAt(sid, started), true);
    StartsHeld(s, sid, started);
    StaysHeld(begun, events, sid, s.gens, started);
    OwnStep(Run(begun, events, true), events, e, sid, s.gens, started);
  }

  /** The table starts empty, never swept and with no key handed out. */
  lemma StartsEmpty()
    ensures Start().table == Table(map[], 0) && Start().gens == 0 && Start().seen == []
  {
  }
}
