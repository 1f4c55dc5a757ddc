/**
 When the periodic sweep of expired sessions can be noticed. A run with sweeping is compared
 with the same run without, on any list of times, also one that runs backwards.
 */
module SessionSweep {
  import opened Prelude
  import opened SessionRelay

  function Time(e: Event): nat {
    e.now
  }

  /** The events happen at these times. */
  ghost predicate HappenAt(events: seq<Event>, ts: seq<nat>) {
    |events| == |ts| && forall i :: 0 <= i < |ts| ==> Time(events[i]) == ts[i]
  }

  /** No time falls back into a life that a time before it had already outlived. */
  ghost predicate NeverReturns(ts: seq<nat>) {
    forall i, j, k :: 0 <= i < j < k < |ts| && Saturating(ts[i], TTL) <= ts[j] ==> Saturating(ts[i], TTL) <= ts[k]
  }

  // ---- a clock that never returns hides the sweep -------------------------------

  /** The swept table lacks only sessions that have expired by now. */
  ghost predicate Covers(swept: Table, full: Table, now: nat) {
    && (forall sid :: sid in swept.sessions ==> sid in full.sessions && full.sessions[sid] == swept.sessions[sid])
    && (forall sid :: sid in full.sessions && sid !in swept.sessions ==> full.sessions[sid].expiresAt <= now)
  }

  lemma SweepCovers(swept: Table, full: Table, now: nat)
    requires Covers(swept, full, now)
    ensures Covers(Sweep(swept, now), full, now)
  {
  }

  lemma OpenCovers(swept: Table, full: Table, sid: Sid, ctr: Option<nat>, authentic: bool, now: nat)
    requires Covers(swept, full, now)
    ensures Open(swept, sid, ctr, authentic, now).1 == Open(full, sid, ctr, authentic, now).1
    ensures Covers(Open(swept, sid, ctr, authentic, now).0, Open(full, sid, ctr, authentic, now).0, now)
  {
  }

  lemma SealCovers(swept: Table, full: Table, sid: Sid, seals: bool, now: nat)
    requires Covers(swept, full, now)
    ensures Seal(swept, sid, seals, now).1 == Seal(full, sid, seals, now).1
    ensures Covers(Seal(swept, sid, seals, now).0, Seal(full, sid, seals, now).0, now)
  {
  }

  lemma StepCovers(s: State, f: State, e: Event)
    requires Covers(s.table, f.table, Time(e)) && s.gens == f.gens && s.seen == f.seen
    ensures var (t, g) := (Step(s, e, true), Step(f, e, false));
      Covers(t.table, g.table, Time(e)) && t.gens == g.gens && t.seen == g.seen
  {
    SweepCovers(s.table, f.table, Time(e));
    match e
    case BootstrapAt(sid, now) =>
    case OpenAt(sid, ctr, authentic, now) => OpenCovers(Sweep(s.table, now), f.table, sid, ctr, authentic, now);
    case SealAt(sid, seals, now) => SealCovers(s.table, f.table, sid, seals, now);
    case KnownAt(sid, now) =>
  }

  /** An expiry was set at one of the first `n` times. */
  ghost predicate Stamped(ts: seq<nat>, n: nat, x: nat) {
    exists i :: 0 <= i < n <= |ts| && x == Saturating(ts[i], TTL)
  }

  /** It was also reached by a later one of them. */
  ghost predicate Lapsed(ts: seq<nat>, n: nat, x: nat) {
    exists i, j :: 0 <= i < j < n <= |ts| && x == Saturating(ts[i], TTL) && x <= ts[j]
  }

  ghost predicate AllStamped(t: Table, ts: seq<nat>, n: nat) {
    forall sid :: sid in t.sessions ==> Stamped(ts, n, t.sessions[sid].expiresAt)
  }

  /** The two runs answer alike, and what only the full table has has lapsed. */
  ghost predicate Alike(s: State, f: State, ts: seq<nat>, n: nat) {
    && s.gens == f.gens && s.seen == f.seen && AllStamped(f.table, ts, n)
    && (forall sid :: sid in s.table.sessions ==>
         sid in f.table.sessions && f.table.sessions[sid] == s.table.sessions[sid])
    && (forall sid :: sid in f.table.sessions && sid !in s.table.sessions ==>
      Lapsed(ts, n, f.table.sessions[sid].expiresAt))
  }

  lemma LapsedStays(ts: seq<nat>, n: nat, x: nat)
    requires NeverReturns(ts) && n < |ts| && Lapsed(ts, n, x)
    ensures x <= ts[n]
  {
    var i, j :| 0 <= i < j < n && x == Saturating(ts[i], TTL) && x <= ts[j];
  }

  lemma StampedLonger(ts: seq<nat>, n: nat, x: nat)
    requires n < |ts| && Stamped(ts, n, x)
    ensures Stamped(ts, n + 1, x) && (x <= ts[n] ==> Lapsed(ts, n + 1, x))
  {
    var i :| 0 <= i < n && x == Saturating(ts[i], TTL);
    assert 0 <= i < n + 1 && x == Saturating(ts[i], TTL);
  }

  /** A step keeps each expiry or sets it from its own time. */
  lemma StepStamps(f: State, e: Event, sid: Sid)
    requires sid in Step(f, e, false).table.sessions
    ensures var x := Step(f, e, false).table.sessions[sid].expiresAt;
      x == Saturating(Time(e), TTL) || (sid in f.table.sessions && x == f.table.sessions[sid].expiresAt)
  {
  }

  /** What only the full table has after a step it had before, with the same expiry. */
  lemma StepMisses(s: State, f: State, e: Event, sid: Sid)
    requires sid in Step(f, e, false).table.sessions && sid !in Step(s, e, true).table.sessions
    requires Covers(s.table, f.table, Time(e))
    ensures sid in f.table.sessions
    ensures Step(f, e, false).table.sessions[sid].expiresAt == f.table.sessions[sid].expiresAt
  {
  }

  lemma StepAlike(s: State, f: State, ts: seq<nat>, n: nat, e: Event)
    requires NeverReturns(ts) && n < |ts| && Time(e) == ts[n] && Alike(s, f, ts, n)
    ensures Alike(Step(s, e, true), Step(f, e, false), ts, n + 1)
  {
    hide Step, Stamped, Lapsed, NeverReturns;
    forall sid | sid in f.table.sessions && sid !in s.table.sessions ensures f.table.sessions[sid].expiresAt <= ts[n] {
      LapsedStays(ts, n, f.table.sessions[sid].expiresAt);
    }
    StepCovers(s, f, e);
    var t, g := Step(s, e, true).table, Step(f, e, false).table;
    forall sid | sid in g.sessions ensures Stamped(ts, n + 1, g.sessions[sid].expiresAt) {
      StepStamps(f, e, sid);
      StampNow(ts, n);
      if sid in f.table.sessions { StampedLonger(ts, n, f.table.sessions[sid].expiresAt); }
    }
    forall sid | sid in g.sessions && sid !in t.sessions ensures Lapsed(ts, n + 1, g.sessions[sid].expiresAt) {
      StepMisses(s, f, e, sid);
      StampedLonger(ts, n, f.table.sessions[sid].expiresAt);
    }
  }

  lemma StampNow(ts: seq<nat>, n: nat)
    requires n < |ts|
    ensures Stamped(ts, n + 1, Saturating(ts[n], TTL))
  {
  }

  lemma {:induction false} RunAlike(events: seq<Event>, ts: seq<nat>)
    requires NeverReturns(ts) && |events| <= |ts| && forall i :: 0 <= i < |events| ==> Time(events[i]) == ts[i]
    ensures Alike(Run(Start(), events, true), Run(Start(), events, false), ts, |events|)
  {
    if events != [] {
      var front := events[..|events| - 1];
      RunAlike(front, ts);
      StepAlike(Run(Start(), front, true), Run(Start(), front, false), ts, |front|, events[|events| - 1]);
    }
  }

  // ---- a clock that returns shows it ----------------------------------------------

  const A: Sid := []
  const B: Sid := [0]

  /** Start session A at time `i`, start B at time `j`, and otherwise ask for A. */
  function TrialEvent(ts: seq<nat>, i: nat, j: nat, m: nat): Event
    requires m < |ts|
  {
    if m == i then BootstrapAt(A, ts[m]) else if m == j then BootstrapAt(B, ts[m]) else KnownAt(A, ts[m])
  }

  function Trial(ts: seq<nat>, i: nat, j: nat, n: nat): (events: seq<Event>)
    requires n <= |ts|
    ensures |events| == n && forall m :: 0 <= m < n ==> events[m] == TrialEvent(ts, i, j, m)
  {
    if n == 0 then [] else Trial(ts, i, j, n - 1) + [TrialEvent(ts, i, j, n - 1)]
  }

  /** The tables along the trial, with and without sweeping. */
  ghost predicate TrialTables(ts: seq<nat>, i: nat, j: nat, n: nat, swept: Table, full: Table)
    requires i < j < |ts|
  {
    && (n <= i ==> swept == full == Table(map[], 0))
    && (i < n ==> A in full.sessions && full.sessions[A].expiresAt == Saturating(ts[i], TTL))
    && (i < n <= j ==> A in swept.sessions && swept.sessions[A].expiresAt == Saturating(ts[i], TTL))
    && (i < n <= j ==> swept.lastSweep == 0 || swept.lastSweep == ts[i])
    && (j < n ==> A !in swept.sessions)
  }

  /** At time `j` the sweep is due. */
  lemma DueAgain(last: nat, t: nat, now: nat)
    requires t < U64 && now < U64 && (last == 0 || last == t) && Saturating(t, TTL) <= now
    ensures now >= (last + SWEEP_EVERY) % U64
  {
    if last + SWEEP_EVERY < U64 {
      DivModUnique(last + SWEEP_EVERY, U64, 0, last + SWEEP_EVERY);
    } else {
      DivModUnique(last + SWEEP_EVERY, U64, 1, last + SWEEP_EVERY - U64);
    }
  }

  lemma {:induction false} TrialRuns(ts: seq<nat>, i: nat, j: nat, n: nat)
    requires i < j < |ts| && n <= |ts| && Saturating(ts[i], TTL) <= ts[j]
    requires forall m :: 0 <= m < |ts| ==> ts[m] < U64
    ensures var events := Trial(ts, i, j, n);
      TrialTables(ts, i, j, n, Run(Start(), events, true).table, Run(Start(), events, false).table)
  {
    if n > 0 {
      TrialRuns(ts, i, j, n - 1);
      var events := Trial(ts, i, j, n);
      assert events[..n - 1] == Trial(ts, i, j, n - 1);
      var s, f := Run(Start(), events[..n - 1], true), Run(Start(), events[..n - 1], false);
      if n - 1 == j { DueAgain(s.table.lastSweep, ts[i], ts[j]); }
      TrialStep(ts, i, j, n, s, f, events[n - 1]);
    }
  }

  lemma TrialStep(ts: seq<nat>, i: nat, j: nat, n: nat, s: State, f: State, e: Event)
    requires i < j < |ts| && 0 < n <= |ts| && Saturating(ts[i], TTL) <= ts[j]
    requires TrialTables(ts, i, j, n - 1, s.table, f.table)
    requires n - 1 == j ==> SweepDue(s.table, ts[j])
    requires e == TrialEvent(ts, i, j, n - 1)
    ensures TrialTables(ts, i, j, n, Step(s, e, true).table, Step(f, e, false).table)
  {
    hide SweepDue, Saturating;
  }

  lemma {:induction false} SeenGrows(events: seq<Event>, sweeps: bool, k: nat)
    requires k < |events|
    ensures |Run(Start(), events, sweeps).seen| == |events|
    ensures |Run(Start(), events[..k + 1], sweeps).seen| == k + 1
    ensures Run(Start(), events, sweeps).seen[k] == Run(Start(), events[..k + 1], sweeps).seen[k]
    decreases |events|
  {
    var front := events[..|events| - 1];
    SeenLength(events, sweeps);
    SeenLength(events[..k + 1], sweeps);
    if k < |front| {
      SeenGrows(front, sweeps, k);
      assert front[..k + 1] == events[..k + 1];
    } else {
      assert events[..k + 1] == events;
    }
  }

  lemma {:induction false} SeenLength(events: seq<Event>, sweeps: bool)
    ensures |Run(Start(), events, sweeps).seen| == |events|
  {
    if events != [] { SeenLength(events[..|events| - 1], sweeps); }
  }

  /** Asked at a time that returns into a life already outlived, the two runs differ. */
  lemma TrialShows(ts: seq<nat>, i: nat, j: nat, k: nat)
    requires i < j < k < |ts| && ts[k] < Saturating(ts[i], TTL) <= ts[j]
    requires forall m :: 0 <= m < |ts| ==> ts[m] < U64
    ensures Run(Start(), Trial(ts, i, j, |ts|), true).seen != Run(Start(), Trial(ts, i, j, |ts|), false).seen
  {
    hide Run, Saturating;
    var events := Trial(ts, i, j, |ts|);
    TrialRuns(ts, i, j, k);
    TrialPrefix(ts, i, j, k);
    TrialPrefix(ts, i, j, k + 1);
    SeenGrows(events, true, k);
    SeenGrows(events, false, k);
    AskedLast(events[..k + 1], true);
    AskedLast(events[..k + 1], false);
    assert events[..k + 1][..k] == events[..k];
  }

  lemma TrialPrefix(ts: seq<nat>, i: nat, j: nat, n: nat)
    requires n <= |ts|
    ensures Trial(ts, i, j, |ts|)[..n] == Trial(ts, i, j, n)
  {
  }

  lemma AskedLast(events: seq<Event>, sweeps: bool)
    requires events != [] && events[|events| - 1].KnownAt?
    ensures var (e, s) := (events[|events| - 1], Run(Start(), events[..|events| - 1], sweeps));
      |Run(Start(), events, sweeps).seen| == |events|
      && Run(Start(), events, sweeps).seen[|events| - 1] == IsKnown(Known(s.table, e.sid, e.now))
  {
    SeenLength(events, sweeps);
    SeenLength(events[..|events| - 1], sweeps);
  }

  lemma TrialHappens(ts: seq<nat>, i: nat, j: nat)
    ensures HappenAt(Trial(ts, i, j, |ts|), ts)
  {
  }

  // ---- exactly ------------------------------------------------------------------------

  /**
   On a list of times, sweeping gives every caller the same answers as never sweeping, whatever
   is done at those times, exactly when no time returns into a life already outlived.
   */
  lemma SweepingUnseenExactly(ts: seq<nat>)
    requires forall m :: 0 <= m < |ts| ==> ts[m] < U64
    ensures NeverReturns(ts) <==>
      forall events :: HappenAt(events, ts) ==> Run(Start(), events, true).seen == Run(Start(), events, false).seen
  {
    hide Run, Saturating, Trial;
    if NeverReturns(ts) {
      forall events | HappenAt(events, ts) ensures Run(Start(), events, true).seen == Run(Start(), events, false).seen {
        RunAlike(events, ts);
      }
    } else {
      var i, j, k :| 0 <= i < j < k < |ts| && Saturating(ts[i], TTL) <= ts[j] && ts[k] < Saturating(ts[i], TTL);
      TrialShows(ts, i, j, k);
      TrialHappens(ts, i, j);
    }
  }

  /** In particular with a clock that does not run backwards. */
  lemma SweepingUnseen(events: seq<Event>)
    requires forall i, j :: 0 <= i < j < |events| ==> Time(events[i]) <= Time(events[j])
    ensures Run(Start(), events, true).seen == Run(Start(), events, false).seen
  {
    var ts := seq(|events|, i requires 0 <= i < |events| => Time(events[i]));
    RunAlike(events, ts);
  }
}
