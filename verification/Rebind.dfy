/**
 The rebind limiter: per session id a window of sixty seconds and a 32-bit attempt count
 that wraps; a map that is swept of old windows when it has grown past ten thousand.
 */
module Rebind {
  import opened Prelude

  const LIMIT: nat := 6
  const WINDOW: nat := 60
  const SWEEP_LEN: nat := 10_000

  /** What any closed sixty seconds can admit: five from a window under way and six from the next. */
  const MOST: nat := 11

  type Sid = Bytes

  datatype Window = Window(start: nat, count: nat)

  function Since(now: nat, start: nat): nat {
    if now < start then 0 else now - start
  }

  predicate Current(w: Window, now: nat) {
    Since(now, w.start) <= WINDOW
  }

  function SweepOld(m: map<Sid, Window>, now: nat): map<Sid, Window> {
    if |m| > SWEEP_LEN then map sid | sid in m && Current(m[sid], now) :: m[sid] else m
  }

  /** One attempt on one session id: its window afterwards and whether it is within budget. */
  function Attempt(w: Option<Window>, now: nat): (Window, bool) {
    if w.Some? && Current(w.value, now) then
      var count := (w.value.count + 1) % U32;
      (Window(w.value.start, count), count <= LIMIT)
    else (Window(now, 1), true)
  }

  function Lookup(m: map<Sid, Window>, sid: Sid): Option<Window> {
    if sid in m then Some(m[sid]) else None
  }

  function Allow(m: map<Sid, Window>, sid: Sid, now: nat, sweeps: bool): (map<Sid, Window>, bool) {
    var t := if sweeps then SweepOld(m, now) else m;
    var r := Attempt(Lookup(t, sid), now);
    (t[sid := r.0], r.1)
  }

  class Limiter {
    var windows: map<Sid, Window>

    constructor ()
      ensures windows == map[]
    {
      windows := map[];
    }

    method AllowRebind(sid: Sid, now: nat) returns (ok: bool)
      modifies this
      ensures var r := Allow(old(windows), sid, now, true); windows == r.0 && ok == r.1
    {
      if |windows| > SWEEP_LEN {
        windows := map s | s in windows && Since(now, windows[s].start) <= WINDOW :: windows[s];
      }
      if sid in windows && Since(now, windows[sid].start) <= WINDOW {
        var w := windows[sid];
        w := w.(count := (w.count + 1) % U32);
        windows := windows[sid := w];
        return w.count <= LIMIT;
      }
      windows := windows[sid := Window(now, 1)];
      return true;
    }
  }

  // ---- runs --------------------------------------------------------------------

  datatype Event = Event(sid: Sid, now: nat)
  datatype State = State(windows: map<Sid, Window>, decisions: seq<bool>)

  function Run(events: seq<Event>, sweeps: bool): (s: State)
    ensures |s.decisions| == |events|
  {
    if events == [] then State(map[], [])
    else
      var s := Run(events[..|events| - 1], sweeps);
      var e := events[|events| - 1];
      var r := Allow(s.windows, e.sid, e.now, sweeps);
      State(r.0, s.decisions + [r.1])
  }

  ghost predicate ClockRuns(events: seq<Event>) {
    forall i, j :: 0 <= i < j < |events| ==> events[i].now <= events[j].now
  }

  /** The swept map lacks only windows that are over by now. */
  ghost predicate Covers(swept: map<Sid, Window>, full: map<Sid, Window>, now: nat) {
    && (forall sid :: sid in swept ==> sid in full && full[sid] == swept[sid])
    && (forall sid :: sid in full && sid !in swept ==> now > full[sid].start + WINDOW)
  }

  lemma AllowCovers(swept: map<Sid, Window>, full: map<Sid, Window>, sid: Sid, now: nat)
    requires Covers(swept, full, now)
    ensures Allow(swept, sid, now, true).1 == Allow(full, sid, now, false).1
    ensures Covers(Allow(swept, sid, now, true).0, Allow(full, sid, now, false).0, now)
  {
    var t := SweepOld(swept, now);
    assert Covers(t, full, now);
    assert Attempt(Lookup(t, sid), now) == Attempt(Lookup(full, sid), now);
  }

  lemma {:induction false} RunCovers(events: seq<Event>, now: nat)
    requires ClockRuns(events) && (events != [] ==> events[|events| - 1].now <= now)
    ensures Covers(Run(events, true).windows, Run(events, false).windows, now)
    ensures Run(events, true).decisions == Run(events, false).decisions
  {
    if events != [] {
      var e := events[|events| - 1];
      RunCovers(events[..|events| - 1], e.now);
      AllowCovers(Run(events[..|events| - 1], true).windows, Run(events[..|events| - 1], false).windows, e.sid, e.now);
    }
  }

  /** With a clock that does not run backwards the sweep never changes a decision. */
  lemma SweepChangesNothing(events: seq<Event>)
    requires ClockRuns(events)
    ensures Run(events, true).decisions == Run(events, false).decisions
  {
    RunCovers(events, if events == [] then 0 else events[|events| - 1].now);
  }

  /** An attempt forgets other ids exactly when more than ten thousand are held and their sixty seconds are over. */
  lemma SweepForgets(m: map<Sid, Window>, sid: Sid, now: nat, other: Sid)
    ensures var r := Allow(m, sid, now, true).0;
      && sid in r
      && (other != sid ==>
           && (other in r <==> other in m && (|m| <= 10_000 || now <= m[other].start + 60))
           && (other in r ==> r[other] == m[other]))
  {
  }

  /** One attempt: a window that began at most sixty seconds ago counts on, any other begins anew with one. */
  lemma AttemptExactly(m: map<Sid, Window>, sid: Sid, now: nat)
    ensures var (r, ok) := Allow(m, sid, now, true);
      if sid in m && now <= m[sid].start + 60 then
        var count := (m[sid].count + 1) % 0x1_0000_0000;
        r[sid] == Window(m[sid].start, count) && (ok <==> count <= 6)
      else r[sid] == Window(now, 1) && ok
  {
  }

  // ---- one session id --------------------------------------------------------------

  /** A session id's window with its unwrapped attempt count and the time of its last attempt. */
  datatype Track = Track(window: Option<Window>, attempts: nat, last: nat)

  function Follow(t: Track, now: nat): Track {
    Track(Some(Attempt(t.window, now).0),
          if t.window.Some? && Current(t.window.value, now) then t.attempts + 1 else 1, now)
  }

  function TrackOf(events: seq<Event>, sid: Sid): Track {
    if events == [] then Track(None, 0, 0)
    else
      var t := TrackOf(events[..|events| - 1], sid);
      var e := events[|events| - 1];
      if e.sid == sid then Follow(t, e.now) else t
  }

  lemma CountWraps(n: nat)
    ensures (n % U32 + 1) % U32 == (n + 1) % U32
  {
    var q, r := n / U32, n % U32;
    if r + 1 < U32 {
      DivModUnique(n + 1, U32, q, r + 1);
    } else {
      DivModUnique(n + 1, U32, q + 1, 0);
    }
  }

  lemma {:induction false} TrackIsWindow(events: seq<Event>, sid: Sid)
    ensures Lookup(Run(events, false).windows, sid) == TrackOf(events, sid).window
    ensures var t := TrackOf(events, sid); t.window.Some? ==> t.window.value.count == t.attempts % U32
  {
    if events != [] {
      TrackIsWindow(events[..|events| - 1], sid);
      CountWraps(TrackOf(events[..|events| - 1], sid).attempts);
    }
  }

  /** The k-th attempt of a window is admitted exactly when k modulo 2^32 is at most six. */
  lemma AdmittedExactly(events: seq<Event>)
    requires events != [] && ClockRuns(events)
    ensures var k := TrackOf(events, events[|events| - 1].sid).attempts;
      Run(events, true).decisions[|events| - 1] <==> k % 0x1_0000_0000 <= 6
  {
    SweepChangesNothing(events);
    var sid := events[|events| - 1].sid;
    TrackIsWindow(events, sid);
    TrackIsWindow(events[..|events| - 1], sid);
  }

  // ---- any sixty seconds ----------------------------------------------------------------

  predicate Within(now: nat, lo: nat) {
    lo <= now <= lo + 60
  }

  /** Admitted attempts of a session id between `lo` and `lo + 60`. */
  function Admitted(events: seq<Event>, decisions: seq<bool>, sid: Sid, lo: nat): nat
    requires |decisions| == |events|
  {
    if events == [] then 0
    else
      var n := |events| - 1;
      Admitted(events[..n], decisions[..n], sid, lo)
      + if events[n].sid == sid && decisions[n] && Within(events[n].now, lo) then 1 else 0
  }

  /** The same count split between earlier windows and the current one. */
  datatype Tally = Tally(old_: nat, cur: nat)

  /** The tally after one more attempt. */
  function Count(t: Track, y: Tally, now: nat, lo: nat): Tally {
    var hit := if Attempt(t.window, now).1 && Within(now, lo) then 1 else 0;
    if t.window.Some? && Current(t.window.value, now) then Tally(y.old_, y.cur + hit) else Tally(y.old_ + y.cur, hit)
  }

  function TallyOf(events: seq<Event>, sid: Sid, lo: nat): Tally {
    if events == [] then Tally(0, 0)
    else
      var n := |events| - 1;
      var y := TallyOf(events[..n], sid, lo);
      if events[n].sid != sid then y else Count(TrackOf(events[..n], sid), y, events[n].now, lo)
  }

  /** No window of this session id reaches 2^32 attempts. */
  ghost predicate NoWrap(events: seq<Event>, sid: Sid) {
    forall n :: 0 <= n <= |events| ==> TrackOf(events[..n], sid).attempts < U32
  }

  lemma {:induction false} DecisionOfPrefix(events: seq<Event>, sweeps: bool, n: nat)
    requires 0 < n <= |events|
    ensures Run(events, sweeps).decisions[n - 1] == Run(events[..n], sweeps).decisions[n - 1]
    decreases |events|
  {
    if n < |events| {
      var front := events[..|events| - 1];
      DecisionOfPrefix(front, sweeps, n);
      assert front[..n] == events[..n];
    } else {
      assert events[..n] == events;
    }
  }

  /** Attempts are counted one by one, so a count past 2^32 was exactly 2^32 before. */
  lemma {:induction false} FirstWrap(events: seq<Event>, sid: Sid, n: nat) returns (m: nat)
    requires n <= |events| && TrackOf(events[..n], sid).attempts >= U32
    ensures 0 < m <= n && TrackOf(events[..m], sid).attempts == U32 && events[m - 1].sid == sid
    decreases n
  {
    assert n > 0;
    assert events[..n][..n - 1] == events[..n - 1];
    if TrackOf(events[..n - 1], sid).attempts >= U32 {
      m := FirstWrap(events, sid, n - 1);
    } else {
      m := n;
    }
  }

  /** Only the first six attempts of a window are ever admitted, exactly while no window reaches 2^32 attempts. */
  lemma LimitHoldsExactly(events: seq<Event>, sid: Sid)
    requires ClockRuns(events)
    ensures NoWrap(events, sid) <==>
      forall n :: 0 < n <= |events| && events[n - 1].sid == sid && Run(events, true).decisions[n - 1] ==>
        TrackOf(events[..n], sid).attempts <= 6
  {
    hide Run, TrackOf;
    forall n | 0 < n <= |events| && events[n - 1].sid == sid
      ensures Run(events, true).decisions[n - 1] <==> TrackOf(events[..n], sid).attempts % U32 <= LIMIT
    {
      DecisionOfPrefix(events, true, n);
      AdmittedExactly(events[..n]);
    }
    if n :| 0 <= n <= |events| && TrackOf(events[..n], sid).attempts >= U32 {
      var m := FirstWrap(events, sid, n);
      assert Run(events, true).decisions[m - 1];
    }
  }

  /**
   A window that started before the interval gives it at most five, its first attempt lying
   outside; one that starts inside gives six and is followed by none that still does.
   */
  ghost predicate TallyOk(t: Track, y: Tally, lo: nat) {
    && (t.window.None? ==> y == Tally(0, 0))
    && (t.window.Some? ==>
         var s := t.window.value.start;
         && s <= t.last
         && y.cur <= t.attempts && y.cur <= LIMIT
         && (s < lo ==> y.cur < t.attempts && y.cur < LIMIT)
         && (y.old_ > 0 ==> s >= lo)
         && (y.old_ + y.cur > 0 ==> t.last >= lo)
         && (s > lo + WINDOW ==> y.cur == 0)
         && (s <= lo + WINDOW ==> y.old_ < LIMIT)
         && y.old_ + y.cur <= MOST)
  }

  /** One attempt keeps the tally in bounds. */
  lemma TallyStep(t: Track, y: Tally, lo: nat, now: nat)
    requires TallyOk(t, y, lo) && (t.window.Some? ==> t.last <= now && t.window.value.count == t.attempts % U32)
    requires t.attempts < U32 && Follow(t, now).attempts < U32
    ensures TallyOk(Follow(t, now), Count(t, y, now, lo), lo)
  {
  }

  lemma {:induction false} TallyBounded(events: seq<Event>, sid: Sid, lo: nat)
    requires ClockRuns(events) && NoWrap(events, sid)
    ensures TallyOk(TrackOf(events, sid), TallyOf(events, sid, lo), lo)
    ensures TrackOf(events, sid).window.Some? ==> events != [] && TrackOf(events, sid).last <= events[|events| - 1].now
  {
    if events != [] {
      var n := |events| - 1;
      var front := events[..n];
      forall k | 0 <= k <= n ensures TrackOf(front[..k], sid).attempts < U32 { assert front[..k] == events[..k]; }
      TallyBounded(front, sid, lo);
      TrackIsWindow(front, sid);
      assert events[..|events|] == events;
      if events[n].sid == sid {
        TallyStep(TrackOf(front, sid), TallyOf(front, sid, lo), lo, events[n].now);
      }
    }
  }

  lemma {:induction false} TallyIsAdmitted(events: seq<Event>, sid: Sid, lo: nat)
    ensures var y := TallyOf(events, sid, lo); Admitted(events, Run(events, false).decisions, sid, lo) == y.old_ + y.cur
  {
    if events != [] {
      var n := |events| - 1;
      TallyIsAdmitted(events[..n], sid, lo);
      TrackIsWindow(events[..n], sid);
      assert Run(events, false).decisions[..n] == Run(events[..n], false).decisions;
    }
  }

  /** Any closed sixty seconds admit at most eleven attempts on one session id. */
  lemma AtMostEleven(events: seq<Event>, sid: Sid, lo: nat)
    requires ClockRuns(events) && NoWrap(events, sid)
    ensures Admitted(events, Run(events, true).decisions, sid, lo) <= 11
  {
    SweepChangesNothing(events);
    TallyBounded(events, sid, lo);
    TallyIsAdmitted(events, sid, lo);
  }

  // ---- and eleven are reached --------------------------------------------------------------

  lemma {:induction false} AttemptsBounded(events: seq<Event>, sid: Sid)
    ensures TrackOf(events, sid).attempts <= |events|
  {
    if events != [] { AttemptsBounded(events[..|events| - 1], sid); }
  }

  lemma ShortRunsDoNotWrap(events: seq<Event>, sid: Sid)
    requires |events| < U32
    ensures NoWrap(events, sid)
  {
    forall n | 0 <= n <= |events| ensures TrackOf(events[..n], sid).attempts < U32 {
      AttemptsBounded(events[..n], sid);
    }
  }

  /** A burst of attempts at one moment of the current window, all within its budget. */
  lemma {:induction false} Burst(events: seq<Event>, sid: Sid, start: nat, k: nat, now: nat, n: nat, lo: nat)
    returns (more: seq<Event>)
    requires TrackOf(events, sid) ==
      Track(Some(Window(start, k)), k, if events == [] then 0 else events[|events| - 1].now)
    requires 1 <= k && k + n <= LIMIT && events != [] && ClockRuns(events)
    requires events[|events| - 1].now <= now <= start + WINDOW && Within(now, lo)
    ensures |more| == |events| + n && ClockRuns(more) &&
      more[|more| - 1].now == (if n == 0 then events[|events| - 1].now else now)
    ensures TrackOf(more, sid) == Track(Some(Window(start, k + n)), k + n, more[|more| - 1].now)
    ensures TallyOf(more, sid, lo) == Tally(TallyOf(events, sid, lo).old_, TallyOf(events, sid, lo).cur + n)
    decreases n
  {
    more := events;
    if n > 0 {
      var front := Burst(events, sid, start, k, now, n - 1, lo);
      more := front + [Event(sid, now)];
      assert more[..|front|] == front;
    }
  }

  lemma OneAttempt(sid: Sid) returns (first: seq<Event>)
    ensures first == [Event(sid, 0)] && ClockRuns(first)
    ensures TrackOf(first, sid) == Track(Some(Window(0, 1)), 1, 0) && TallyOf(first, sid, 60) == Tally(0, 0)
  {
    first := [Event(sid, 0)];
    assert first[..0] == [];
  }

  lemma NextWindow(six: seq<Event>, sid: Sid) returns (next: seq<Event>)
    requires |six| == 6 && ClockRuns(six) && six[5].now == 60
    requires TrackOf(six, sid) == Track(Some(Window(0, 6)), 6, 60) && TallyOf(six, sid, 60) == Tally(0, 5)
    ensures |next| == 7 && next[6].now == 61 && ClockRuns(next)
    ensures TrackOf(next, sid) == Track(Some(Window(61, 1)), 1, 61) && TallyOf(next, sid, 60) == Tally(5, 1)
  {
    next := six + [Event(sid, 61)];
    assert next[..6] == six;
  }

  /** One attempt, then five at the end of its window, then six at the start of the next. */
  lemma ElevenReached(sid: Sid)
    ensures exists events, lo ::
      ClockRuns(events) && NoWrap(events, sid) && Admitted(events, Run(events, true).decisions, sid, lo) == 11
  {
    hide ClockRuns, TrackOf, TallyOf, Run, Admitted, NoWrap;
    var first := OneAttempt(sid);
    var six := Burst(first, sid, 0, 1, 60, 5, 60);
    var next := NextWindow(six, sid);
    var all := Burst(next, sid, 61, 1, 61, 5, 60);
    ShortRunsDoNotWrap(all, sid);
    SweepChangesNothing(all);
    TallyIsAdmitted(all, sid, 60);
  }
}
