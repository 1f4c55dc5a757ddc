/**
 The context charge and its wake flags. One charge may be out; a scheduler takes its
 revision flag and then tries to reserve; dropping the charge refunds storage, clears the
 busy flag and only then notifies both schedulers. Every step is atomic, any may interleave.
 */
module ContextWake {
  const MAX_CONTEXT_BYTES: nat := 128 * 1024

  /** The one holder: storage not yet reserved, held, or refunded and about to clear the flag. */
  datatype Holder = Nobody | Reserving | Held | Refunded

  /** A scheduler is idle or about to try; `waits` records a refused try not yet retried. */
  datatype Scheduler = Scheduler(woken: bool, waits: bool, revision: bool)

  /** `clearing` droppers still owe both notifications, `telling` ones owe the stream's only. */
  datatype State = State(
    busy: bool, holder: Holder, clearing: nat, telling: nat, deferred: Scheduler, stream: Scheduler)

  datatype Who = Deferred | Stream

  datatype Event =
    | Take(who: Who)
    | Try(who: Who, bytes: nat)
    | Storage(ok: bool)
    | Refund(callback: bool)
    | Clear
    | NotifyDeferred
    | NotifyStream

  function Get(s: State, who: Who): Scheduler {
    match who case Deferred => s.deferred case Stream => s.stream
  }

  function Put(s: State, who: Who, x: Scheduler): State {
    match who case Deferred => s.(deferred := x) case Stream => s.(stream := x)
  }

  function DoTry(s: State, who: Who, bytes: nat): State {
    var x := Get(s, who).(woken := false);
    if bytes > MAX_CONTEXT_BYTES then Put(s, who, x)
    else if s.busy then Put(s, who, x.(waits := true))
    else Put(s, who, x).(busy := true, holder := Reserving)
  }

  /** The physical pool's own callback may ring both flags while the charge is still busy. */
  function Ring(s: State): State {
    s.(deferred := s.deferred.(revision := true), stream := s.stream.(revision := true))
  }

  function Step(s: State, e: Event): State {
    match e
    case Take(who) =>
      var x := Get(s, who);
      if x.revision then Put(s, who, Scheduler(true, false, false)) else s
    case Try(who, bytes) => if Get(s, who).woken then DoTry(s, who, bytes) else s
    case Storage(ok) => if s.holder.Reserving? then s.(holder := if ok then Held else Refunded) else s
    case Refund(callback) =>
      if !s.holder.Held? then s else if callback then Ring(s).(holder := Refunded) else s.(holder := Refunded)
    case Clear => if s.holder.Refunded? then s.(busy := false, holder := Nobody, clearing := s.clearing + 1) else s
    case NotifyDeferred =>
      if s.clearing == 0 then s
      else s.(clearing := s.clearing - 1, telling := s.telling + 1, deferred := s.deferred.(revision := true))
    case NotifyStream =>
      if s.telling == 0 then s else s.(telling := s.telling - 1, stream := s.stream.(revision := true))
  }

  function Run(s: State, events: seq<Event>): State {
    if events == [] then s else Step(Run(s, events[..|events| - 1]), events[|events| - 1])
  }

  function Start(): State {
    State(false, Nobody, 0, 0, Scheduler(false, false, true), Scheduler(false, false, false))
  }

  /** A refused scheduler finds the charge busy, its flag up, or a notification still to come. */
  predicate Inv(s: State) {
    && (s.busy <==> !s.holder.Nobody?)
    && (s.deferred.woken ==> !s.deferred.waits) && (s.stream.woken ==> !s.stream.waits)
    && (s.deferred.waits ==> s.busy || s.deferred.revision || s.clearing > 0)
    && (s.stream.waits ==> s.busy || s.stream.revision || s.clearing > 0 || s.telling > 0)
  }

  lemma StepKeepsInv(s: State, e: Event)
    requires Inv(s)
    ensures Inv(Step(s, e))
  {
  }

  lemma {:induction false} RunKeepsInv(events: seq<Event>)
    ensures Inv(Run(Start(), events))
  {
    hide Inv, Step;
    if events == [] {
      StartInv();
    } else {
      RunKeepsInv(events[..|events| - 1]);
      StepKeepsInv(Run(Start(), events[..|events| - 1]), events[|events| - 1]);
    }
  }

  lemma StartInv()
    ensures Inv(Start())
  {
  }

  /** No step is due: nobody holds or drops the charge and no scheduler is about to try. */
  predicate Quiescent(s: State) {
    s.holder.Nobody? && s.clearing == 0 && s.telling == 0 && !s.deferred.woken && !s.stream.woken
  }

  /** No lost wake: when all is quiet a refused scheduler has its revision flag up. */
  lemma NoLostWake(events: seq<Event>, who: Who)
    ensures var s := Run(Start(), events); Quiescent(s) && Get(s, who).waits ==> Get(s, who).revision && !s.busy
  {
    RunKeepsInv(events);
  }

  /**
   A try takes the charge exactly when nobody holds one and the size is allowed, and waits exactly
   when it was refused for the charge.
   */
  lemma TryExactly(events: seq<Event>, who: Who, bytes: nat)
    ensures var s := Run(Start(), events);
      var t := Step(s, Try(who, bytes));
      Get(s, who).woken ==>
        && (t.holder != s.holder <==> bytes <= 131072 && s.holder.Nobody?)
        && (Get(t, who).waits <==> bytes <= 131072 && !s.holder.Nobody?)
        && !Get(t, who).woken
  {
    RunKeepsInv(events);
  }

  // ---- the order matters ------------------------------------------------------------

  /** The charge of a failed reservation, about to be cleared. */
  function Rolling(): seq<Event> {
    [Take(Deferred), Try(Deferred, 1), Storage(false)]
  }

  lemma RollingState()
    ensures Run(Start(), Rolling()) ==
      State(true, Refunded, 0, 0, Scheduler(false, false, false), Scheduler(false, false, false))
  {
    var (a, b, c) := (Take(Deferred), Try(Deferred, 1), Storage(false));
    assert [a, b, c][..2] == [a, b] && [a, b][..1] == [a] && [a][..0] == [];
    assert Run(Start(), []) == Start();
    assert Run(Start(), [a]) == Step(Start(), a);
    assert Run(Start(), [a, b]) == Step(Step(Start(), a), b);
  }

  /**
   With the notifications first, a scheduler woken between them and the clearing of the busy
   flag is refused, and all is then quiet with that scheduler waiting and its flag down.
   */
  lemma ReversedOrderLosesWake()
    ensures var taken := Run(Start(), Rolling());
      var refused := Step(Step(Ring(taken), Take(Deferred)), Try(Deferred, 1));
      var quiet := refused.(busy := false, holder := Nobody);
      taken.holder.Refunded? && Quiescent(quiet) && quiet.deferred.waits && !quiet.deferred.revision
  {
    RollingState();
    hide Run;
  }
}
