/**
 One stream session: a body travels in fragments from the transport through a slot and
 a piece of extracted work to a receiver that may refuse, postpone or consume each one.
 */
module StreamSession {
  import opened Prelude

  const MAX_FRAGMENT: nat := 65536

  /** What ties a piece of work to the slot it was taken from. */
  datatype Identity = Identity(nonce: nat, generation: nat, binding: Bytes, lease: nat)

  datatype Slot = Slot(id: Identity, header: bool, receiver: bool, remaining: nat, fragment: Bytes, parked: bool)
  datatype Work = Work(
    id: Identity, context: bool, header: bool, receiver: bool, bytes: Bytes, remaining: nat, pending: bool)

  /** The receiver's answer to a fragment. */
  datatype Push = Rejected | Postponed | Consumed

  // ---- the three operations ---------------------------------------------------

  /** Work goes back only into the slot it came from, with its books in order. */
  predicate Rejoins(slot: Slot, work: Work) {
    && slot.id == work.id
    && !slot.receiver
    && slot.fragment == []
    && |work.bytes| <= slot.remaining && slot.remaining - |work.bytes| == work.remaining
    && |work.bytes| <= MAX_FRAGMENT
    && !(work.pending && work.bytes == [])
    && work.receiver
  }

  function Retain(slot: Slot, work: Work): Option<(Slot, Work)> {
    if !Rejoins(slot, work) then None
    else if work.pending then
      Some((slot.(receiver := true, parked := true, fragment := work.bytes), work.(receiver := false, bytes := [])))
    else
      Some((slot.(receiver := true, parked := false, remaining := work.remaining), work.(receiver := false)))
  }

  /** What the adopter did with the work: whether it answered, what it took, whether it finished. */
  datatype Ran = Ran(work: Work, answered: bool, taken: Bytes, finished: bool)

  function RunWork(work: Work, begins: bool, push: Push): Ran {
    var w := work.(pending := false);
    if !w.context then Ran(w, false, [], false)
    else if w.header then Ran(w.(header := false, receiver := begins || w.receiver), !begins, [], false)
    else if !w.receiver then Ran(w, false, [], false)
    else match push
      case Rejected => Ran(w.(receiver := false), true, [], false)
      case Postponed => Ran(w.(pending := true), false, [], false)
      case Consumed =>
        if w.remaining == 0 then Ran(w.(receiver := false), true, w.bytes, true) else Ran(w, false, w.bytes, false)
  }

  // ---- runs ---------------------------------------------------------------------

  datatype Stage = Idle | Taken(work: Work) | Done(work: Work, answered: bool)

  /**
   `body` is the plaintext behind the header, `read` how much of it the transport has
   given out, `consumed` what the receiver took, `finishes` how often it was finished.
   */
  datatype State = State(
    body: Bytes, length: nat, slot: Option<Slot>, stage: Stage, read: nat, consumed: Bytes, finishes: nat)

  datatype Event =
    | Extract(context: bool, chunk: nat)
    | Serve(begins: bool, push: Push)
    | Finish(valid: bool)
    | CreditReady
    | Invalidate

  /** The bytes the next extraction offers: a kept fragment first, otherwise fresh input. */
  function Offered(s: State, context: bool, chunk: nat): Bytes
    requires s.slot.Some?
  {
    var slot := s.slot.value;
    if !context || slot.header then []
    else if slot.fragment != [] then slot.fragment
    else
      var n := Min(chunk, Min(slot.remaining, MAX_FRAGMENT));
      if s.read + n <= |s.body| then s.body[s.read..s.read + n] else []
  }

  function DoExtract(s: State, context: bool, chunk: nat): State
    requires s.slot.Some? && s.stage.Idle?
  {
    var slot := s.slot.value;
    var bytes := Offered(s, context, chunk);
    var left := slot.(header := false, fragment := if context && !slot.header then [] else slot.fragment);
    var read := s.read + if slot.fragment == [] then |bytes| else 0;
    if |bytes| > slot.remaining then s.(slot := Some(left), read := read)
    else s.(slot := Some(left.(receiver := false)), read := read,
            stage := Taken(Work(slot.id, context, slot.header, slot.receiver, bytes, slot.remaining - |bytes|, false)))
  }

  function DoServe(s: State, begins: bool, push: Push): State
    requires s.stage.Taken?
  {
    var r := RunWork(s.stage.work, begins, push);
    s.(stage := Done(r.work, r.answered), consumed := s.consumed + r.taken,
       finishes := s.finishes + if r.finished then 1 else 0)
  }

  function DoFinish(s: State, valid: bool): State
    requires s.stage.Done?
  {
    var (work, answered) := (s.stage.work, s.stage.answered);
    var t := s.(stage := Idle);
    if s.slot.None? || s.slot.value.id.nonce != work.id.nonce then t
    else if !valid || !work.context || s.slot.value.receiver || answered then t.(slot := None)
    else match Retain(s.slot.value, work)
      case None => t.(slot := None)
      case Some((slot, _)) => t.(slot := Some(slot))
  }

  function Step(s: State, e: Event): State {
    match e
    case Extract(context, chunk) => if s.slot.Some? && s.stage.Idle? then DoExtract(s, context, chunk) else s
    case Serve(begins, push) => if s.stage.Taken? then DoServe(s, begins, push) else s
    case Finish(valid) => if s.stage.Done? then DoFinish(s, valid) else s
    case CreditReady => if s.slot.Some? then s.(slot := Some(s.slot.value.(parked := false))) else s
    case Invalidate => s.(slot := None)
  }

  function Run(s: State, events: seq<Event>): State {
    if events == [] then s else Step(Run(s, events[..|events| - 1]), events[|events| - 1])
  }

  function Admitted(id: Identity, body: Bytes, length: nat): State {
    State(body, length, Some(Slot(id, true, false, length, [], false)), Idle, 0, [], 0)
  }

  // ---- what every reachable state satisfies -----------------------------------------

  /** The next `|bytes|` body bytes behind the consumed ones. */
  predicate Next(s: State, bytes: Bytes) {
    |s.consumed| + |bytes| <= |s.body| && s.body[|s.consumed|..|s.consumed| + |bytes|] == bytes
  }

  predicate SlotOk(s: State, slot: Slot) {
    && slot.remaining <= s.length
    && |s.consumed| == s.length - slot.remaining
    && Next(s, slot.fragment)
    && |slot.fragment| <= slot.remaining && |slot.fragment| <= MAX_FRAGMENT
    && (slot.header ==> s.consumed == [] && slot.fragment == [] && !slot.receiver)
  }

  /** At rest, what the slot owes and holds accounts for everything read. */
  predicate IdleOk(s: State) {
    s.slot.Some? ==> var slot := s.slot.value;
      SlotOk(s, slot) && s.read == |s.consumed| + |slot.fragment| && s.finishes == 0
  }

  predicate TakenOk(s: State, w: Work) {
    && s.finishes == 0
    && |s.consumed| + |w.bytes| + w.remaining == s.length && Next(s, w.bytes) && |w.bytes| <= MAX_FRAGMENT
    && (w.header ==> w.bytes == [] && !w.receiver)
    && (s.slot.Some? ==> var slot := s.slot.value;
         && SlotOk(s, slot) && slot.id == w.id && !slot.receiver && !slot.header
         && slot.remaining == |w.bytes| + w.remaining
         && (w.context ==> slot.fragment == [])
         && s.read == |s.consumed| + |w.bytes| + |slot.fragment|)
  }

  predicate DoneOk(s: State, w: Work, answered: bool) {
    && (s.finishes == 1 ==> answered && |s.consumed| == s.length)
    && (s.slot.Some? ==> s.slot.value.id == w.id)
    && (!answered && w.context && w.receiver ==>
         && |w.bytes| <= MAX_FRAGMENT
         && (if w.pending then |s.consumed| + |w.bytes| + w.remaining == s.length && Next(s, w.bytes)
             else |s.consumed| + w.remaining == s.length)
         && (s.slot.Some? ==> var slot := s.slot.value;
              && !slot.receiver && !slot.header && slot.fragment == []
              && slot.remaining == |w.bytes| + w.remaining <= s.length
              && s.read == s.length - w.remaining))
  }

  predicate Inv(s: State) {
    && s.consumed <= s.body && |s.consumed| <= s.length && s.finishes <= 1
    && (s.finishes == 1 ==> |s.consumed| == s.length)
    && (match s.stage
        case Idle => IdleOk(s)
        case Taken(w) => TakenOk(s, w)
        case Done(w, answered) => DoneOk(s, w, answered))
  }

  lemma ExtractKeepsInv(s: State, context: bool, chunk: nat)
    requires Inv(s) && s.slot.Some? && s.stage.Idle?
    ensures Inv(DoExtract(s, context, chunk)) && |Offered(s, context, chunk)| <= s.slot.value.remaining
  {
  }

  /** The receiver takes the fragment. */
  predicate Takes(w: Work, push: Push) {
    w.context && !w.header && w.receiver && push.Consumed?
  }

  lemma ConsumedKeepsInv(s: State, begins: bool)
    requires Inv(s) && s.stage.Taken? && Takes(s.stage.work, Consumed)
    ensures Inv(DoServe(s, begins, Consumed))
  {
    var w := s.stage.work;
    assert s.body[..|s.consumed| + |w.bytes|] == s.body[..|s.consumed|] + w.bytes;
    assert s.consumed + w.bytes <= s.body;
  }

  lemma UnconsumedKeepsInv(s: State, begins: bool, push: Push)
    requires Inv(s) && s.stage.Taken? && !Takes(s.stage.work, push)
    ensures Inv(DoServe(s, begins, push))
  {
    assert s.consumed + [] == s.consumed;
  }

  lemma ServeKeepsInv(s: State, begins: bool, push: Push)
    requires Inv(s) && s.stage.Taken?
    ensures Inv(DoServe(s, begins, push))
  {
    hide Inv, DoServe;
    if Takes(s.stage.work, push) { ConsumedKeepsInv(s, begins); } else { UnconsumedKeepsInv(s, begins, push); }
  }

  lemma FinishKeepsInv(s: State, valid: bool)
    requires Inv(s) && s.stage.Done?
    ensures Inv(DoFinish(s, valid))
  {
  }

  lemma StepKeepsInv(s: State, e: Event)
    requires Inv(s)
    ensures Inv(Step(s, e))
  {
    match e
    case Extract(context, chunk) => if s.slot.Some? && s.stage.Idle? { ExtractKeepsInv(s, context, chunk); }
    case Serve(begins, push) => if s.stage.Taken? { ServeKeepsInv(s, begins, push); }
    case Finish(valid) => if s.stage.Done? { FinishKeepsInv(s, valid); }
    case CreditReady =>
    case Invalidate =>
  }

  lemma {:induction false} RunKeepsInv(id: Identity, body: Bytes, length: nat, events: seq<Event>)
    ensures Inv(Run(Admitted(id, body, length), events))
  {
    if events != [] {
      RunKeepsInv(id, body, length, events[..|events| - 1]);
      StepKeepsInv(Run(Admitted(id, body, length), events[..|events| - 1]), events[|events| - 1]);
    }
  }

  lemma {:induction false} RunFixed(s: State, events: seq<Event>)
    ensures Run(s, events).body == s.body && Run(s, events).length == s.length
  {
    if events != [] { RunFixed(s, events[..|events| - 1]); }
  }

  /**
   In every run the receiver has consumed a prefix of the body; while the slot is at rest
   that prefix is exactly what the slot no longer owes, nothing past the declared length
   was read, and a finish came at most once, with exactly the declared length consumed.
   */
  lemma ConsumedIsBodyPrefix(id: Identity, body: Bytes, length: nat, events: seq<Event>)
    ensures var s := Run(Admitted(id, body, length), events);
      && s.consumed <= body && |s.consumed| <= length
      && (s.stage.Idle? && s.slot.Some? ==>
           && s.slot.value.remaining <= length && |s.consumed| == length - s.slot.value.remaining <= |body|
           && s.consumed == body[..|s.consumed|]
           && s.read == |s.consumed| + |s.slot.value.fragment| <= length && s.read <= |body|
           && s.slot.value.fragment == body[|s.consumed|..s.read])
      && s.finishes <= 1
      && (s.finishes == 1 ==> |s.consumed| == length)
  {
    RunKeepsInv(id, body, length, events);
    RunFixed(Admitted(id, body, length), events);
  }

  /** After a finish nothing more is consumed, read or finished. */
  lemma FinishIsFinal(s: State, e: Event)
    requires Inv(s) && s.finishes == 1
    ensures var t := Step(s, e); t.consumed == s.consumed && t.finishes == 1 && t.read == s.read
  {
  }

  /** A postponed fragment is kept whole and is exactly what the next extraction offers. */
  lemma PostponedIsOfferedAgain(s: State, context: bool, chunk: nat, begins: bool, again: nat)
    requires Inv(s) && s.slot.Some? && s.stage.Idle?
    requires var w := DoExtract(s, context, chunk).stage.work; w.context && w.receiver && w.bytes != []
    ensures var t := DoExtract(s, context, chunk);
      var u := DoFinish(DoServe(t, begins, Postponed), true);
      && u.slot.Some? && u.slot.value.parked && u.slot.value.fragment == t.stage.work.bytes
      && u.slot.value.remaining == s.slot.value.remaining
      && u.consumed == s.consumed && u.read == t.read
      && Offered(u.(slot := Some(u.slot.value.(parked := false))), true, again) == t.stage.work.bytes
      && DoExtract(u, true, again).read == u.read
  {
    ExtractKeepsInv(s, context, chunk);
  }

  /** A consumed fragment moves the session on: the slot owes that much less, keeps nothing and is ready for more. */
  lemma ConsumedMovesOn(s: State, context: bool, chunk: nat, begins: bool)
    requires Inv(s) && s.slot.Some? && s.stage.Idle?
    requires var w := DoExtract(s, context, chunk).stage.work; w.context && w.receiver && w.remaining > 0
    ensures var w := DoExtract(s, context, chunk).stage.work;
      var u := DoFinish(DoServe(DoExtract(s, context, chunk), begins, Consumed), true);
      && u.slot == Some(Slot(w.id, false, true, s.slot.value.remaining - |w.bytes|, [], false))
      && u.consumed == s.consumed + w.bytes && u.finishes == 0
  {
    ExtractKeepsInv(s, context, chunk);
  }

  // ---- what each answer of the adopter leads to -------------------------------------

  /** The work that an extraction takes out. */
  function Extracted(s: State, context: bool, chunk: nat): Work
    requires Inv(s) && s.slot.Some? && s.stage.Idle?
  {
    ExtractKeepsInv(s, context, chunk);
    DoExtract(s, context, chunk).stage.work
  }

  /** One fragment from extraction to finish. */
  function Round(s: State, context: bool, chunk: nat, begins: bool, push: Push, valid: bool): State
    requires s.slot.Some? && s.stage.Idle? && DoExtract(s, context, chunk).stage.Taken?
  {
    DoFinish(DoServe(DoExtract(s, context, chunk), begins, push), valid)
  }

  /** The consumed last fragment finishes the receiver, with an answer and the whole body, and the session is over. */
  lemma LastFragmentFinishes(s: State, context: bool, chunk: nat, begins: bool, valid: bool)
    requires Inv(s) && s.slot.Some? && s.stage.Idle?
    requires var w := Extracted(s, context, chunk); w.context && w.receiver && w.remaining == 0
    ensures var t := DoServe(DoExtract(s, context, chunk), begins, Consumed);
      && s.length <= |s.body| && t.consumed == s.body[..s.length] && t.finishes == 1
      && t.stage.Done? && t.stage.answered && !t.stage.work.receiver
      && DoFinish(t, valid).slot == None && DoFinish(t, valid).stage.Idle?
  {
    ExtractKeepsInv(s, context, chunk);
    ServeKeepsInv(DoExtract(s, context, chunk), begins, Consumed);
  }

  /** A header the adopter accepts leaves an unanswered session with a receiver; one it refuses ends with an answer. */
  lemma HeaderBegins(s: State, chunk: nat, begins: bool, push: Push)
    requires Inv(s) && s.slot.Some? && s.stage.Idle? && s.slot.value.header
    ensures var t := DoServe(DoExtract(s, true, chunk), begins, push);
      && t.stage.Done? && (t.stage.answered <==> !begins) && t.stage.work.receiver == begins
      && t.consumed == [] && t.finishes == 0
      && DoFinish(t, true).slot ==
           (if begins then Some(Slot(s.slot.value.id, false, true, s.length, [], false)) else None)
  {
    ExtractKeepsInv(s, true, chunk);
  }

  /** A rejected fragment ends the session with an answer and is not consumed. */
  lemma RejectedEnds(s: State, context: bool, chunk: nat, begins: bool, valid: bool)
    requires Inv(s) && s.slot.Some? && s.stage.Idle?
    requires var w := Extracted(s, context, chunk); w.context && w.receiver
    ensures var t := DoServe(DoExtract(s, context, chunk), begins, Rejected);
      && t.stage.Done? && t.stage.answered && t.consumed == s.consumed && t.finishes == 0
      && DoFinish(t, valid).slot == None
  {
    ExtractKeepsInv(s, context, chunk);
  }

  /** Without a context nothing is offered and the session ends without an answer. */
  lemma WithoutContextEnds(s: State, chunk: nat, begins: bool, push: Push, valid: bool)
    requires Inv(s) && s.slot.Some? && s.stage.Idle?
    ensures var t := DoServe(DoExtract(s, false, chunk), begins, push);
      && t.stage.Done? && !t.stage.answered && t.consumed == s.consumed && t.finishes == 0
      && DoFinish(t, valid).slot == None
  {
    ExtractKeepsInv(s, false, chunk);
  }

  /** An extraction offers the next bytes of the body, as many as asked for, owed and allowed at once. */
  lemma FreshBytesOffered(s: State, chunk: nat)
    requires Inv(s) && s.slot.Some? && s.stage.Idle? && !s.slot.value.header && s.slot.value.fragment == []
    requires s.length <= |s.body|
    ensures var w := Extracted(s, true, chunk);
      && |w.bytes| == Min(chunk, Min(s.slot.value.remaining, 65536))
      && w.bytes == s.body[|s.consumed|..|s.consumed| + |w.bytes|]
      && w.remaining == s.slot.value.remaining - |w.bytes| && w.context && w.receiver == s.slot.value.receiver
  {
    ExtractKeepsInv(s, true, chunk);
  }

  // ---- the whole body gets through ------------------------------------------------------

  /** The session can go on: its header is still to come or its receiver is there. */
  predicate Ready(s: State) {
    && Inv(s) && s.stage.Idle? && s.slot.Some? && (s.slot.value.header || s.slot.value.receiver)
    && s.length <= |s.body|
  }

  const FULL_ROUND: seq<Event> := [Extract(true, 1), Serve(true, Consumed), Finish(true)]

  lemma RunRound(s: State)
    requires Ready(s)
    ensures DoExtract(s, true, 1).stage.Taken? && Run(s, FULL_ROUND) == Round(s, true, 1, true, Consumed, true)
  {
    ExtractKeepsInv(s, true, 1);
    var (a, b, c) := (Extract(true, 1), Serve(true, Consumed), Finish(true));
    assert [a, b, c][..2] == [a, b] && [a, b][..1] == [a] && [a][..0] == [];
    hide DoExtract, DoServe, DoFinish;
    assert Run(s, []) == s;
    assert Run(s, [a]) == DoExtract(s, true, 1);
    assert Run(s, [a, b]) == DoServe(DoExtract(s, true, 1), true, Consumed);
  }

  function Left(s: State): nat {
    if s.slot.None? then 0 else s.slot.value.remaining + if s.slot.value.header then 1 else 0
  }

  lemma RoundGoesOn(s: State)
    requires Ready(s) && DoExtract(s, true, 1).stage.Taken?
    ensures var t := Round(s, true, 1, true, Consumed, true);
      && t.body == s.body && t.length == s.length
      && ((t.finishes == 1 && t.consumed == s.body[..s.length] && t.slot == None) || (Ready(t) && Left(t) < Left(s)))
  {
    var a := DoExtract(s, true, 1);
    ExtractKeepsInv(s, true, 1);
    ServeKeepsInv(a, true, Consumed);
    FinishKeepsInv(DoServe(a, true, Consumed), true);
    if s.slot.value.header {
      HeaderBegins(s, 1, true, Consumed);
    } else if a.stage.work.remaining == 0 {
      LastFragmentFinishes(s, true, 1, true, true);
    } else {
      ConsumedMovesOn(s, true, 1, true);
    }
  }

  lemma {:induction false} RunAppend(s: State, events: seq<Event>, more: seq<Event>)
    ensures Run(s, events + more) == Run(Run(s, events), more)
  {
    hide Step;
    if more == [] {
      assert events + more == events;
    } else {
      var front := more[..|more| - 1];
      RunAppend(s, events, front);
      assert (events + more)[..|events + more| - 1] == events + front;
    }
  }

  lemma {:induction false} Deliver(s: State) returns (events: seq<Event>)
    requires Ready(s)
    ensures var r := Run(s, events); r.finishes == 1 && r.consumed == s.body[..s.length] && r.slot == None
    decreases Left(s)
  {
    RunRound(s);
    RoundGoesOn(s);
    var t := Run(s, FULL_ROUND);
    events := FULL_ROUND;
    if t.slot != None {
      hide Ready, Round;
      var rest := Deliver(t);
      RunAppend(s, FULL_ROUND, rest);
      events := FULL_ROUND + rest;
    }
  }

  /**
   Wherever a session at rest stands, a receiver that consumes what it is offered ends up with
   the whole declared body and is finished once; in particular from its admission on.
   */
  lemma WholeBodyCanBeDelivered(id: Identity, body: Bytes, length: nat, events: seq<Event>)
    requires Ready(Run(Admitted(id, body, length), events))
    ensures exists more :: var r := Run(Admitted(id, body, length), events + more);
      r.finishes == 1 && length <= |body| && r.consumed == body[..length] && r.slot == None
  {
    var s := Run(Admitted(id, body, length), events);
    RunFixed(Admitted(id, body, length), events);
    var more := Deliver(s);
    RunAppend(Admitted(id, body, length), events, more);
  }

  /** An admitted session is ready when its body is all there, so it can be delivered whole. */
  lemma AdmittedIsReady(id: Identity, body: Bytes, length: nat)
    ensures Ready(Admitted(id, body, length)) <==> length <= |body|
  {
  }

  /** Retaining moves the receiver from the work to the slot, and a postponed fragment with it. */
  lemma RetainMoves(slot: Slot, work: Work)
    requires Rejoins(slot, work)
    ensures Retain(slot, work) ==
      if work.pending
      then Some((Slot(slot.id, slot.header, true, slot.remaining, work.bytes, true),
                 Work(work.id, work.context, work.header, false, [], work.remaining, true)))
      else Some((Slot(slot.id, slot.header, true, work.remaining, slot.fragment, false),
                 Work(work.id, work.context, work.header, false, work.bytes, work.remaining, false)))
  {
  }

  /** Returned credit unparks the slot and does nothing else; invalidation removes it and does nothing else. */
  lemma CreditAndInvalidation(s: State)
    ensures s.slot.Some? ==> Step(s, CreditReady) == s.(slot := Some(s.slot.value.(parked := false)))
    ensures s.slot.None? ==> Step(s, CreditReady) == s
    ensures Step(s, Invalidate) == s.(slot := None)
  {
  }
}
