/**
 Deferred requests: a token the adopter issued travels between the marker of its
 connection, extracted work, the cancelled queue and the terminal table until it is
 released. Tokens that are out at one time are distinct; numbers may recur after release.
 */
module DeferredIngress {
  import opened Prelude
  import opened Totals
  import opened Terminals

  const MAX_REQUESTS: nat := 16

  type Token = nat

  /** The marker of one connection; its token is away while work is extracted. */
  datatype Slot = Slot(conn: nat, nonce: nat, binding: nat, token: Option<Token>)
  datatype Work = Work(conn: nat, nonce: nat, binding: nat, token: Token)

  datatype State = State(
    next: nat, pending: seq<Slot>, works: seq<Work>, cancelled: seq<Token>, terminal: seq<Option<Token>>,
    released: seq<Token>, admitted: seq<Token>, panicked: bool)

  /** How a finishing step found the session, and whether the poll gave an answer. */
  datatype Join = Join(expired: bool, sessionOk: bool, answered: bool)

  datatype Event =
    | Admit(at: nat, conn: nat, binding: nat, start: Option<Token>)
    | Extract(i: nat)
    | Finish(k: nat, join: Join)
    | Invalidate(conn: nat)
    | ReleaseCancelled
    | ReleaseTerminal
    | DropSlot
    | DropCancelled
    | NewServer

  // ---- the effect of each step -------------------------------------------------

  /** The index of the marker of a connection; the number of markers when it has none. */
  function Find(pending: seq<Slot>, conn: nat): (j: nat)
    ensures j <= |pending| && (j < |pending| ==> pending[j].conn == conn)
    ensures forall i :: 0 <= i < j ==> pending[i].conn != conn
  {
    if pending == [] || pending[0].conn == conn then 0 else 1 + Find(pending[1..], conn)
  }

  predicate PendingCapacity(pending: nat, debt: nat) {
    pending + debt < MAX_REQUESTS
  }

  predicate TokenOut(s: State, t: Token) {
    || (exists i :: 0 <= i < |s.pending| && s.pending[i].token == Some(t))
    || (exists k :: 0 <= k < |s.works| && s.works[k].token == t)
    || t in s.cancelled || Some(t) in s.terminal
  }

  /** Room is reserved and the nonce taken before the adopter starts; it may answer or decline at once. */
  function DoAdmit(s: State, at: nat, conn: nat, binding: nat, start: Option<Token>): State
    requires at <= |s.pending|
  {
    if Find(s.pending, conn) < |s.pending| then s
    else if !PendingCapacity(|s.pending|, |s.cancelled| + Total(Occupied, s.terminal)) then s
    else if s.next + 1 >= U64 then s
    else match start
      case None => s.(next := s.next + 1)
      case Some(t) =>
        if TokenOut(s, t) then s
        else s.(next := s.next + 1, admitted := s.admitted + [t],
                pending := s.pending[..at] + [Slot(conn, s.next + 1, binding, Some(t))] + s.pending[at..])
  }

  function DoExtract(s: State, i: nat): State
    requires i < |s.pending| && s.pending[i].token.Some?
  {
    var p := s.pending[i];
    s.(pending := s.pending[i := p.(token := None)],
      works := s.works + [Work(p.conn, p.nonce, p.binding, p.token.value)])
  }

  predicate MatchesInflight(p: Slot, w: Work, expired: bool) {
    p.nonce == w.nonce && p.binding == w.binding && p.token.None? && !expired
  }

  /** A retained token goes back to its marker; every other outcome releases it. */
  function DoFinish(s: State, k: nat, join: Join): State
    requires k < |s.works|
  {
    var w := s.works[k];
    var j := Find(s.pending, w.conn);
    var t := s.(works := Without(s.works, k));
    var out := t.(released := t.released + [w.token]);
    if j >= |s.pending| then out
    else if !MatchesInflight(s.pending[j], w, join.expired) then
      if s.pending[j].nonce == w.nonce then out.(pending := Without(s.pending, j)) else out
    else if !join.sessionOk then out.(pending := Without(s.pending, j))
    else if !join.answered then t.(pending := s.pending[j := s.pending[j].(token := Some(w.token))])
    else out.(pending := Without(s.pending, j))
  }

  function DoInvalidate(s: State, j: nat): State
    requires j < |s.pending|
  {
    var p := s.pending[j];
    var t := s.(pending := Without(s.pending, j));
    if p.token.Some? then t.(cancelled := t.cancelled + [p.token.value]) else t
  }

  function DoReleaseTerminal(s: State): State {
    var k := FirstHeld(s.terminal);
    if k >= |s.terminal| then s
    else s.(terminal := s.terminal[k := None], released := s.released + [s.terminal[k].value])
  }

  /** An equal token already in the table is not stored again. */
  function HandOff(s: State, t: Token): State {
    if Some(t) in s.terminal then s
    else
      var k := FirstFree(s.terminal);
      if k >= |s.terminal| then s.(panicked := true) else s.(terminal := s.terminal[k := Some(t)])
  }

  function DoDropSlot(s: State): State
    requires s.pending != []
  {
    var t := s.(pending := s.pending[1..]);
    if s.pending[0].token.Some? then HandOff(t, s.pending[0].token.value) else t
  }

  function Step(s: State, e: Event): State {
    match e
    case Admit(at, conn, binding, start) => if at <= |s.pending| then DoAdmit(s, at, conn, binding, start) else s
    case Extract(i) => if i < |s.pending| && s.pending[i].token.Some? then DoExtract(s, i) else s
    case Finish(k, join) => if k < |s.works| then DoFinish(s, k, join) else s
    case Invalidate(conn) => if Find(s.pending, conn) < |s.pending| then DoInvalidate(s, Find(s.pending, conn)) else s
    case ReleaseCancelled =>
      if s.cancelled == [] then s else s.(cancelled := s.cancelled[1..], released := s.released + [s.cancelled[0]])
    case ReleaseTerminal => DoReleaseTerminal(s)
    case DropSlot => if s.pending == [] then s else DoDropSlot(s)
    case DropCancelled => if s.cancelled == [] then s else HandOff(s.(cancelled := s.cancelled[1..]), s.cancelled[0])
    case NewServer => if s.pending == [] && s.cancelled == [] && s.works == [] then s.(next := 0) else s
  }

  function Run(s: State, events: seq<Event>): State {
    if events == [] then s else Step(Run(s, events[..|events| - 1]), events[|events| - 1])
  }

  function Start(): State {
    State(0, [], [], [], seq(MAX_REQUESTS, _ => None), [], [], false)
  }

  // ---- where a token is ----------------------------------------------------------

  function InSlot(t: Token): Slot -> nat { (p: Slot) => if p.token == Some(t) then 1 else 0 }

  function InWork(t: Token): Work -> nat { (w: Work) => if w.token == t then 1 else 0 }

  function InQueue(t: Token): Token -> nat { (x: Token) => if x == t then 1 else 0 }

  function InTable(t: Token): Option<Token> -> nat { (x: Option<Token>) => if x == Some(t) then 1 else 0 }

  /** In how many places a token is out. */
  function Places(s: State, t: Token): nat {
    Total(InSlot(t), s.pending) + Total(InWork(t), s.works) + Total(InQueue(t), s.cancelled)
    + Total(InTable(t), s.terminal)
  }

  /** Every admission of a token is out in one place or released. */
  ghost predicate Conserved(s: State) {
    forall t: Token ::
      Places(s, t) + Total(InQueue(t), s.released) == Total(InQueue(t), s.admitted) && Places(s, t) <= 1
  }

  /** Markers have their own connections and nonces. */
  predicate MarkersOk(pending: seq<Slot>, next: nat) {
    && (forall i, j :: 0 <= i < j < |pending| ==>
          pending[i].conn != pending[j].conn && pending[i].nonce != pending[j].nonce)
    && (forall i :: 0 <= i < |pending| ==> pending[i].nonce <= next)
  }

  predicate WorksOk(works: seq<Work>, next: nat) {
    && (forall k, l :: 0 <= k < l < |works| ==> works[k].nonce != works[l].nonce)
    && (forall k :: 0 <= k < |works| ==> works[k].nonce <= next)
  }

  /** Work and a marker with its nonce agree, and the marker is without its token. */
  predicate Matched(pending: seq<Slot>, works: seq<Work>) {
    forall i, k :: 0 <= i < |pending| && 0 <= k < |works| && pending[i].nonce == works[k].nonce ==>
      pending[i].conn == works[k].conn && pending[i].binding == works[k].binding && pending[i].token.None?
  }

  predicate HasWork(works: seq<Work>, nonce: nat) {
    exists k :: 0 <= k < |works| && works[k].nonce == nonce
  }

  /** A marker without its token has work under way. */
  predicate Away(pending: seq<Slot>, works: seq<Work>) {
    forall i :: 0 <= i < |pending| && pending[i].token.None? ==> HasWork(works, pending[i].nonce)
  }

  ghost predicate Joined(s: State) {
    s.next < U64 && MarkersOk(s.pending, s.next) && WorksOk(s.works, s.next) && Matched(s.pending, s.works) &&
      Away(s.pending, s.works)
  }

  ghost predicate Bounded(s: State) {
    |s.terminal| == MAX_REQUESTS && |s.pending| + |s.cancelled| + Total(Occupied, s.terminal) <= MAX_REQUESTS
  }

  ghost predicate Inv(s: State) {
    Conserved(s) && Joined(s) && Bounded(s) && !s.panicked
  }

  // ---- conservation ----------------------------------------------------------------

  lemma NotOut(s: State, t: Token)
    requires !TokenOut(s, t)
    ensures Places(s, t) == 0
  {
    TotalNone(InSlot(t), s.pending);
    TotalNone(InWork(t), s.works);
    TotalNone(InQueue(t), s.cancelled);
    TotalNone(InTable(t), s.terminal);
  }

  lemma TotalInsert<T>(w: T -> nat, s: seq<T>, i: nat, x: T)
    requires i <= |s|
    ensures Total(w, s[..i] + [x] + s[i..]) == Total(w, s) + w(x)
  {
    hide Total;
    TotalConcat(w, s[..i] + [x], s[i..]);
    TotalSnoc(w, s[..i], x);
    TotalConcat(w, s[..i], s[i..]);
    assert s[..i] + s[i..] == s;
  }

  lemma AdmitConserved(s: State, at: nat, conn: nat, binding: nat, start: Option<Token>)
    requires Conserved(s) && at <= |s.pending|
    ensures Conserved(DoAdmit(s, at, conn, binding, start))
  {
    var t := DoAdmit(s, at, conn, binding, start);
    if t.pending != s.pending {
      NotOut(s, start.value);
      forall x: Token
        ensures Places(t, x) + Total(InQueue(x), t.released) == Total(InQueue(x), t.admitted) && Places(t, x) <= 1
      {
        assert Places(s, x) + Total(InQueue(x), s.released) == Total(InQueue(x), s.admitted);
        TotalInsert(InSlot(x), s.pending, at, Slot(conn, s.next + 1, binding, start));
        TotalSnoc(InQueue(x), s.admitted, start.value);
      }
    } else {
      SamePlaces(s, t);
    }
  }

  lemma SamePlaces(s: State, t: State)
    requires Conserved(s) && t.pending == s.pending && t.works == s.works && t.cancelled == s.cancelled
    requires t.terminal == s.terminal && t.released == s.released && t.admitted == s.admitted
    ensures Conserved(t)
  {
    forall x: Token
      ensures Places(t, x) + Total(InQueue(x), t.released) == Total(InQueue(x), t.admitted) && Places(t, x) <= 1
    {
      assert Places(s, x) + Total(InQueue(x), s.released) == Total(InQueue(x), s.admitted);
    }
  }

  lemma ExtractConserved(s: State, i: nat)
    requires Conserved(s) && i < |s.pending| && s.pending[i].token.Some?
    ensures Conserved(DoExtract(s, i))
  {
    var t := DoExtract(s, i);
    forall x: Token
      ensures Places(t, x) + Total(InQueue(x), t.released) == Total(InQueue(x), t.admitted) && Places(t, x) <= 1
    {
      assert Places(s, x) + Total(InQueue(x), s.released) == Total(InQueue(x), s.admitted);
      TotalUpdate(InSlot(x), s.pending, i, t.pending[i]);
      TotalSnoc(InWork(x), s.works, t.works[|s.works|]);
    }
  }

  /** The token leaves the work and is released, or returns to the marker at `j`. */
  lemma FinishPlaces(s: State, k: nat, join: Join, x: Token)
    requires Joined(s) && k < |s.works|
    ensures var t := DoFinish(s, k, join);
      && Places(t, x) + Total(InQueue(x), t.released) == Places(s, x) + Total(InQueue(x), s.released)
      && Places(t, x) <= Places(s, x)
      && t.admitted == s.admitted
  {
    hide Without, Joined;
    var w := s.works[k];
    var j := Find(s.pending, w.conn);
    WorkGone(s.works, k, x);
    TotalSnoc(InQueue(x), s.released, w.token);
    if j < |s.pending| {
      assert s.pending[j].nonce == w.nonce ==> s.pending[j].token.None? by { MarkerEmpty(s, k, j); }
      SlotGone(s.pending, j, x);
      TotalUpdate(InSlot(x), s.pending, j, s.pending[j].(token := Some(w.token)));
    }
  }

  lemma MarkerEmpty(s: State, k: nat, j: nat)
    requires Joined(s) && k < |s.works| && j < |s.pending|
    ensures s.pending[j].nonce == s.works[k].nonce ==> s.pending[j].token.None?
  {
  }

  lemma WorkGone(works: seq<Work>, k: nat, x: Token)
    requires k < |works|
    ensures Total(InWork(x), Without(works, k)) + InWork(x)(works[k]) == Total(InWork(x), works)
  {
    TotalRemove(InWork(x), works, k);
  }

  lemma SlotGone(pending: seq<Slot>, j: nat, x: Token)
    requires j < |pending|
    ensures Total(InSlot(x), Without(pending, j)) + InSlot(x)(pending[j]) == Total(InSlot(x), pending)
  {
    TotalRemove(InSlot(x), pending, j);
  }

  lemma FinishConserved(s: State, k: nat, join: Join)
    requires Conserved(s) && Joined(s) && k < |s.works|
    ensures Conserved(DoFinish(s, k, join))
  {
    var t := DoFinish(s, k, join);
    forall x: Token
      ensures Places(t, x) + Total(InQueue(x), t.released) == Total(InQueue(x), t.admitted) && Places(t, x) <= 1
    {
      hide Places, DoFinish;
      assert Places(s, x) + Total(InQueue(x), s.released) == Total(InQueue(x), s.admitted);
      FinishPlaces(s, k, join, x);
    }
  }

  lemma InvalidateConserved(s: State, j: nat)
    requires Conserved(s) && j < |s.pending|
    ensures Conserved(DoInvalidate(s, j))
  {
    var t := DoInvalidate(s, j);
    forall x: Token
      ensures Places(t, x) + Total(InQueue(x), t.released) == Total(InQueue(x), t.admitted) && Places(t, x) <= 1
    {
      assert Places(s, x) + Total(InQueue(x), s.released) == Total(InQueue(x), s.admitted);
      TotalRemove(InSlot(x), s.pending, j);
      if s.pending[j].token.Some? { TotalSnoc(InQueue(x), s.cancelled, s.pending[j].token.value); }
    }
  }

  lemma ReleaseConserved(s: State)
    requires Conserved(s)
    ensures Conserved(Step(s, ReleaseCancelled)) && Conserved(DoReleaseTerminal(s))
  {
    var t, u := Step(s, ReleaseCancelled), DoReleaseTerminal(s);
    var k := FirstHeld(s.terminal);
    forall x: Token
      ensures Places(t, x) + Total(InQueue(x), t.released) == Total(InQueue(x), t.admitted) && Places(t, x) <= 1
    {
      assert Places(s, x) + Total(InQueue(x), s.released) == Total(InQueue(x), s.admitted);
      if s.cancelled != [] { TotalSnoc(InQueue(x), s.released, s.cancelled[0]); }
    }
    forall x: Token
      ensures Places(u, x) + Total(InQueue(x), u.released) == Total(InQueue(x), u.admitted) && Places(u, x) <= 1
    {
      assert Places(s, x) + Total(InQueue(x), s.released) == Total(InQueue(x), s.admitted);
      if k < |s.terminal| {
        TotalUpdate(InTable(x), s.terminal, k, None);
        TotalSnoc(InQueue(x), s.released, s.terminal[k].value);
      }
    }
  }

  /** A token on its way to the table is not there yet and finds a place. */
  lemma HandOffStores(s: State, t: Token)
    requires Total(InTable(t), s.terminal) == 0 && Total(Occupied, s.terminal) < |s.terminal|
    ensures var k := FirstFree(s.terminal);
      k < |s.terminal| && HandOff(s, t) == s.(terminal := s.terminal[k := Some(t)])
  {
    RoomFound(s.terminal);
    if Some(t) in s.terminal {
      var i :| 0 <= i < |s.terminal| && s.terminal[i] == Some(t);
      TotalAtLeast(InTable(t), s.terminal, i);
    }
  }

  lemma DropSlotConserved(s: State)
    requires Conserved(s) && Bounded(s) && s.pending != []
    ensures Conserved(DoDropSlot(s)) && DoDropSlot(s).panicked == s.panicked
  {
    var t := DoDropSlot(s);
    var mid := s.(pending := s.pending[1..]);
    var tok := s.pending[0].token;
    var k := FirstFree(s.terminal);
    if tok.Some? {
      assert Places(s, tok.value) <= 1;
      HandOffStores(mid, tok.value);
    }
    forall x: Token
      ensures Places(t, x) + Total(InQueue(x), t.released) == Total(InQueue(x), t.admitted) && Places(t, x) <= 1
    {
      assert Places(s, x) + Total(InQueue(x), s.released) == Total(InQueue(x), s.admitted);
      if tok.Some? { TotalUpdate(InTable(x), s.terminal, k, tok); }
    }
  }

  lemma DropCancelledConserved(s: State)
    requires Conserved(s) && Bounded(s) && s.cancelled != []
    ensures Conserved(Step(s, DropCancelled)) && Step(s, DropCancelled).panicked == s.panicked
  {
    var t := Step(s, DropCancelled);
    var tok := s.cancelled[0];
    var k := FirstFree(s.terminal);
    assert Places(s, tok) <= 1;
    HandOffStores(s.(cancelled := s.cancelled[1..]), tok);
    forall x: Token
      ensures Places(t, x) + Total(InQueue(x), t.released) == Total(InQueue(x), t.admitted) && Places(t, x) <= 1
    {
      assert Places(s, x) + Total(InQueue(x), s.released) == Total(InQueue(x), s.admitted);
      TotalUpdate(InTable(x), s.terminal, k, Some(tok));
    }
  }

  lemma ConservedKept(s: State, e: Event)
    requires Inv(s)
    ensures Conserved(Step(s, e)) && !Step(s, e).panicked
  {
    hide Conserved, Joined, Bounded, Find, Without;
    match e
    case Admit(at, conn, binding, start) => if at <= |s.pending| { AdmitConserved(s, at, conn, binding, start); }
    case Extract(i) => if i < |s.pending| && s.pending[i].token.Some? { ExtractConserved(s, i); }
    case Finish(k, join) => if k < |s.works| { FinishConserved(s, k, join); }
    case Invalidate(conn) => if Find(s.pending, conn) < |s.pending| { InvalidateConserved(s, Find(s.pending, conn)); }
    case ReleaseCancelled => ReleaseConserved(s);
    case ReleaseTerminal => ReleaseConserved(s);
    case DropSlot => if s.pending != [] { DropSlotConserved(s); }
    case DropCancelled => if s.cancelled != [] { DropCancelledConserved(s); }
    case NewServer => SamePlaces(s, Step(s, e));
  }

  // ---- bounds -------------------------------------------------------------------------

  lemma HandOffBounded(s: State, t: Token)
    ensures |HandOff(s, t).terminal| == |s.terminal| &&
      Total(Occupied, HandOff(s, t).terminal) <= Total(Occupied, s.terminal) + 1
  {
    var k := FirstFree(s.terminal);
    if k < |s.terminal| { TotalUpdate(Occupied, s.terminal, k, Some(t)); }
  }

  lemma BoundedKept(s: State, e: Event)
    requires Bounded(s)
    ensures Bounded(Step(s, e))
  {
    hide Total, TokenOut, MatchesInflight, FirstFree, Without, Find;
    match e
    case DropSlot =>
      if s.pending != [] && s.pending[0].token.Some? {
        HandOffBounded(s.(pending := s.pending[1..]), s.pending[0].token.value);
      }
    case DropCancelled => if s.cancelled != [] { HandOffBounded(s.(cancelled := s.cancelled[1..]), s.cancelled[0]); }
    case ReleaseTerminal =>
      var k := FirstHeld(s.terminal);
      if k < |s.terminal| { TotalUpdate(Occupied, s.terminal, k, None); }
    case _ =>
  }

  // ---- the join -------------------------------------------------------------------------

  lemma ExtractJoined(s: State, i: nat)
    requires Joined(s) && i < |s.pending| && s.pending[i].token.Some?
    ensures Joined(DoExtract(s, i))
  {
    var t := DoExtract(s, i);
    forall j | 0 <= j < |t.pending| && t.pending[j].token.None? ensures HasWork(t.works, t.pending[j].nonce) {
      if j == i {
        assert t.works[|s.works|].nonce == t.pending[j].nonce;
      } else {
        var k :| 0 <= k < |s.works| && s.works[k].nonce == s.pending[j].nonce;
        assert t.works[k] == s.works[k];
      }
    }
  }

  lemma WithoutMarker(s: State, j: nat)
    requires Joined(s) && j < |s.pending|
    ensures Joined(s.(pending := Without(s.pending, j)))
  {
    var p := Without(s.pending, j);
    forall i | 0 <= i < |p| ensures p[i] == s.pending[if i < j then i else i + 1] {}
  }

  lemma FirstMarker(s: State)
    requires Joined(s) && s.pending != []
    ensures Joined(s.(pending := s.pending[1..]))
  {
    assert Without(s.pending, 0) == s.pending[1..];
    WithoutMarker(s, 0);
  }

  lemma WorkStays(works: seq<Work>, k: nat, nonce: nat)
    requires k < |works| && works[k].nonce != nonce && HasWork(works, nonce)
    ensures HasWork(Without(works, k), nonce)
  {
    var l :| 0 <= l < |works| && works[l].nonce == nonce;
    if l < k { assert Without(works, k)[l] == works[l]; } else { assert Without(works, k)[l - 1] == works[l]; }
  }

  /** Work can go once no marker waits for it. */
  lemma WithoutDoneWork(s: State, k: nat)
    requires Joined(s) && k < |s.works|
    requires forall i :: 0 <= i < |s.pending| ==> s.pending[i].nonce != s.works[k].nonce
    ensures Joined(s.(works := Without(s.works, k)))
  {
    var w := Without(s.works, k);
    forall i | 0 <= i < |w| ensures w[i] == s.works[if i < k then i else i + 1] {}
    forall i | 0 <= i < |s.pending| && s.pending[i].token.None? ensures HasWork(w, s.pending[i].nonce) {
      WorkStays(s.works, k, s.pending[i].nonce);
    }
  }

  /** The only marker with the nonce of a piece of work is the one of its connection. */
  lemma MarkerOfWork(s: State, k: nat)
    requires Joined(s) && k < |s.works|
    ensures var j := Find(s.pending, s.works[k].conn);
      forall i :: 0 <= i < |s.pending| && i != j ==> s.pending[i].nonce != s.works[k].nonce
  {
  }

  lemma FinishJoined(s: State, k: nat, join: Join)
    requires Joined(s) && k < |s.works|
    ensures Joined(DoFinish(s, k, join))
  {
    var w := s.works[k];
    var j := Find(s.pending, w.conn);
    MarkerOfWork(s, k);
    if j >= |s.pending| || s.pending[j].nonce != w.nonce {
      WithoutDoneWork(s, k);
    } else if MatchesInflight(s.pending[j], w, join.expired) && join.sessionOk && !join.answered {
      RetainJoined(s, k, j);
    } else {
      var mid := s.(pending := Without(s.pending, j));
      WithoutMarker(s, j);
      forall i | 0 <= i < |mid.pending| ensures mid.pending[i] == s.pending[if i < j then i else i + 1] {}
      WithoutDoneWork(mid, k);
    }
  }

  lemma RetainJoined(s: State, k: nat, j: nat)
    requires Joined(s) && k < |s.works| && j < |s.pending| && s.pending[j].nonce == s.works[k].nonce
    ensures Joined(s.(works := Without(s.works, k),
      pending := s.pending[j := s.pending[j].(token := Some(s.works[k].token))]))
  {
    var w := Without(s.works, k);
    var p := s.pending[j := s.pending[j].(token := Some(s.works[k].token))];
    forall i | 0 <= i < |w| ensures w[i] == s.works[if i < k then i else i + 1] && w[i].nonce != s.works[k].nonce {}
    forall i | 0 <= i < |p| && p[i].token.None? ensures HasWork(w, p[i].nonce) {
      assert i != j && p[i] == s.pending[i];
      WorkStays(s.works, k, p[i].nonce);
    }
  }

  /** A marker with a fresh nonce on a free connection joins the others. */
  lemma InsertJoined(s: State, at: nat, x: Slot, p: seq<Slot>)
    requires Joined(s) && at <= |s.pending| && |p| == |s.pending| + 1 && p[at] == x
    requires forall i :: 0 <= i < |p| && i != at ==> p[i] == s.pending[if i < at then i else i - 1]
    requires x.nonce == s.next + 1 < U64 && x.token.Some?
    requires forall i :: 0 <= i < |s.pending| ==> s.pending[i].conn != x.conn
    ensures Joined(s.(next := s.next + 1, pending := p))
  {
    assert MarkersOk(p, s.next + 1);
    assert Matched(p, s.works);
    assert Away(p, s.works);
  }

  lemma AdmitJoined(s: State, at: nat, conn: nat, binding: nat, start: Option<Token>)
    requires Joined(s) && at <= |s.pending|
    ensures Joined(DoAdmit(s, at, conn, binding, start))
  {
    var t := DoAdmit(s, at, conn, binding, start);
    if t.pending != s.pending {
      InsertJoined(s, at, Slot(conn, s.next + 1, binding, start), t.pending);
    }
  }

  lemma NothingJoined(s: State)
    ensures s.pending == [] && s.works == [] ==> Joined(s.(next := 0))
  {
  }

  lemma JoinedKept(s: State, e: Event)
    requires Joined(s)
    ensures Joined(Step(s, e))
  {
    hide MarkersOk, WorksOk, Matched, Away, DoAdmit, DoExtract, DoFinish;
    match e
    case Admit(at, conn, binding, start) => if at <= |s.pending| { AdmitJoined(s, at, conn, binding, start); }
    case Extract(i) => if i < |s.pending| && s.pending[i].token.Some? { ExtractJoined(s, i); }
    case Finish(k, join) => if k < |s.works| { FinishJoined(s, k, join); }
    case Invalidate(conn) => if Find(s.pending, conn) < |s.pending| { WithoutMarker(s, Find(s.pending, conn)); }
    case DropSlot => if s.pending != [] { FirstMarker(s); }
    case NewServer => NothingJoined(s);
    case _ =>
  }

  // ---- whole runs ------------------------------------------------------------------------

  lemma StepKeepsInv(s: State, e: Event)
    requires Inv(s)
    ensures Inv(Step(s, e))
  {
    hide Conserved, Joined, Bounded, Step;
    ConservedKept(s, e);
    JoinedKept(s, e);
    BoundedKept(s, e);
  }

  lemma StartInv()
    ensures Inv(Start())
  {
    TotalNone(Occupied, Start().terminal);
    forall t: Token ensures Places(Start(), t) == 0 { TotalNone(InTable(t), Start().terminal); }
  }

  lemma {:induction false} RunKeepsInv(events: seq<Event>)
    ensures Inv(Run(Start(), events))
  {
    hide Inv, Step;
    if events == [] {
      StartInv();
    } else {
      RunKeepsInv(events[..|events| - 1]);
      StepKeepsInv(Run(Start(), events[..|events| - 1]), events[|events| - 1]);
    }
  }

  /** Every admission of a token is out in exactly one place, or was released exactly once. */
  lemma TokensConserved(events: seq<Event>, t: Token)
    ensures var s := Run(Start(), events);
      Places(s, t) <= 1 && Places(s, t) + Total(InQueue(t), s.released) == Total(InQueue(t), s.admitted)
  {
    RunKeepsInv(events);
  }

  /** Markers, cancelled tokens and terminal tokens never exceed sixteen, and no hand-off finds the table full. */
  lemma DebtBounded(events: seq<Event>)
    ensures var s := Run(Start(), events);
      && |s.pending| + |s.cancelled| + Total(Occupied, s.terminal) <= 16 && !s.panicked
      && (s.pending != [] || s.cancelled != [] ==> FirstFree(s.terminal) < |s.terminal|)
  {
    RunKeepsInv(events);
    var s := Run(Start(), events);
    hide Run;
    if s.pending != [] || s.cancelled != [] { RoomFound(s.terminal); }
  }

  // ---- a reused connection --------------------------------------------------------------

  /** A nonce was issued, and any marker or work that carries it belongs to this request. */
  ghost predicate Belongs(s: State, nonce: nat, conn: nat, binding: nat) {
    && nonce <= s.next
    && (forall i :: 0 <= i < |s.pending| && s.pending[i].nonce == nonce ==>
         s.pending[i].conn == conn && s.pending[i].binding == binding)
  }

  ghost predicate SameServer(events: seq<Event>) {
    forall i :: 0 <= i < |events| ==> !events[i].NewServer?
  }

  /** What becomes of the markers when work finishes: nothing, or one change to the marker of its nonce. */
  lemma FinishPending(s: State, k: nat, join: Join)
    requires k < |s.works|
    ensures var (t, f) := (DoFinish(s, k, join), Find(s.pending, s.works[k].conn));
      || t.pending == s.pending
      || (f < |s.pending| && s.pending[f].nonce == s.works[k].nonce
          && (t.pending == Without(s.pending, f)
              || t.pending == s.pending[f := s.pending[f].(token := Some(s.works[k].token))]))
  {
    hide Without;
  }

  /** Some marker has the nonce, connection and binding of this one. */
  predicate Kin(pending: seq<Slot>, p: Slot) {
    exists i :: 0 <= i < |pending| && pending[i].nonce == p.nonce && pending[i].conn == p.conn &&
      pending[i].binding == p.binding
  }

  lemma KinOf(pending: seq<Slot>, i: nat, p: Slot)
    requires i < |pending| && pending[i].nonce == p.nonce && pending[i].conn == p.conn &&
      pending[i].binding == p.binding
    ensures Kin(pending, p)
  {
  }

  lemma KinWithout(pending: seq<Slot>, f: nat, j: nat)
    requires f < |pending| && j < |Without(pending, f)|
    ensures Kin(pending, Without(pending, f)[j])
  {
    KinOf(pending, if j < f then j else j + 1, Without(pending, f)[j]);
  }

  lemma AdmitKin(s: State, at: nat, conn: nat, binding: nat, start: Option<Token>, j: nat)
    requires at <= |s.pending| && j < |DoAdmit(s, at, conn, binding, start).pending|
    ensures var p := DoAdmit(s, at, conn, binding, start).pending[j]; p.nonce > s.next || Kin(s.pending, p)
  {
    hide Kin, TokenOut, Find;
    var t := DoAdmit(s, at, conn, binding, start);
    if t.pending == s.pending {
      KinOf(s.pending, j, t.pending[j]);
    } else if j != at {
      KinOf(s.pending, if j < at then j else j - 1, t.pending[j]);
    }
  }

  /** Every marker after a step had its nonce before, or has one that was not issued yet. */
  lemma MarkersFromBefore(s: State, e: Event, j: nat)
    requires !e.NewServer? && j < |Step(s, e).pending|
    ensures Step(s, e).pending[j].nonce > s.next || Kin(s.pending, Step(s, e).pending[j])
  {
    hide Kin, Without, TokenOut, Find, DoAdmit, DoFinish;
    var p := Step(s, e).pending[j];
    match e
    case Admit(at, conn, binding, start) =>
      if at <= |s.pending| { AdmitKin(s, at, conn, binding, start, j); } else { KinOf(s.pending, j, p); }
    case Finish(k, join) =>
      if k < |s.works| { FinishKin(s, k, join, j); } else { KinOf(s.pending, j, p); }
    case Invalidate(conn) =>
      if Find(s.pending, conn) < |s.pending| { KinWithout(s.pending, Find(s.pending, conn), j); }
      else { KinOf(s.pending, j, p); }
    case DropSlot => KinOf(s.pending, if s.pending == [] then j else j + 1, p);
    case _ => KinOf(s.pending, j, p);
  }

  lemma FinishKin(s: State, k: nat, join: Join, j: nat)
    requires k < |s.works| && j < |DoFinish(s, k, join).pending|
    ensures Kin(s.pending, DoFinish(s, k, join).pending[j])
  {
    hide Kin, Without, DoFinish;
    FinishPending(s, k, join);
    var t := DoFinish(s, k, join);
    var f := Find(s.pending, s.works[k].conn);
    if f < |s.pending| && t.pending == Without(s.pending, f) {
      KinWithout(s.pending, f, j);
    } else {
      KinOf(s.pending, j, t.pending[j]);
    }
  }

  lemma BelongsStill(s: State, e: Event, nonce: nat, conn: nat, binding: nat)
    requires Joined(s) && !e.NewServer? && Belongs(s, nonce, conn, binding)
    ensures Belongs(Step(s, e), nonce, conn, binding)
  {
    var t := Step(s, e);
    forall j | 0 <= j < |t.pending| && t.pending[j].nonce == nonce
      ensures t.pending[j].conn == conn && t.pending[j].binding == binding
    {
      hide Step;
      MarkersFromBefore(s, e, j);
    }
  }

  lemma {:induction false} BelongsThroughout(s: State, events: seq<Event>, nonce: nat, conn: nat, binding: nat)
    requires Joined(s) && SameServer(events) && Belongs(s, nonce, conn, binding)
    ensures Joined(Run(s, events)) && Belongs(Run(s, events), nonce, conn, binding)
  {
    if events != [] {
      var front := events[..|events| - 1];
      BelongsThroughout(s, front, nonce, conn, binding);
      JoinedKept(Run(s, front), events[|events| - 1]);
      BelongsStill(Run(s, front), events[|events| - 1], nonce, conn, binding);
    }
  }

  lemma {:induction false} RunSplits(s: State, before: seq<Event>, after: seq<Event>)
    ensures Run(s, before + after) == Run(Run(s, before), after)
  {
    if after == [] {
      assert before + after == before;
    } else {
      assert (before + after)[..|before + after| - 1] == before + after[..|after| - 1];
      RunSplits(s, before, after[..|after| - 1]);
    }
  }

  lemma OtherStays(pending: seq<Slot>, f: nat, x: Slot, p: Slot)
    requires f < |pending| && p != pending[f] && p != x
    ensures p in pending <==> p in Without(pending, f)
    ensures p in pending <==> p in pending[f := x]
  {
    var w := Without(pending, f);
    forall i | 0 <= i < |w| ensures w[i] == pending[if i < f then i else i + 1] {}
    if p in pending {
      var j :| 0 <= j < |pending| && pending[j] == p;
      assert w[if j < f then j else j - 1] == p && pending[f := x][j] == p;
    }
  }

  /** Finishing work leaves alone every marker with another nonce. */
  lemma OtherNonceStays(s: State, k: nat, join: Join, p: Slot)
    requires k < |s.works| && p.nonce != s.works[k].nonce
    ensures p in s.pending <==> p in DoFinish(s, k, join).pending
  {
    hide DoFinish, Without;
    FinishPending(s, k, join);
    var f := Find(s.pending, s.works[k].conn);
    if f < |s.pending| && s.pending[f].nonce == s.works[k].nonce {
      OtherStays(s.pending, f, s.pending[f].(token := Some(s.works[k].token)), p);
    }
  }

  /**
   A request admitted on a connection while older work was out keeps its own marker: at any
   later time on this server, every marker with its nonce is its own, and finishing the older
   work neither changes nor removes that marker nor puts a token into it.
   */
  lemma ReusedConnectionUntouched(
    before: seq<Event>, at: nat, conn: nat, binding: nat, token: Token, after: seq<Event>, k: nat, join: Join)
    requires SameServer(after)
    requires var s := Run(Start(), before);
      at <= |s.pending| && Step(s, Admit(at, conn, binding, Some(token))).pending != s.pending
    requires var now := Run(Start(), before + [Admit(at, conn, binding, Some(token))] + after);
      k < |now.works| && HasWork(Run(Start(), before).works, now.works[k].nonce)
    ensures var nonce := Run(Start(), before).next + 1;
      var now := Run(Start(), before + [Admit(at, conn, binding, Some(token))] + after);
      && (forall j :: 0 <= j < |now.pending| && now.pending[j].nonce == nonce ==>
           now.pending[j].conn == conn && now.pending[j].binding == binding)
      && (forall p: Slot :: p.nonce == nonce ==> (p in now.pending <==> p in Step(now, Finish(k, join)).pending))
  {
    var e := Admit(at, conn, binding, Some(token));
    var s := Run(Start(), before);
    var now := Run(Start(), before + [e] + after);
    var nonce := s.next + 1;
    RunKeepsInv(before);
    RunSplits(Start(), before, [e]);
    RunSplits(Start(), before + [e], after);
    assert [e][..0] == [] && Run(s, [e]) == Step(s, e);
    JoinedKept(s, e);
    AdmittedBelongs(s, at, conn, binding, token);
    BelongsThroughout(Step(s, e), after, nonce, conn, binding);
    assert now.works[k].nonce <= s.next;
    forall p: Slot | p.nonce == nonce ensures p in now.pending <==> p in Step(now, Finish(k, join)).pending {
      OtherNonceStays(now, k, join, p);
    }
  }

  lemma AdmittedBelongs(s: State, at: nat, conn: nat, binding: nat, token: Token)
    requires Joined(s) && at <= |s.pending| && DoAdmit(s, at, conn, binding, Some(token)).pending != s.pending
    ensures Belongs(DoAdmit(s, at, conn, binding, Some(token)), s.next + 1, conn, binding)
  {
    var t := DoAdmit(s, at, conn, binding, Some(token));
    forall i | 0 <= i < |t.pending| && i != at ensures t.pending[i] == s.pending[if i < at then i else i - 1] {}
  }

  /** A marker never loses a token: where one is dropped its token is away with work. */
  lemma DroppedMarkerIsEmpty(events: seq<Event>, k: nat, join: Join)
    requires k < |Run(Start(), events).works|
    ensures var s := Run(Start(), events);
      forall j :: 0 <= j < |s.pending| && s.pending[j].token.Some? ==> s.pending[j] in DoFinish(s, k, join).pending
  {
    RunKeepsInv(events);
    var s := Run(Start(), events);
    forall j | 0 <= j < |s.pending| && s.pending[j].token.Some? ensures s.pending[j] in DoFinish(s, k, join).pending {
      OtherNonceStays(s, k, join, s.pending[j]);
    }
  }
}
