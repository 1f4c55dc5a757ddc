/**
 What the canonical dependency-set encoding promises: it says exactly the canonical
 content, it does not depend on declaration order, and it survives decoding.
 */
module DependencyLaws {
  import opened Prelude
  import opened Codec
  import opened Sorting
  import opened Utf8
  import opened Dependencies

  /** Every text is well-formed and every length fits its 32-bit prefix. */
  ghost predicate Encodable(set_: seq<Entry>) {
    |set_| < U32 && forall i :: 0 <= i < |set_| ==> RawValid(RawOf(set_[i]))
  }

  // ---- the encoding is the encoding of the canonical content ----------------

  lemma {:induction false} EncodeAllMap<S(!new), T>(encS: S -> Bytes, encT: T -> Bytes, f: S -> T, xs: seq<S>)
    requires forall x :: encS(x) == encT(f(x))
    ensures EncodeAll(encS, xs) == EncodeAll(encT, Map(f, xs))
  {
    if xs != [] {
      EncodeAllMap(encS, encT, f, xs[1..]);
      assert Map(f, xs)[1..] == Map(f, xs[1..]);
    }
  }

  lemma SortedMeasurements(ms: seq<DepMeasurement>)
    ensures Sort(LexLe, Map(Canonical, ms)) == Map(Canonical, Sort(CanonicalLe, ms))
  {
    SortMap(CanonicalLe, LexLe, Canonical, ms);
  }

  function NormalEnc(e: Entry): Bytes {
    EntryEnc(NormaliseEntry(e))
  }

  lemma NormalEncIsRaw(e: Entry)
    ensures NormalEnc(e) == RawEnc(RawOf(e))
  {
    var sorted := Sort(CanonicalLe, e.measurements);
    SortedMeasurements(e.measurements);
    EncodeAllMap(MeasurementEnc, StrEnc, Canonical, sorted);
  }

  lemma ContentIsSorted(set_: seq<Entry>)
    ensures Content(set_) == Map(RawOf, Sort(AppLe, set_))
    ensures Normalised(set_) == Map(NormaliseEntry, Sort(AppLe, set_))
    ensures |Sort(AppLe, set_)| == |set_|
  {
    SortMap(AppLe, RawLe, RawOf, set_);
    SortMap(AppLe, AppLe, NormaliseEntry, set_);
    if set_ != [] { SortMember(AppLe, set_, set_[0]); }
  }

  /** The writer's output is the wire form of the canonical content. */
  lemma EncodeIsContent(set_: seq<Entry>)
    ensures Encode(set_) == CountedBE(RawEnc, Content(set_))
  {
    var sorted := Sort(AppLe, set_);
    ContentIsSorted(set_);
    forall e ensures NormalEnc(e) == RawEnc(RawOf(e)) { NormalEncIsRaw(e); }
    EncodeAllMap(NormalEnc, EntryEnc, NormaliseEntry, sorted);
    EncodeAllMap(NormalEnc, RawEnc, RawOf, sorted);
  }

  lemma ContentValid(set_: seq<Entry>)
    requires Encodable(set_)
    ensures CountedOk(RawValid, Content(set_))
  {
    ContentIsSorted(set_);
    var sorted := Sort(AppLe, set_);
    forall i | 0 <= i < |sorted| ensures RawValid(RawOf(sorted[i])) {
      SortMember(AppLe, set_, sorted[i]);
      assert sorted[i] in set_;
    }
  }

  /** Two sets encode alike exactly when their canonical content is the same. */
  lemma EncodesContent(a: seq<Entry>, b: seq<Entry>)
    requires Encodable(a) && Encodable(b)
    ensures Encode(a) == Encode(b) <==> Content(a) == Content(b)
  {
    EncodeIsContent(a);
    EncodeIsContent(b);
    ContentValid(a);
    ContentValid(b);
    WireExact(Content(a), Encode(a));
    WireExact(Content(b), Encode(b));
  }

  // ---- order of declaration -------------------------------------------------

  /** Entries of one application say the same thing. */
  ghost predicate AppIdDetermines(set_: seq<Entry>) {
    forall i, j :: 0 <= i < |set_| && 0 <= j < |set_| && set_[i].appId == set_[j].appId ==>
      RawOf(set_[i]) == RawOf(set_[j])
  }

  /** The order of measurements and of required OIDs inside an entry does not matter. */
  lemma EntryOrderIgnored(e: Entry, f: Entry)
    requires e.appId == f.appId && Lower(e.folded) == Lower(f.folded)
    requires multiset(Map(Canonical, e.measurements)) == multiset(Map(Canonical, f.measurements))
    requires multiset(e.oids) == multiset(f.oids)
    ensures RawOf(e) == RawOf(f)
  {
    SortIsBag(Map(Canonical, e.measurements), Map(Canonical, f.measurements));
    PairPreorder();
    SortSorted(PairLe, e.oids);
    SortSorted(PairLe, f.oids);
    SortElements(PairLe, e.oids);
    SortElements(PairLe, f.oids);
    forall x, y | PairLe(x, y) && PairLe(y, x) ensures x == y { PairTotal(x, y); }
    SortedUnique(PairLe, Sort(PairLe, e.oids), Sort(PairLe, f.oids));
  }

  lemma SortIsBag(a: seq<Bytes>, b: seq<Bytes>)
    requires multiset(a) == multiset(b)
    ensures Sort(LexLe, a) == Sort(LexLe, b)
  {
    LexPreorder();
    SortSorted(LexLe, a);
    SortSorted(LexLe, b);
    SortElements(LexLe, a);
    SortElements(LexLe, b);
    forall x, y | LexLe(x, y) && LexLe(y, x) ensures x == y { LexTotal(x, y); }
    SortedUnique(LexLe, Sort(LexLe, a), Sort(LexLe, b));
  }

  lemma RawPreorder()
    ensures TotalPreorder(RawLe)
  {
    forall x: RawEntry, y: RawEntry ensures RawLe(x, y) || RawLe(y, x) { LexTotal(x.appId, y.appId); }
    forall x: RawEntry, y: RawEntry, z: RawEntry | RawLe(x, y) && RawLe(y, z) ensures RawLe(x, z) {
      LexTransitive(x.appId, y.appId, z.appId);
    }
  }

  /** Same entries up to order and to the order inside each entry: same canonical content. */
  lemma SetOrderIgnored(a: seq<Entry>, b: seq<Entry>)
    requires AppIdDetermines(a) && multiset(Map(RawOf, a)) == multiset(Map(RawOf, b))
    ensures Content(a) == Content(b)
  {
    var ra, rb := Map(RawOf, a), Map(RawOf, b);
    RawPreorder();
    SortSorted(RawLe, ra);
    SortSorted(RawLe, rb);
    SortElements(RawLe, ra);
    SortElements(RawLe, rb);
    forall x, y | x in Content(a) && y in Content(a) && RawLe(x, y) && RawLe(y, x) ensures x == y {
      LexTotal(x.appId, y.appId);
      SortMember(RawLe, ra, x);
      SortMember(RawLe, ra, y);
      var i :| 0 <= i < |ra| && ra[i] == x;
      var j :| 0 <= j < |ra| && ra[j] == y;
      assert a[i].appId == a[j].appId;
    }
    SortedUnique(RawLe, Content(a), Content(b));
  }

  lemma WithoutOne<T>(b: seq<T>, k: nat)
    requires k < |b|
    ensures multiset(b) == multiset(Without(b, k)) + multiset{b[k]}
  {
    assert b == b[..k] + [b[k]] + b[k + 1..];
  }

  lemma WithoutSame<T>(a: seq<T>, i: nat, b: seq<T>, k: nat)
    requires i < |a| && k < |b| && a[i] == b[k] && multiset(a) == multiset(b)
    ensures multiset(Without(a, i)) == multiset(Without(b, k))
  {
    var x, y, e := multiset(Without(a, i)), multiset(Without(b, k)), multiset{a[i]};
    WithoutOne(a, i);
    WithoutOne(b, k);
    assert x == (x + e) - e && y == (y + e) - e;
  }

  lemma MapWithoutOne<S, T>(f: S -> T, b: seq<S>, k: nat)
    requires k < |b|
    ensures multiset(Map(f, b)) == multiset(Map(f, Without(b, k))) + multiset{f(b[k])}
  {
    WithoutOne(Map(f, b), k);
    assert Without(Map(f, b), k) == Map(f, Without(b, k));
  }

  lemma FindMember<T>(x: T, b: seq<T>) returns (k: nat)
    requires x in multiset(b)
    ensures k < |b| && b[k] == x
  {
    k :| 0 <= k < |b| && b[k] == x;
  }

  lemma {:induction false} MapElements<S, T>(f: S -> T, a: seq<S>, b: seq<S>)
    requires multiset(a) == multiset(b)
    ensures multiset(Map(f, a)) == multiset(Map(f, b))
    decreases |a|
  {
    if a == [] {
      assert |multiset(b)| == 0;
    } else {
      var k := FindMember(a[0], b);
      WithoutSame(a, 0, b, k);
      MapElements(f, Without(a, 0), Without(b, k));
      MapWithoutOne(f, a, 0);
      MapWithoutOne(f, b, k);
    }
  }

  /** The encoding ignores declaration order exactly for the sets whose application ids determine their entries. */
  lemma OrderIgnoredExactly(a: seq<Entry>)
    ensures (forall b :: multiset(b) == multiset(a) ==> Content(b) == Content(a)) <==> AppIdDetermines(a)
  {
    if AppIdDetermines(a) {
      forall b | multiset(b) == multiset(a) ensures Content(b) == Content(a) {
        MapElements(RawOf, a, b);
        SetOrderIgnored(a, b);
      }
    } else {
      var i, j :| 0 <= i < |a| && 0 <= j < |a| && a[i].appId == a[j].appId && RawOf(a[i]) != RawOf(a[j]);
      SwapMatters(a, i, j);
    }
  }

  /** With two different entries under one application id, bringing either to the front changes the content. */
  lemma SwapMatters(a: seq<Entry>, i: nat, j: nat)
    requires i < |a| && j < |a| && a[i].appId == a[j].appId && RawOf(a[i]) != RawOf(a[j])
    ensures exists b :: multiset(b) == multiset(a) && Content(b) != Content(a)
  {
    var bi, bj := ToFront(a, i), ToFront(a, j);
    ToFrontElements(a, i);
    ToFrontElements(a, j);
    FirstOfKey(Map(RawOf, bi));
    FirstOfKey(Map(RawOf, bj));
    assert FirstWith(Content(bi), a[i].appId) == Some(RawOf(a[i]));
    assert FirstWith(Content(bj), a[i].appId) == Some(RawOf(a[j]));
    assert Content(bi) != Content(a) || Content(bj) != Content(a);
  }

  function ToFront(a: seq<Entry>, i: nat): seq<Entry>
    requires i < |a|
  {
    [a[i]] + a[..i] + a[i + 1..]
  }

  lemma ToFrontElements(a: seq<Entry>, i: nat)
    requires i < |a|
    ensures multiset(ToFront(a, i)) == multiset(a)
  {
    assert a == a[..i] + [a[i]] + a[i + 1..];
  }

  /** The first entry with a given application id. */
  function FirstWith(s: seq<RawEntry>, appId: Bytes): Option<RawEntry> {
    if s == [] then None else if s[0].appId == appId then Some(s[0]) else FirstWith(s[1..], appId)
  }

  /** A stable sort keeps the first entry of a key first. */
  lemma FirstOfKey(s: seq<RawEntry>)
    requires s != []
    ensures FirstWith(Sort(RawLe, s), s[0].appId) == Some(s[0])
  {
    InsertIsFirst(s[0], Sort(RawLe, s[1..]));
  }

  lemma {:induction false} InsertIsFirst(x: RawEntry, s: seq<RawEntry>)
    ensures FirstWith(Insert(RawLe, x, s), x.appId) == Some(x)
  {
    if s != [] && !RawLe(x, s[0]) {
      LexTotal(x.appId, s[0].appId);
      InsertIsFirst(x, s[1..]);
      assert ([s[0]] + Insert(RawLe, x, s[1..]))[1..] == Insert(RawLe, x, s[1..]);
    }
  }

  // ---- decoding an encoding --------------------------------------------------

  lemma {:induction false} HeadClean(s: Bytes)
    ensures COLON !in Head(s)
  {
    if s != [] && s[0] != COLON { HeadClean(s[1..]); }
  }

  lemma {:induction false} HeadAt(a: Bytes, r: Bytes)
    requires COLON !in a
    ensures Head(a + [COLON] + r) == a && Tail(a + [COLON] + r) == r
  {
    var s := a + [COLON] + r;
    if a != [] {
      assert s[1..] == a[1..] + [COLON] + r;
      HeadAt(a[1..], r);
    }
    assert s[|a| + 1..] == r;
  }

  lemma {:induction false} HeadWhole(a: Bytes)
    requires COLON !in a
    ensures Head(a) == a
  {
    if a != [] { HeadWhole(a[1..]); }
  }

  lemma LowerColon(a: Bytes)
    ensures COLON in Lower(a) <==> COLON in a
  {
    if COLON in a {
      var i :| 0 <= i < |a| && a[i] == COLON;
      assert Lower(a)[i] == COLON;
    }
  }

  /** A measurement comes back lower-cased exactly when its registers hold no colon. */
  lemma MeasurementSurvives(m: DepMeasurement)
    ensures FromCanonical(Canonical(m)) == LowerMeasurement(m) <==> NoColon(m)
  {
    match m
    case Sgx(x) => SgxSurvives(x);
    case Tdx(a, b, c) => TdxSurvives(a, b, c);
  }

  lemma SgxSurvives(x: Bytes)
    ensures FromCanonical(Canonical(Sgx(x))) == Sgx(Lower(x))
  {
    var s := Canonical(Sgx(x));
    assert s[0] == 0x73 && TDX_PREFIX[0] == 0x74;
    assert s[4..] == Lower(x);
  }

  lemma TdxSurvives(a: Bytes, b: Bytes, c: Bytes)
    ensures FromCanonical(Canonical(Tdx(a, b, c))) == Tdx(Lower(a), Lower(b), Lower(c)) <==> NoColon(Tdx(a, b, c))
  {
    var la, lb, lc := Lower(a), Lower(b), Lower(c);
    LowerColon(a);
    LowerColon(b);
    LowerColon(c);
    RegistersSurvive(la, lb, lc);
    RegisterText(la, lb, lc);
    FromTdx(la + [COLON] + (lb + [COLON] + lc));
  }

  lemma RegisterText(a: Bytes, b: Bytes, c: Bytes)
    ensures TDX_PREFIX + a + [COLON] + b + [COLON] + c == TDX_PREFIX + (a + [COLON] + (b + [COLON] + c))
  {
  }

  lemma FromTdx(rest: Bytes)
    ensures FromCanonical(TDX_PREFIX + rest) == Tdx(Head(rest), Head(Tail(rest)), Head(Tail(Tail(rest))))
  {
    assert (TDX_PREFIX + rest)[4..] == rest;
  }

  lemma RegistersSurvive(a: Bytes, b: Bytes, c: Bytes)
    ensures var rest := a + [COLON] + (b + [COLON] + c);
      Tdx(Head(rest), Head(Tail(rest)), Head(Tail(Tail(rest)))) == Tdx(a, b, c)
      <==> COLON !in a && COLON !in b && COLON !in c
  {
    var rest := a + [COLON] + (b + [COLON] + c);
    HeadClean(rest);
    HeadClean(Tail(rest));
    HeadClean(Tail(Tail(rest)));
    if COLON !in a {
      HeadAt(a, b + [COLON] + c);
      if COLON !in b {
        HeadAt(b, c);
        if COLON !in c { HeadWhole(c); }
      }
    }
  }

  function LowerEntry(e: Entry): Entry {
    Entry(e.appId, Map(LowerMeasurement, e.measurements), e.oids, Lower(e.folded))
  }

  ghost predicate NoColons(e: Entry) {
    forall i :: 0 <= i < |e.measurements| ==> NoColon(e.measurements[i])
  }

  lemma EntrySurvives(e: Entry)
    ensures OfRaw(RawOf(e)) == LowerEntry(NormaliseEntry(e)) <==> NoColons(e)
  {
    var sorted := Sort(CanonicalLe, e.measurements);
    SortedMeasurements(e.measurements);
    var back, lower := Map(FromCanonical, Map(Canonical, sorted)), Map(LowerMeasurement, sorted);
    forall i | 0 <= i < |sorted| ensures back[i] == lower[i] <==> NoColon(sorted[i]) {
      MeasurementSurvives(sorted[i]);
    }
    assert back == lower <==> forall i :: 0 <= i < |sorted| ==> NoColon(sorted[i]) by {
      if forall i :: 0 <= i < |sorted| ==> NoColon(sorted[i]) { assert back == lower; }
      if back == lower { assert forall i :: 0 <= i < |sorted| ==> back[i] == lower[i]; }
    }
    assert (forall i :: 0 <= i < |sorted| ==> NoColon(sorted[i])) <==> NoColons(e) by {
      SameMembers(CanonicalLe, e.measurements);
    }
  }

  lemma SameMembers<T(!new)>(le: (T, T) -> bool, s: seq<T>)
    ensures |Sort(le, s)| == |s|
    ensures forall i :: 0 <= i < |s| ==> s[i] in Sort(le, s)
    ensures forall i :: 0 <= i < |s| ==> Sort(le, s)[i] in s
  {
    SortElements(le, s);
    assert |multiset(Sort(le, s))| == |multiset(s)|;
    forall i | 0 <= i < |s| ensures s[i] in Sort(le, s) { SortMember(le, s, s[i]); }
    forall i | 0 <= i < |s| ensures Sort(le, s)[i] in s { SortMember(le, s, Sort(le, s)[i]); }
  }

  /**
   Decoding an encoding gives the normalised, lower-cased set, exactly when no TDX
   register of the set holds a colon.
   */
  lemma DecodeOfEncode(set_: seq<Entry>)
    requires Encodable(set_)
    ensures Decode(Encode(set_)) == Some(Map(OfRaw, Content(set_)))
    ensures Decode(Encode(set_)) == Some(Map(LowerEntry, Normalised(set_)))
       <==> forall i :: 0 <= i < |set_| ==> NoColons(set_[i])
  {
    EncodeIsContent(set_);
    ContentValid(set_);
    WireExact(Content(set_), Encode(set_));
    ContentIsSorted(set_);
    var sorted := Sort(AppLe, set_);
    var back, lower := Map(OfRaw, Content(set_)), Map(LowerEntry, Normalised(set_));
    forall i | 0 <= i < |sorted| ensures back[i] == lower[i] <==> NoColons(sorted[i]) {
      EntrySurvives(sorted[i]);
    }
    assert back == lower <==> forall i :: 0 <= i < |sorted| ==> NoColons(sorted[i]) by {
      if forall i :: 0 <= i < |sorted| ==> NoColons(sorted[i]) { assert back == lower; }
      if back == lower { assert forall i :: 0 <= i < |sorted| ==> back[i] == lower[i]; }
    }
    SameMembers(AppLe, set_);
  }

  // ---- canonicalisation ------------------------------------------------------

  lemma FromCanonicalClean(s: Bytes)
    ensures NoColon(FromCanonical(s))
  {
    var rest := StripPrefix(TDX_PREFIX, s);
    HeadClean(rest);
    HeadClean(Tail(rest));
    HeadClean(Tail(Tail(rest)));
  }

  lemma CanonicalOfLower(m: DepMeasurement)
    ensures Canonical(LowerMeasurement(m)) == Canonical(m)
  {
    match m
    case Sgx(x) => LowerTwice(x);
    case Tdx(a, b, c) =>
      LowerTwice(a);
      LowerTwice(b);
      LowerTwice(c);
  }

  lemma PairSortTwice(s: seq<Oid>)
    ensures Sort(PairLe, Sort(PairLe, s)) == Sort(PairLe, s)
  {
    PairPreorder();
    SortSorted(PairLe, s);
    SortOfSorted(PairLe, Sort(PairLe, s));
  }

  /** Reading back a colon-free entry and rendering it again gives the same text. */
  lemma RawTwice(e: Entry)
    requires NoColons(e)
    ensures RawOf(OfRaw(RawOf(e))) == RawOf(e)
  {
    var sorted := Sort(CanonicalLe, e.measurements);
    SortedMeasurements(e.measurements);
    SameMembers(CanonicalLe, e.measurements);
    var texts := Map(Canonical, sorted);
    var again := Map(Canonical, Map(FromCanonical, texts));
    forall i | 0 <= i < |texts| ensures again[i] == texts[i] {
      assert sorted[i] in e.measurements;
      MeasurementSurvives(sorted[i]);
      CanonicalOfLower(sorted[i]);
    }
    assert again == texts;
    LexPreorder();
    SortSorted(LexLe, Map(Canonical, e.measurements));
    SortOfSorted(LexLe, texts);
    PairSortTwice(e.oids);
    LowerTwice(e.folded);
  }

  lemma ContentTwice(set_: seq<Entry>)
    requires forall i :: 0 <= i < |set_| ==> NoColons(set_[i])
    ensures Content(Map(OfRaw, Content(set_))) == Content(set_)
  {
    var content := Content(set_);
    var sorted := Sort(AppLe, set_);
    ContentIsSorted(set_);
    SameMembers(AppLe, set_);
    var again := Map(RawOf, Map(OfRaw, content));
    forall i | 0 <= i < |content| ensures again[i] == content[i] {
      assert sorted[i] in set_;
      RawTwice(sorted[i]);
    }
    assert again == content;
    RawPreorder();
    SortSorted(RawLe, Map(RawOf, set_));
    SortOfSorted(RawLe, content);
  }

  lemma DecodedClean(b: Bytes)
    requires Decode(b).Some?
    ensures var set_ := Decode(b).value; forall i :: 0 <= i < |set_| ==> NoColons(set_[i])
  {
    var raw := DecodeRaw(b).value;
    forall i | 0 <= i < |raw| ensures NoColons(OfRaw(raw[i])) {
      forall j | 0 <= j < |raw[i].measurements| ensures NoColon(OfRaw(raw[i]).measurements[j]) {
        FromCanonicalClean(raw[i].measurements[j]);
      }
    }
  }

  /** Canonicalising twice is canonicalising once, whenever the re-encoded texts fit their length prefixes. */
  lemma CanonicalizeTwice(b: Bytes)
    requires Decode(b).Some? && Encodable(Decode(b).value)
    ensures Canonicalize(Canonicalize(b).value) == Canonicalize(b)
  {
    var set_ := Decode(b).value;
    var again := Map(OfRaw, Content(set_));
    DecodedClean(b);
    DecodeOfEncode(set_);
    ContentTwice(set_);
    EncodeIsContent(set_);
    EncodeIsContent(again);
  }

  // ---- an input under 4 GiB always re-encodes --------------------------------

  lemma TextHeadTail(s: Bytes)
    requires Utf8.Valid(s)
    ensures Utf8.Valid(Head(s)) && Utf8.Valid(Tail(s)) && |Head(s)| + |Tail(s)| <= |s|
  {
    HeadSplits(s);
    if |Head(s)| < |s| { ValidSplit(Head(s), COLON, Tail(s)); }
  }

  lemma {:induction false} HeadSplits(s: Bytes)
    ensures |Head(s)| < |s| ==> s == Head(s) + [COLON] + Tail(s)
    ensures |Head(s)| == |s| ==> s == Head(s)
  {
    if s != [] && s[0] != COLON { HeadSplits(s[1..]); }
  }

  lemma PrefixText(prefix: Bytes, s: Bytes)
    requires Utf8.Valid(s) && forall i :: 0 <= i < |prefix| ==> prefix[i] < 0x80
    ensures Utf8.Valid(StripPrefix(prefix, s)) && Utf8.Valid(prefix)
  {
    AsciiValid(prefix);
    if prefix <= s {
      assert s == prefix + s[|prefix|..];
      ValidSuffix(prefix, s[|prefix|..]);
    }
  }

  /** A canonical text is at most four bytes longer than the text it was read from. */
  lemma CanonicalText(s: Bytes)
    requires Utf8.Valid(s)
    ensures var c := Canonical(FromCanonical(s)); Utf8.Valid(c) && |c| <= |s| + 4
  {
    PrefixText(SGX_PREFIX, s);
    PrefixText(TDX_PREFIX, s);
    if TDX_PREFIX <= s {
      TdxText(StripPrefix(TDX_PREFIX, s));
    } else {
      var x := StripPrefix(SGX_PREFIX, s);
      LowerValid(x);
      ValidConcat(SGX_PREFIX, Lower(x));
    }
  }

  lemma TdxText(rest: Bytes)
    requires Utf8.Valid(rest)
    ensures var c := Canonical(Tdx(Head(rest), Head(Tail(rest)), Head(Tail(Tail(rest)))));
      Utf8.Valid(c) && |c| <= |rest| + 6
  {
    TextHeadTail(rest);
    TextHeadTail(Tail(rest));
    TextHeadTail(Tail(Tail(rest)));
    JoinedText(Head(rest), Head(Tail(rest)), Head(Tail(Tail(rest))));
  }

  lemma JoinedText(a: Bytes, b: Bytes, c: Bytes)
    requires Utf8.Valid(a) && Utf8.Valid(b) && Utf8.Valid(c)
    ensures Utf8.Valid(Canonical(Tdx(a, b, c))) && |Canonical(Tdx(a, b, c))| == 6 + |a| + |b| + |c|
  {
    AsciiValid(TDX_PREFIX);
    AsciiValid([COLON]);
    LowerValid(a);
    LowerValid(b);
    LowerValid(c);
    ValidConcat(TDX_PREFIX, Lower(a));
    ValidConcat(TDX_PREFIX + Lower(a), [COLON]);
    ValidConcat(TDX_PREFIX + Lower(a) + [COLON], Lower(b));
    ValidConcat(TDX_PREFIX + Lower(a) + [COLON] + Lower(b), [COLON]);
    ValidConcat(TDX_PREFIX + Lower(a) + [COLON] + Lower(b) + [COLON], Lower(c));
  }

  lemma {:induction false} PartFits<T>(enc: T -> Bytes, xs: seq<T>, i: nat)
    requires i < |xs|
    ensures |enc(xs[i])| <= |EncodeAll(enc, xs)|
  {
    if i > 0 { PartFits(enc, xs[1..], i - 1); }
  }

  lemma RereadValid(r: RawEntry)
    requires RawValid(r) && |RawEnc(r)| < U32
    ensures RawValid(RawOf(OfRaw(r)))
  {
    var e := OfRaw(r);
    var texts := Map(Canonical, e.measurements);
    forall i | 0 <= i < |texts| ensures TextValid(texts[i]) {
      PartFits(StrEnc, r.measurements, i);
      CanonicalText(r.measurements[i]);
    }
    SameMembers(LexLe, texts);
    SameMembers(PairLe, e.oids);
    LowerValid(r.folded);
    var raw := RawOf(e);
    forall i | 0 <= i < |raw.measurements| ensures TextValid(raw.measurements[i]) {
      assert raw.measurements[i] in texts;
    }
    forall i | 0 <= i < |raw.oids| ensures OidValid(raw.oids[i]) {
      assert raw.oids[i] in e.oids;
    }
  }

  lemma ShortEncodable(b: Bytes)
    requires |b| < U32 && Decode(b).Some?
    ensures Encodable(Decode(b).value)
  {
    var raw := DecodeRaw(b).value;
    WireExact(raw, b);
    forall i | 0 <= i < |raw| ensures RawValid(RawOf(OfRaw(raw[i]))) {
      PartFits(RawEnc, raw, i);
      RereadValid(raw[i]);
    }
  }

  /** Canonicalisation is idempotent on every input under 4 GiB. */
  lemma CanonicalizeIdempotent(b: Bytes)
    requires |b| < U32 && Canonicalize(b).Some?
    ensures Canonicalize(Canonicalize(b).value) == Canonicalize(b)
  {
    ShortEncodable(b);
    CanonicalizeTwice(b);
  }
}
