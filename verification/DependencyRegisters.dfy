/**
 The dependency tree with its registers instead of their canonical text. The text joins
 the three TDX registers with colons, so a fold binds the registers of a workload exactly
 when none of them holds one.
 */
module DependencyRegisters {
  import opened Prelude
  import opened Sorting
  import opened Utf8
  import opened Dependencies
  import opened DependencyTree
  import DependencyLaws

  /** The declared tree up to declaration order and letter case. */
  datatype Shape = Shape(measurements: seq<Bytes>, oids: seq<Oid>, deps: seq<Part>)
  datatype Part = Part(appId: Bytes, registers: seq<DepMeasurement>, oids: seq<Oid>, subtree: Option<Shape>)

  predicate PartLe(a: Part, b: Part) {
    LexLe(a.appId, b.appId)
  }

  function ShapeOf(a: App): Shape {
    Shape(Sort(LexLe, Map(Lower, a.measurements)), Sort(PairLe, a.oids), Sort(PartLe, Parts(a.deps)))
  }

  function PartOf(d: Dep): Part {
    Part(d.appId, Map(LowerMeasurement, Sort(CanonicalLe, d.measurements)), Sort(PairLe, d.oids),
         match d.subtree case None => None case Some(a) => Some(ShapeOf(a)))
  }

  function Parts(deps: seq<Dep>): (r: seq<Part>)
    ensures |r| == |deps|
  {
    if deps == [] then [] else [PartOf(deps[0])] + Parts(deps[1..])
  }

  // ---- registers to text -------------------------------------------------------

  function Render(t: Shape): Tree {
    Tree(t.measurements, t.oids, RenderParts(t.deps))
  }

  function RenderPart(p: Part): Branch {
    Branch(p.appId, Map(Canonical, p.registers), p.oids,
      match p.subtree case None => None case Some(t) => Some(Render(t)))
  }

  function RenderParts(ps: seq<Part>): (r: seq<Branch>)
    ensures |r| == |ps| && forall i :: 0 <= i < |ps| ==> r[i] == RenderPart(ps[i])
  {
    if ps == [] then [] else [RenderPart(ps[0])] + RenderParts(ps[1..])
  }

  lemma RenderSort(ps: seq<Part>)
    ensures Sort(BranchLe, RenderParts(ps)) == RenderParts(Sort(PartLe, ps))
  {
    assert RenderParts(ps) == Map(RenderPart, ps);
    assert RenderParts(Sort(PartLe, ps)) == Map(RenderPart, Sort(PartLe, ps));
    SortMap(PartLe, BranchLe, RenderPart, ps);
  }

  lemma {:induction false} RenderOfShape(a: App)
    ensures Render(ShapeOf(a)) == TreeOf(a)
  {
    RenderOfParts(a.deps);
    RenderSort(Parts(a.deps));
  }

  lemma {:induction false} RenderOfParts(deps: seq<Dep>)
    ensures RenderParts(Parts(deps)) == Branches(deps)
  {
    if deps != [] {
      hide RenderPart, PartOf, BranchOf;
      RenderOfPart(deps[0]);
      RenderOfParts(deps[1..]);
      assert Parts(deps)[1..] == Parts(deps[1..]);
    }
  }

  lemma TextOfLower(ms: seq<DepMeasurement>)
    ensures Map(Canonical, Map(LowerMeasurement, Sort(CanonicalLe, ms))) == Sort(LexLe, Map(Canonical, ms))
  {
    hide Canonical, LowerMeasurement;
    var sorted := Sort(CanonicalLe, ms);
    forall i | 0 <= i < |sorted| ensures Canonical(LowerMeasurement(sorted[i])) == Canonical(sorted[i]) {
      DependencyLaws.CanonicalOfLower(sorted[i]);
    }
    assert Map(Canonical, Map(LowerMeasurement, sorted)) == Map(Canonical, sorted);
    DependencyLaws.SortedMeasurements(ms);
  }

  lemma {:induction false} RenderOfPart(d: Dep)
    ensures RenderPart(PartOf(d)) == BranchOf(d)
  {
    TextOfLower(d.measurements);
    if d.subtree.Some? { RenderOfShape(d.subtree.value); }
  }

  // ---- text to registers ---------------------------------------------------------

  /** A way to cut canonical text into registers. */
  type Cut = Bytes -> DepMeasurement

  /** What the text leaves behind the second colon. */
  function Third(s: Bytes): Bytes {
    Tail(Tail(StripPrefix(TDX_PREFIX, s)))
  }

  /** Cut at the first two colons; any more stay in the third register. */
  function CutEarly(s: Bytes): DepMeasurement {
    if !(TDX_PREFIX <= s) then FromCanonical(s)
    else var rest := StripPrefix(TDX_PREFIX, s); Tdx(Head(rest), Head(Tail(rest)), Third(s))
  }

  /** Cut at the first and the third colon where there is a third, so that the second register holds one. */
  function CutLate(s: Bytes): DepMeasurement {
    if !(TDX_PREFIX <= s) || COLON !in Third(s) then CutEarly(s)
    else
      var rest := StripPrefix(TDX_PREFIX, s);
      Tdx(Head(rest), Head(Tail(rest)) + [COLON] + Head(Third(s)), Tail(Third(s)))
  }

  function Read(cut: Cut, t: Tree): Shape {
    Shape(t.measurements, t.oids, ReadBranches(cut, t.deps))
  }

  function ReadBranch(cut: Cut, b: Branch): Part {
    Part(b.appId, Map(cut, b.measurements), b.oids,
      match b.subtree case None => None case Some(t) => Some(Read(cut, t)))
  }

  function ReadBranches(cut: Cut, bs: seq<Branch>): (r: seq<Part>)
    ensures |r| == |bs| && forall i :: 0 <= i < |bs| ==> r[i] == ReadBranch(cut, bs[i])
  {
    if bs == [] then [] else [ReadBranch(cut, bs[0])] + ReadBranches(cut, bs[1..])
  }

  lemma ReadSort(cut: Cut, bs: seq<Branch>)
    ensures Sort(PartLe, ReadBranches(cut, bs)) == ReadBranches(cut, Sort(BranchLe, bs))
  {
    var f := b => ReadBranch(cut, b);
    assert ReadBranches(cut, bs) == Map(f, bs);
    assert ReadBranches(cut, Sort(BranchLe, bs)) == Map(f, Sort(BranchLe, bs));
    SortMap(BranchLe, PartLe, f, bs);
  }

  // ---- the two cuts of one text ----------------------------------------------------

  lemma TailSplits(s: Bytes)
    ensures COLON in s <==> |Head(s)| < |s|
    ensures COLON in s ==> s == Head(s) + [COLON] + Tail(s)
  {
    DependencyLaws.HeadSplits(s);
    DependencyLaws.HeadClean(s);
  }

  function Colons(s: Bytes): (n: nat)
    ensures n > 0 <==> COLON in s
  {
    var all: multiset<Byte> := multiset(s);
    all[COLON]
  }

  lemma ColonsJoin(a: Bytes, b: Bytes)
    ensures Colons(a + [COLON] + b) == Colons(a) + 1 + Colons(b)
  {
  }

  lemma ColonsTail(s: Bytes)
    requires COLON in s
    ensures Colons(Tail(s)) == Colons(s) - 1
  {
    TailSplits(s);
    DependencyLaws.HeadClean(s);
    ColonsJoin(Head(s), Tail(s));
  }

  /** Three registers leave a third colon exactly when one of them holds a colon. */
  lemma ThirdColon(a: Bytes, b: Bytes, c: Bytes)
    ensures var rest := a + [COLON] + (b + [COLON] + c);
      && COLON in rest && COLON in Tail(rest)
      && (COLON in Tail(Tail(rest)) <==> COLON in a || COLON in b || COLON in c)
  {
    hide Colons;
    var rest := a + [COLON] + (b + [COLON] + c);
    ColonsJoin(b, c);
    ColonsJoin(a, b + [COLON] + c);
    ColonsTail(rest);
    ColonsTail(Tail(rest));
  }

  lemma TdxRest(m: DepMeasurement) returns (rest: Bytes)
    requires m.Tdx?
    ensures rest == Lower(m.mrtd) + [COLON] + (Lower(m.rtmr1) + [COLON] + Lower(m.rtmr2))
    ensures var s := Canonical(m); s == TDX_PREFIX + rest && TDX_PREFIX <= s && StripPrefix(TDX_PREFIX, s) == rest
    ensures COLON in rest && COLON in Tail(rest) && (COLON in Third(Canonical(m)) <==> !NoColon(m))
  {
    var (a, b, c) := (Lower(m.mrtd), Lower(m.rtmr1), Lower(m.rtmr2));
    rest := a + [COLON] + (b + [COLON] + c);
    DependencyLaws.RegisterText(a, b, c);
    assert (TDX_PREFIX + rest)[4..] == rest;
    ThirdColon(a, b, c);
    DependencyLaws.LowerColon(m.mrtd);
    DependencyLaws.LowerColon(m.rtmr1);
    DependencyLaws.LowerColon(m.rtmr2);
  }

  lemma SgxText(m: DepMeasurement)
    requires m.Sgx?
    ensures !(TDX_PREFIX <= Canonical(m)) && FromCanonical(Canonical(m)) == LowerMeasurement(m)
  {
    DependencyLaws.SgxSurvives(m.m);
    assert Canonical(m)[0] == 0x73 && TDX_PREFIX[0] == 0x74;
  }

  /** The two cuts of a text differ exactly when some register held a colon. */
  lemma CutsDiffer(m: DepMeasurement)
    ensures CutEarly(Canonical(m)) == CutLate(Canonical(m)) <==> NoColon(m)
  {
    hide Canonical;
    if m.Sgx? {
      SgxText(m);
    } else {
      var rest := TdxRest(m);
      assert |Head(Tail(rest)) + [COLON] + Head(Third(Canonical(m)))| > |Head(Tail(rest))|;
    }
  }

  /** Without a colon either cut gives the registers back in lower case. */
  lemma CutsRead(m: DepMeasurement)
    requires NoColon(m)
    ensures CutEarly(Canonical(m)) == CutLate(Canonical(m)) == LowerMeasurement(m)
  {
    CutsDiffer(m);
    if m.Sgx? {
      SgxText(m);
    } else {
      var rest := TdxRest(m);
      var (a, b, c) := (Lower(m.mrtd), Lower(m.rtmr1), Lower(m.rtmr2));
      DependencyLaws.LowerColon(m.mrtd);
      DependencyLaws.LowerColon(m.rtmr1);
      DependencyLaws.HeadAt(a, b + [COLON] + c);
      DependencyLaws.HeadAt(b, c);
    }
  }

  lemma LowerParts(a: Bytes, b: Bytes)
    requires Lower(a + [COLON] + b) == a + [COLON] + b
    ensures Lower(a) == a && Lower(b) == b
  {
    var s := a + [COLON] + b;
    forall i | 0 <= i < |a| ensures LowerByte(a[i]) == a[i] { assert s[i] == a[i] && Lower(s)[i] == LowerByte(s[i]); }
    forall i | 0 <= i < |b| ensures LowerByte(b[i]) == b[i] {
      var k := |a| + 1 + i;
      assert s[k] == b[i] && Lower(s)[k] == LowerByte(s[k]);
    }
  }

  lemma LowerJoin(a: Bytes, b: Bytes)
    requires Lower(a) == a && Lower(b) == b
    ensures Lower(a + [COLON] + b) == a + [COLON] + b
  {
    forall i | 0 <= i < |a| ensures LowerByte(a[i]) == a[i] { assert Lower(a)[i] == LowerByte(a[i]); }
    forall i | 0 <= i < |b| ensures LowerByte(b[i]) == b[i] { assert Lower(b)[i] == LowerByte(b[i]); }
  }

  lemma RestIsLower(m: DepMeasurement, rest: Bytes)
    requires m.Tdx? && rest == Lower(m.mrtd) + [COLON] + (Lower(m.rtmr1) + [COLON] + Lower(m.rtmr2))
    ensures Lower(rest) == rest
  {
    LowerTwice(m.mrtd);
    LowerTwice(m.rtmr1);
    LowerTwice(m.rtmr2);
    hide Lower;
    LowerJoin(Lower(m.rtmr1), Lower(m.rtmr2));
    LowerJoin(Lower(m.mrtd), Lower(m.rtmr1) + [COLON] + Lower(m.rtmr2));
  }

  /** Lower-case registers that a text joins are read as themselves and written as that text. */
  lemma JoinedAgain(rest: Bytes, a: Bytes, b: Bytes, c: Bytes)
    requires Lower(rest) == rest && rest == a + [COLON] + (b + [COLON] + c)
    ensures Canonical(Tdx(a, b, c)) == TDX_PREFIX + rest && LowerMeasurement(Tdx(a, b, c)) == Tdx(a, b, c)
  {
    LowerParts(a, b + [COLON] + c);
    LowerParts(b, c);
    hide Lower;
    DependencyLaws.RegisterText(a, b, c);
  }

  /** A cut that loses nothing of a canonical text. */
  ghost predicate Lossless(cut: Cut) {
    forall m :: Canonical(cut(Canonical(m))) == Canonical(m) && LowerMeasurement(cut(Canonical(m))) == cut(Canonical(m))
  }

  lemma SgxLossless(m: DepMeasurement)
    requires m.Sgx?
    ensures var r := FromCanonical(Canonical(m)); Canonical(r) == Canonical(m) && LowerMeasurement(r) == r
  {
    SgxText(m);
    LowerTwice(m.m);
  }

  lemma EarlyLossless(m: DepMeasurement)
    ensures var r := CutEarly(Canonical(m)); Canonical(r) == Canonical(m) && LowerMeasurement(r) == r
  {
    if m.Sgx? {
      SgxText(m);
      SgxLossless(m);
    } else {
      var rest := TdxRest(m);
      RestIsLower(m, rest);
      TailSplits(rest);
      TailSplits(Tail(rest));
      hide Canonical, Lower, LowerMeasurement;
      JoinedAgain(rest, Head(rest), Head(Tail(rest)), Tail(Tail(rest)));
    }
  }

  lemma LateLossless(m: DepMeasurement)
    ensures var r := CutLate(Canonical(m)); Canonical(r) == Canonical(m) && LowerMeasurement(r) == r
  {
    EarlyLossless(m);
    if m.Sgx? {
      SgxText(m);
    } else {
      var rest := TdxRest(m);
      RestIsLower(m, rest);
      var s := Canonical(m);
      hide Canonical, Lower, LowerMeasurement;
      if COLON in Third(s) {
        LateSplits(rest);
        JoinedAgain(rest, Head(rest), Head(Tail(rest)) + [COLON] + Head(Third(s)), Tail(Third(s)));
      }
    }
  }

  lemma LateSplits(rest: Bytes)
    requires COLON in rest && COLON in Tail(rest) && COLON in Tail(Tail(rest))
    ensures var third := Tail(Tail(rest));
      rest == Head(rest) + [COLON] + (Head(Tail(rest)) + [COLON] + Head(third) + [COLON] + Tail(third))
  {
    TailSplits(rest);
    TailSplits(Tail(rest));
    TailSplits(Tail(Tail(rest)));
    hide Head, Tail;
    var (a, b, c, d) := (Head(rest), Head(Tail(rest)), Head(Tail(Tail(rest))), Tail(Tail(Tail(rest))));
    assert b + [COLON] + (c + [COLON] + d) == b + [COLON] + c + [COLON] + d;
  }

  lemma CutsLossless()
    ensures Lossless(CutEarly) && Lossless(CutLate)
  {
    hide Canonical, LowerMeasurement, CutEarly, CutLate;
    forall m
      ensures var r := CutEarly(Canonical(m)); Canonical(r) == Canonical(m) && LowerMeasurement(r) == r
      ensures var r := CutLate(Canonical(m)); Canonical(r) == Canonical(m) && LowerMeasurement(r) == r
    {
      EarlyLossless(m);
      LateLossless(m);
    }
  }

  // ---- the workload that a cut of the tree describes ----------------------------------

  function Recut(cut: Cut): DepMeasurement -> DepMeasurement {
    (m: DepMeasurement) => cut(Canonical(m))
  }

  function Rewrite(cut: Cut, a: App): App {
    App(a.measurements, a.oids, RewriteDeps(cut, a.deps))
  }

  function RewriteDep(cut: Cut, d: Dep): Dep {
    Dep(d.appId, Map(Recut(cut), d.measurements), d.oids,
      match d.subtree case None => None case Some(a) => Some(Rewrite(cut, a)))
  }

  function RewriteDeps(cut: Cut, deps: seq<Dep>): (r: seq<Dep>)
    ensures |r| == |deps| && forall i :: 0 <= i < |deps| ==> r[i] == RewriteDep(cut, deps[i])
  {
    if deps == [] then [] else [RewriteDep(cut, deps[0])] + RewriteDeps(cut, deps[1..])
  }

  lemma {:induction false} RewriteKeepsTree(cut: Cut, a: App)
    requires Lossless(cut)
    ensures TreeOf(Rewrite(cut, a)) == TreeOf(a)
  {
    RewriteKeepsBranches(cut, a.deps);
  }

  lemma {:induction false} RewriteKeepsBranches(cut: Cut, deps: seq<Dep>)
    requires Lossless(cut)
    ensures Branches(RewriteDeps(cut, deps)) == Branches(deps)
  {
    if deps != [] {
      hide BranchOf, RewriteDep, Lossless;
      RewriteKeepsBranch(cut, deps[0]);
      RewriteKeepsBranches(cut, deps[1..]);
      assert RewriteDeps(cut, deps)[1..] == RewriteDeps(cut, deps[1..]);
    }
  }

  lemma {:induction false} RewriteKeepsBranch(cut: Cut, d: Dep)
    requires Lossless(cut)
    ensures BranchOf(RewriteDep(cut, d)) == BranchOf(d)
  {
    hide Canonical;
    assert Map(Canonical, Map(Recut(cut), d.measurements)) == Map(Canonical, d.measurements);
    if d.subtree.Some? { RewriteKeepsTree(cut, d.subtree.value); }
  }

  lemma {:induction false} ShapeOfRewrite(cut: Cut, a: App)
    requires Lossless(cut)
    ensures ShapeOf(Rewrite(cut, a)) == Read(cut, TreeOf(a))
  {
    PartsOfRewrite(cut, a.deps);
    ReadSort(cut, Branches(a.deps));
  }

  lemma {:induction false} PartsOfRewrite(cut: Cut, deps: seq<Dep>)
    requires Lossless(cut)
    ensures Parts(RewriteDeps(cut, deps)) == ReadBranches(cut, Branches(deps))
  {
    if deps != [] {
      hide BranchOf, RewriteDep, Lossless, PartOf, ReadBranch;
      PartOfRewrite(cut, deps[0]);
      PartsOfRewrite(cut, deps[1..]);
      assert RewriteDeps(cut, deps)[1..] == RewriteDeps(cut, deps[1..]);
      assert Branches(deps)[1..] == Branches(deps[1..]);
    }
  }

  lemma RegistersOfRewrite(cut: Cut, ms: seq<DepMeasurement>)
    requires Lossless(cut)
    ensures Map(LowerMeasurement, Sort(CanonicalLe, Map(Recut(cut), ms))) == Map(cut, Sort(LexLe, Map(Canonical, ms)))
  {
    hide Canonical, LowerMeasurement;
    var f := Recut(cut);
    forall x, y ensures CanonicalLe(f(x), f(y)) == CanonicalLe(x, y) {
      assert Canonical(cut(Canonical(x))) == Canonical(x) && Canonical(cut(Canonical(y))) == Canonical(y);
    }
    SortMap(CanonicalLe, CanonicalLe, f, ms);
    DependencyLaws.SortedMeasurements(ms);
    var sorted := Sort(CanonicalLe, ms);
    assert Map(LowerMeasurement, Map(f, sorted)) == Map(cut, Map(Canonical, sorted));
  }

  lemma {:induction false} PartOfRewrite(cut: Cut, d: Dep)
    requires Lossless(cut)
    ensures PartOf(RewriteDep(cut, d)) == ReadBranch(cut, BranchOf(d))
  {
    hide Lossless;
    RegistersOfRewrite(cut, d.measurements);
    if d.subtree.Some? { ShapeOfRewrite(cut, d.subtree.value); }
  }

  // ---- exactly when the text stands for the registers ------------------------------------

  /** No register of a dependency, at any depth, holds a colon. */
  predicate Clean(a: App) {
    forall i :: 0 <= i < |a.deps| ==> CleanDep(a.deps[i])
  }

  predicate CleanDep(d: Dep) {
    && (forall i :: 0 <= i < |d.measurements| ==> NoColon(d.measurements[i]))
    && (d.subtree.Some? ==> Clean(d.subtree.value))
  }

  /** A cut that gives registers without colons back. */
  ghost predicate Restores(cut: Cut) {
    forall m :: NoColon(m) ==> cut(Canonical(m)) == LowerMeasurement(m)
  }

  lemma CutsRestore()
    ensures Restores(CutEarly) && Restores(CutLate)
  {
    hide Canonical, LowerMeasurement, CutEarly, CutLate;
    forall m | NoColon(m) ensures CutEarly(Canonical(m)) == CutLate(Canonical(m)) == LowerMeasurement(m) {
      CutsRead(m);
    }
  }

  lemma {:induction false} ReadOfClean(cut: Cut, a: App)
    requires Restores(cut) && Clean(a)
    ensures Read(cut, TreeOf(a)) == ShapeOf(a)
  {
    ReadOfCleanDeps(cut, a.deps);
    ReadSort(cut, Branches(a.deps));
  }

  lemma {:induction false} ReadOfCleanDeps(cut: Cut, deps: seq<Dep>)
    requires Restores(cut) && forall i :: 0 <= i < |deps| ==> CleanDep(deps[i])
    ensures ReadBranches(cut, Branches(deps)) == Parts(deps)
  {
    if deps != [] {
      hide ReadBranch, PartOf, BranchOf, CleanDep, Restores;
      ReadOfCleanDep(cut, deps[0]);
      ReadOfCleanDeps(cut, deps[1..]);
      assert Branches(deps)[1..] == Branches(deps[1..]);
    }
  }

  lemma RegistersOfClean(cut: Cut, ms: seq<DepMeasurement>)
    requires Restores(cut) && forall i :: 0 <= i < |ms| ==> NoColon(ms[i])
    ensures Map(cut, Sort(LexLe, Map(Canonical, ms))) == Map(LowerMeasurement, Sort(CanonicalLe, ms))
  {
    hide Canonical, LowerMeasurement, NoColon;
    var sorted := Sort(CanonicalLe, ms);
    DependencyLaws.SameMembers(CanonicalLe, ms);
    forall i | 0 <= i < |sorted| ensures NoColon(sorted[i]) { assert sorted[i] in ms; }
    DependencyLaws.SortedMeasurements(ms);
    assert Map(cut, Map(Canonical, sorted)) == Map(LowerMeasurement, sorted);
  }

  lemma {:induction false} ReadOfCleanDep(cut: Cut, d: Dep)
    requires Restores(cut) && CleanDep(d)
    ensures ReadBranch(cut, BranchOf(d)) == PartOf(d)
  {
    hide Restores;
    RegistersOfClean(cut, d.measurements);
    if d.subtree.Some? { ReadOfClean(cut, d.subtree.value); }
  }

  lemma {:induction false} AlikeIsClean(a: App)
    requires Read(CutEarly, TreeOf(a)) == Read(CutLate, TreeOf(a))
    ensures Clean(a)
  {
    var bs := Branches(a.deps);
    var sorted := Sort(BranchLe, bs);
    forall i | 0 <= i < |a.deps| ensures CleanDep(a.deps[i]) {
      DependencyLaws.SameMembers(BranchLe, bs);
      BranchAt(a.deps, i);
      assert bs[i] in sorted;
      var k :| 0 <= k < |sorted| && sorted[k] == bs[i];
      assert ReadBranches(CutEarly, sorted)[k] == ReadBranches(CutLate, sorted)[k];
      AlikeIsCleanDep(a.deps[i]);
    }
  }

  lemma {:induction false} BranchAt(deps: seq<Dep>, i: nat)
    requires i < |deps|
    ensures Branches(deps)[i] == BranchOf(deps[i])
  {
    if i > 0 { BranchAt(deps[1..], i - 1); }
  }

  lemma RegistersAlike(ms: seq<DepMeasurement>)
    requires var texts := Sort(LexLe, Map(Canonical, ms)); Map(CutEarly, texts) == Map(CutLate, texts)
    ensures forall i :: 0 <= i < |ms| ==> NoColon(ms[i])
  {
    hide Canonical, NoColon, CutEarly, CutLate;
    var given := Map(Canonical, ms);
    var texts := Sort(LexLe, given);
    DependencyLaws.SameMembers(LexLe, given);
    forall i | 0 <= i < |ms| ensures NoColon(ms[i]) {
      assert given[i] in texts;
      var k :| 0 <= k < |texts| && texts[k] == given[i];
      assert Map(CutEarly, texts)[k] == Map(CutLate, texts)[k];
      CutsDiffer(ms[i]);
    }
  }

  lemma {:induction false} AlikeIsCleanDep(d: Dep)
    requires ReadBranch(CutEarly, BranchOf(d)) == ReadBranch(CutLate, BranchOf(d))
    ensures CleanDep(d)
  {
    RegistersAlike(d.measurements);
    if d.subtree.Some? { AlikeIsClean(d.subtree.value); }
  }

  /** Whether a register holds a colon can be told from the canonical tree. */
  lemma CleanExactly(a: App)
    ensures Clean(a) <==> Read(CutEarly, TreeOf(a)) == Read(CutLate, TreeOf(a))
  {
    if Clean(a) {
      CutsRestore();
      ReadOfClean(CutEarly, a);
      ReadOfClean(CutLate, a);
    }
    if Read(CutEarly, TreeOf(a)) == Read(CutLate, TreeOf(a)) { AlikeIsClean(a); }
  }

  /** With no colon in the one, equal canonical trees are equal down to every register of the other. */
  lemma CleanDetermines(a: App, b: App)
    requires Clean(a)
    ensures TreeOf(a) == TreeOf(b) <==> ShapeOf(a) == ShapeOf(b)
  {
    hide *;
    RenderOfShape(a);
    RenderOfShape(b);
    if TreeOf(a) == TreeOf(b) {
      CleanExactly(a);
      CleanExactly(b);
      CutsRestore();
      ReadOfClean(CutEarly, a);
      ReadOfClean(CutEarly, b);
    }
  }

  /** Another workload with the same canonical tree: its text cut early, or late where that is what it is already. */
  function Twin(a: App): App {
    if ShapeOf(a) == Read(CutEarly, TreeOf(a)) then Rewrite(CutLate, a) else Rewrite(CutEarly, a)
  }

  // ---- a cut of text is text ------------------------------------------------------------

  predicate TextRegisters(m: DepMeasurement) {
    match m
    case Sgx(x) => Utf8.Valid(x)
    case Tdx(a, b, c) => Utf8.Valid(a) && Utf8.Valid(b) && Utf8.Valid(c)
  }

  /** Every register, at any depth, is well-formed UTF-8. */
  predicate Textual(a: App) {
    forall i :: 0 <= i < |a.deps| ==> TextualDep(a.deps[i])
  }

  predicate TextualDep(d: Dep) {
    && (forall i :: 0 <= i < |d.measurements| ==> TextRegisters(d.measurements[i]))
    && (d.subtree.Some? ==> Textual(d.subtree.value))
  }

  lemma PiecesAreText(rest: Bytes)
    requires Utf8.Valid(rest)
    ensures var third := Tail(Tail(rest));
      && Utf8.Valid(Head(rest)) && Utf8.Valid(Head(Tail(rest))) && Utf8.Valid(third) && Utf8.Valid(Tail(third))
      && Utf8.Valid(Head(Tail(rest)) + [COLON] + Head(third))
  {
    hide Utf8.Valid, Head, Tail;
    DependencyLaws.TextHeadTail(rest);
    DependencyLaws.TextHeadTail(Tail(rest));
    DependencyLaws.TextHeadTail(Tail(Tail(rest)));
    assert Utf8.Valid([COLON]) by { AsciiValid([COLON]); }
    var (b, c) := (Head(Tail(rest)), Head(Tail(Tail(rest))));
    ValidConcat(b, [COLON]);
    ValidConcat(b + [COLON], c);
  }

  lemma CutIsText(m: DepMeasurement)
    requires TextRegisters(m)
    ensures TextRegisters(CutEarly(Canonical(m))) && TextRegisters(CutLate(Canonical(m)))
  {
    hide Utf8.Valid, Lower, Head, Tail, Canonical;
    if m.Sgx? {
      SgxText(m);
      LowerValid(m.m);
    } else {
      var rest := TdxRest(m);
      DependencyLaws.JoinedText(m.mrtd, m.rtmr1, m.rtmr2);
      assert Canonical(m) == Canonical(Tdx(m.mrtd, m.rtmr1, m.rtmr2));
      DependencyLaws.PrefixText(TDX_PREFIX, Canonical(m));
      PiecesAreText(rest);
    }
  }

  /** A cut that makes registers of well-formed text only. */
  ghost predicate KeepsText(cut: Cut) {
    forall m :: TextRegisters(m) ==> TextRegisters(cut(Canonical(m)))
  }

  lemma CutsKeepText()
    ensures KeepsText(CutEarly) && KeepsText(CutLate)
  {
    hide TextRegisters, Canonical, CutEarly, CutLate;
    forall m | TextRegisters(m)
      ensures TextRegisters(CutEarly(Canonical(m))) && TextRegisters(CutLate(Canonical(m)))
    {
      CutIsText(m);
    }
  }

  lemma {:induction false} RewriteIsText(cut: Cut, a: App)
    requires KeepsText(cut) && Textual(a)
    ensures Textual(Rewrite(cut, a))
  {
    hide TextualDep, RewriteDep, KeepsText;
    forall i | 0 <= i < |a.deps| ensures TextualDep(RewriteDep(cut, a.deps[i])) { RewriteDepText(cut, a.deps[i]); }
  }

  lemma {:induction false} RewriteDepText(cut: Cut, d: Dep)
    requires KeepsText(cut) && TextualDep(d)
    ensures TextualDep(RewriteDep(cut, d))
  {
    hide TextRegisters, Canonical;
    if d.subtree.Some? { RewriteIsText(cut, d.subtree.value); }
  }

  // ---- what a colon costs -----------------------------------------------------------------

  lemma TwinIsText(a: App)
    requires Textual(a)
    ensures Textual(Twin(a))
  {
    hide TreeOf, ShapeOf, Rewrite, Read, Textual;
    CutsKeepText();
    RewriteIsText(CutEarly, a);
    RewriteIsText(CutLate, a);
  }

  /**
   A workload with a colon in some register has a twin with other registers, text if its own
   are, and, under every digest, the same fold.
   */
  lemma ColonIsLost(h: Digest, a: App)
    requires !Clean(a)
    ensures TreeOf(Twin(a)) == TreeOf(a) && ShapeOf(Twin(a)) != ShapeOf(a) && Fold(h, Twin(a)) == Fold(h, a)
    ensures Textual(a) ==> Textual(Twin(a))
  {
    hide TreeOf, ShapeOf, Rewrite, Read, Clean, Fold, FoldTree, Textual;
    if Textual(a) { TwinIsText(a); }
    CutsLossless();
    RewriteKeepsTree(CutEarly, a);
    RewriteKeepsTree(CutLate, a);
    ShapeOfRewrite(CutEarly, a);
    ShapeOfRewrite(CutLate, a);
    CleanExactly(a);
    FoldOfTree(h, a);
    FoldOfTree(h, Twin(a));
  }

  /** The canonical tree of a workload stands for its registers exactly when none of them holds a colon. */
  lemma TextIsRegistersExactly(a: App)
    ensures (forall b :: TreeOf(b) == TreeOf(a) ==> ShapeOf(b) == ShapeOf(a)) <==> Clean(a)
  {
    hide TreeOf, ShapeOf, Clean, Twin;
    if Clean(a) {
      forall b | TreeOf(b) == TreeOf(a) ensures ShapeOf(b) == ShapeOf(a) { CleanDetermines(a, b); }
    } else {
      ColonIsLost(x => [], a);
    }
  }

  // ---- folds --------------------------------------------------------------------------

  /**
   A workload none of whose registers holds a colon has the same folded identity as another,
   whatever that one's registers hold, exactly when both declare the same tree down to every
   register, digest collisions aside.
   */
  lemma FoldBindsRegisters(h: Digest, a: App, b: App)
    requires Digests(h) && WellFormed(TreeOf(a)) && WellFormed(TreeOf(b)) && Clean(a)
    requires CollisionFree(h, Hashed(h, TreeOf(a)), Hashed(h, TreeOf(b)))
    ensures Fold(h, a) == Fold(h, b) <==> ShapeOf(a) == ShapeOf(b)
  {
    hide *;
    FoldIdentityBinds(h, a, b);
    CleanDetermines(a, b);
  }

  /** The other workload is encodable and shares no digest with `a` between different strings. */
  ghost predicate Comparable(h: Digest, a: App, b: App) {
    WellFormed(TreeOf(b)) && CollisionFree(h, Hashed(h, TreeOf(a)), Hashed(h, TreeOf(b)))
  }

  /** A folded identity binds its workload down to every register exactly when no register holds a colon. */
  lemma FoldBindsExactly(h: Digest, a: App)
    requires Digests(h) && Comparable(h, a, a)
    ensures (forall b :: Comparable(h, a, b) && Fold(h, b) == Fold(h, a) ==> ShapeOf(b) == ShapeOf(a)) <==> Clean(a)
  {
    hide TreeOf, ShapeOf, Clean, Twin, Fold, Hashed, CollisionFree, WellFormed;
    if Clean(a) {
      forall b | Comparable(h, a, b) && Fold(h, b) == Fold(h, a) ensures ShapeOf(b) == ShapeOf(a) {
        FoldBindsRegisters(h, a, b);
      }
    } else {
      ColonIsLost(h, a);
      assert Comparable(h, a, Twin(a));
    }
  }
}
