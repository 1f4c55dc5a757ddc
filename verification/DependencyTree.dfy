/**
 Folded identities: the digest stored for a dependency commits to that dependency's own
 measurements, required OIDs and direct dependencies, and so to the whole tree below it.
 The digest function is a parameter.
 */
module DependencyTree {
  import opened Prelude
  import opened Codec
  import opened Sorting
  import opened Utf8
  import opened Dependencies
  import DependencyLaws
  import Hex

  // "privasys-app-identity-v1"
  const DOMAIN: Bytes :=
    [112, 114, 105, 118, 97, 115, 121, 115, 45, 97, 112, 112, 45, 105, 100, 101, 110, 116, 105, 116, 121, 45, 118, 49]

  /** A workload with its declared dependencies; a dependency without a subtree is a leaf. */
  datatype App = App(measurements: seq<Bytes>, oids: seq<Oid>, deps: seq<Dep>)
  datatype Dep = Dep(appId: Bytes, measurements: seq<DepMeasurement>, oids: seq<Oid>, subtree: Option<App>)

  type Digest = Bytes -> Bytes

  ghost predicate Digests(h: Digest) {
    forall x :: |h(x)| == 32
  }

  function Preimage(measurements: seq<Bytes>, oids: seq<Oid>, set_: seq<Entry>): Bytes {
    StrEnc(DOMAIN) + CountedBE(StrEnc, Sort(LexLe, Map(Lower, measurements)))
    + CountedBE(OidEnc, Sort(PairLe, oids)) + Encode(set_)
  }

  function Fold(h: Digest, a: App): Bytes {
    Hex.Encode(h(Preimage(a.measurements, a.oids, SetOf(h, a.deps))))
  }

  function EntryOf(h: Digest, d: Dep): Entry {
    Entry(d.appId, d.measurements, d.oids, match d.subtree case None => [] case Some(a) => Fold(h, a))
  }

  function SetOf(h: Digest, deps: seq<Dep>): (r: seq<Entry>)
    ensures |r| == |deps|
  {
    if deps == [] then [] else [EntryOf(h, deps[0])] + SetOf(h, deps[1..])
  }

  // ---- the tree without its declaration order --------------------------------

  datatype Tree = Tree(measurements: seq<Bytes>, oids: seq<Oid>, deps: seq<Branch>)
  datatype Branch = Branch(appId: Bytes, measurements: seq<Bytes>, oids: seq<Oid>, subtree: Option<Tree>)

  predicate BranchLe(a: Branch, b: Branch) {
    LexLe(a.appId, b.appId)
  }

  function TreeOf(a: App): Tree {
    Tree(Sort(LexLe, Map(Lower, a.measurements)), Sort(PairLe, a.oids), Sort(BranchLe, Branches(a.deps)))
  }

  function BranchOf(d: Dep): Branch {
    Branch(d.appId, Sort(LexLe, Map(Canonical, d.measurements)), Sort(PairLe, d.oids),
           match d.subtree case None => None case Some(a) => Some(TreeOf(a)))
  }

  function Branches(deps: seq<Dep>): (r: seq<Branch>)
    ensures |r| == |deps|
  {
    if deps == [] then [] else [BranchOf(deps[0])] + Branches(deps[1..])
  }

  // ---- a fold is a function of the tree ----------------------------------------

  function TreePreimage(h: Digest, t: Tree): Bytes
    decreases t, 0
  {
    StrEnc(DOMAIN) + CountedBE(StrEnc, t.measurements)
    + CountedBE(OidEnc, t.oids) + CountedBE(RawEnc, RawBranches(h, t.deps))
  }

  function FoldTree(h: Digest, t: Tree): Bytes
    decreases t, 1
  {
    Hex.Encode(h(TreePreimage(h, t)))
  }

  function RawBranch(h: Digest, b: Branch): RawEntry {
    RawEntry(b.appId, b.measurements, b.oids, match b.subtree case None => [] case Some(t) => FoldTree(h, t))
  }

  function RawBranches(h: Digest, bs: seq<Branch>): (r: seq<RawEntry>)
    ensures |r| == |bs| && forall i :: 0 <= i < |bs| ==> r[i] == RawBranch(h, bs[i])
  {
    if bs == [] then [] else [RawBranch(h, bs[0])] + RawBranches(h, bs[1..])
  }

  lemma SortBranches(h: Digest, bs: seq<Branch>)
    ensures Sort(RawLe, RawBranches(h, bs)) == RawBranches(h, Sort(BranchLe, bs))
  {
    var f := b => RawBranch(h, b);
    assert RawBranches(h, bs) == Map(f, bs);
    assert RawBranches(h, Sort(BranchLe, bs)) == Map(f, Sort(BranchLe, bs));
    SortMap(BranchLe, RawLe, f, bs);
  }

  /** The folded identity depends only on the canonical tree, not on any declaration order or letter case. */
  lemma {:induction false} FoldOfTree(h: Digest, a: App)
    ensures Fold(h, a) == FoldTree(h, TreeOf(a))
  {
    var set_ := SetOf(h, a.deps);
    EntriesOfTree(h, a.deps);
    DependencyLaws.EncodeIsContent(set_);
    SortBranches(h, Branches(a.deps));
  }

  lemma {:induction false} EntriesOfTree(h: Digest, deps: seq<Dep>)
    ensures Map(RawOf, SetOf(h, deps)) == RawBranches(h, Branches(deps))
  {
    if deps != [] {
      hide RawOf, EntryOf, RawBranch, BranchOf, RawBranches, Map;
      EntryOfTree(h, deps[0]);
      EntriesOfTree(h, deps[1..]);
      MapCons(EntryOf(h, deps[0]), SetOf(h, deps[1..]));
      RawCons(h, BranchOf(deps[0]), Branches(deps[1..]));
    }
  }

  lemma MapCons(e: Entry, rest: seq<Entry>)
    ensures Map(RawOf, [e] + rest) == [RawOf(e)] + Map(RawOf, rest)
  {
    hide RawOf;
  }

  lemma RawCons(h: Digest, b: Branch, rest: seq<Branch>)
    ensures RawBranches(h, [b] + rest) == [RawBranch(h, b)] + RawBranches(h, rest)
  {
    hide RawBranch;
    assert ([b] + rest)[1..] == rest;
  }

  lemma {:induction false} EntryOfTree(h: Digest, d: Dep)
    ensures RawOf(EntryOf(h, d)) == RawBranch(h, BranchOf(d))
  {
    match d.subtree
    case None =>
    case Some(a) =>
      FoldOfTree(h, a);
      var x := h(Preimage(a.measurements, a.oids, SetOf(h, a.deps)));
      assert Lower(Hex.Encode(x)) == Hex.Encode(x);
  }

  // ---- a fold determines the tree, up to a digest collision ---------------------

  predicate WellFormed(t: Tree) {
    && |t.measurements| < U32 && (forall i :: 0 <= i < |t.measurements| ==> TextValid(t.measurements[i]))
    && |t.oids| < U32 && (forall i :: 0 <= i < |t.oids| ==> OidValid(t.oids[i]))
    && |t.deps| < U32 && (forall i :: 0 <= i < |t.deps| ==> WellFormedBranch(t.deps[i]))
  }

  predicate WellFormedBranch(b: Branch) {
    && TextValid(b.appId)
    && |b.measurements| < U32 && (forall i :: 0 <= i < |b.measurements| ==> TextValid(b.measurements[i]))
    && |b.oids| < U32 && (forall i :: 0 <= i < |b.oids| ==> OidValid(b.oids[i]))
    && (b.subtree.Some? ==> WellFormed(b.subtree.value))
  }

  lemma FoldText(h: Digest, t: Tree)
    requires Digests(h)
    ensures TextValid(FoldTree(h, t)) && |FoldTree(h, t)| == 64
  {
    hide TreePreimage, Utf8.Valid;
    AsciiValid(Hex.Encode(h(TreePreimage(h, t))));
  }

  lemma BranchValid(h: Digest, b: Branch)
    requires Digests(h) && WellFormedBranch(b)
    ensures RawValid(RawBranch(h, b))
  {
    hide FoldTree, Utf8.Valid;
    match b.subtree
    case None => AsciiValid([]);
    case Some(t) => FoldText(h, t);
  }

  lemma BranchesValid(h: Digest, bs: seq<Branch>)
    requires Digests(h) && |bs| < U32 && forall i :: 0 <= i < |bs| ==> WellFormedBranch(bs[i])
    ensures CountedOk(RawValid, RawBranches(h, bs))
  {
    hide RawBranch, RawValid, WellFormedBranch;
    forall i | 0 <= i < |bs| ensures RawValid(RawBranch(h, bs[i])) { BranchValid(h, bs[i]); }
  }

  lemma CountedPrefix<T(!new)>(valid: T -> bool, enc: T -> Bytes, dec: Bytes -> Parsed<T>, xs: seq<T>, ys: seq<T>,
    r: Bytes, s: Bytes)
    requires Exact(valid, enc, dec) && CountedOk(valid, xs) && CountedOk(valid, ys)
    requires CountedBE(enc, xs) + r == CountedBE(enc, ys) + s
    ensures xs == ys && r == s
  {
    CountedExactBE(valid, enc, dec, xs, r, CountedBE(enc, xs) + r);
    CountedExactBE(valid, enc, dec, ys, s, CountedBE(enc, ys) + s);
  }

  /** Equal preimages say the same measurements, OIDs and direct dependencies. */
  lemma PreimageSays(h: Digest, a: Tree, b: Tree)
    requires Digests(h) && WellFormed(a) && WellFormed(b) && TreePreimage(h, a) == TreePreimage(h, b)
    ensures a.measurements == b.measurements && a.oids == b.oids && RawBranches(h, a.deps) == RawBranches(h, b.deps)
  {
    var (ma, mb) := (CountedBE(StrEnc, a.measurements), CountedBE(StrEnc, b.measurements));
    var (oa, ob) := (CountedBE(OidEnc, a.oids), CountedBE(OidEnc, b.oids));
    var (da, db) := (CountedBE(RawEnc, RawBranches(h, a.deps)), CountedBE(RawEnc, RawBranches(h, b.deps)));
    TailEqual(StrEnc(DOMAIN), ma, oa, da, mb, ob, db);
    TextExact();
    CountedPrefix(TextValid, StrEnc, TextDec, a.measurements, b.measurements, oa + da, ob + db);
    OidExact();
    CountedPrefix(OidValid, OidEnc, OidDec, a.oids, b.oids, da, db);
    BranchesValid(h, a.deps);
    BranchesValid(h, b.deps);
    RawExact();
    CountedPrefix(RawValid, RawEnc, RawDec, RawBranches(h, a.deps), RawBranches(h, b.deps), [], []);
  }

  lemma TailEqual(d: Bytes, a: Bytes, b: Bytes, c: Bytes, x: Bytes, y: Bytes, z: Bytes)
    requires d + a + b + c == d + x + y + z
    ensures a + (b + c) == x + (y + z)
  {
    assert (d + a + b + c)[|d|..] == a + (b + c);
    assert (d + x + y + z)[|d|..] == x + (y + z);
  }

  /** Everything that is hashed anywhere in a tree. */
  function Hashed(h: Digest, t: Tree): set<Bytes> {
    {TreePreimage(h, t)} + HashedBelow(h, t.deps)
  }

  function HashedBelow(h: Digest, bs: seq<Branch>): set<Bytes> {
    if bs == [] then {}
    else (match bs[0].subtree case None => {} case Some(t) => Hashed(h, t)) + HashedBelow(h, bs[1..])
  }

  /** No two different strings, one hashed in either tree, share a digest. */
  ghost predicate CollisionFree(h: Digest, xs: set<Bytes>, ys: set<Bytes>) {
    forall x, y :: x in xs && y in ys && h(x) == h(y) ==> x == y
  }

  /** Without a digest collision between them, trees with the same folded identity are the same tree. */
  lemma {:induction false} FoldBinds(h: Digest, a: Tree, b: Tree)
    requires Digests(h) && WellFormed(a) && WellFormed(b) && FoldTree(h, a) == FoldTree(h, b)
    requires CollisionFree(h, Hashed(h, a), Hashed(h, b))
    ensures a == b
    decreases a
  {
    Hex.DecodeOfEncode(h(TreePreimage(h, a)));
    Hex.DecodeOfEncode(h(TreePreimage(h, b)));
    assert TreePreimage(h, a) in Hashed(h, a) && TreePreimage(h, b) in Hashed(h, b);
    PreimageSays(h, a, b);
    BranchesBind(h, a.deps, b.deps);
  }

  lemma {:induction false} BranchesBind(h: Digest, a: seq<Branch>, b: seq<Branch>)
    requires Digests(h) && RawBranches(h, a) == RawBranches(h, b)
    requires forall i :: 0 <= i < |a| ==> WellFormedBranch(a[i])
    requires forall i :: 0 <= i < |b| ==> WellFormedBranch(b[i])
    requires CollisionFree(h, HashedBelow(h, a), HashedBelow(h, b))
    ensures a == b
    decreases a
  {
    if a != [] {
      assert RawBranches(h, a)[0] == RawBranches(h, b)[0];
      BranchBinds(h, a[0], b[0]);
      assert RawBranches(h, a)[1..] == RawBranches(h, b)[1..];
      BranchesBind(h, a[1..], b[1..]);
      assert a == [a[0]] + a[1..] && b == [b[0]] + b[1..];
    }
  }

  lemma {:induction false} BranchBinds(h: Digest, a: Branch, b: Branch)
    requires Digests(h) && WellFormedBranch(a) && WellFormedBranch(b) && RawBranch(h, a) == RawBranch(h, b)
    requires a.subtree.Some? && b.subtree.Some? ==>
      CollisionFree(h, Hashed(h, a.subtree.value), Hashed(h, b.subtree.value))
    ensures a == b
    decreases a
  {
    if a.subtree.Some? {
      assert |RawBranch(h, a).folded| == 64;
      FoldBinds(h, a.subtree.value, b.subtree.value);
    } else {
      assert |RawBranch(h, b).folded| == 0;
    }
  }

  /**
   Declared workloads have the same folded identity exactly when their canonical trees agree,
   digest collisions aside.
   */
  lemma FoldIdentityBinds(h: Digest, a: App, b: App)
    requires Digests(h) && WellFormed(TreeOf(a)) && WellFormed(TreeOf(b))
    requires CollisionFree(h, Hashed(h, TreeOf(a)), Hashed(h, TreeOf(b)))
    ensures Fold(h, a) == Fold(h, b) <==> TreeOf(a) == TreeOf(b)
  {
    FoldOfTree(h, a);
    FoldOfTree(h, b);
    if Fold(h, a) == Fold(h, b) { FoldBinds(h, TreeOf(a), TreeOf(b)); }
  }

  /** Unequal trees with one folded identity exhibit two different hashed strings with one digest. */
  lemma FoldCollision(h: Digest, a: App, b: App) returns (x: Bytes, y: Bytes)
    requires Digests(h) && WellFormed(TreeOf(a)) && WellFormed(TreeOf(b))
    requires Fold(h, a) == Fold(h, b) && TreeOf(a) != TreeOf(b)
    ensures x in Hashed(h, TreeOf(a)) && y in Hashed(h, TreeOf(b)) && x != y && h(x) == h(y)
  {
    var xs, ys := Hashed(h, TreeOf(a)), Hashed(h, TreeOf(b));
    if CollisionFree(h, xs, ys) { FoldIdentityBinds(h, a, b); }
    x, y :| x in xs && y in ys && h(x) == h(y) && x != y;
  }
}
