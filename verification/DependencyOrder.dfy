/**
 The canonical order of a dependency set, byte by byte, and the vector that the
 implementations in other languages share.
 */
module DependencyOrder {
  import opened Prelude
  import opened Codec
  import opened Sorting
  import opened Utf8
  import opened Dependencies
  import DependencyLaws
  import DependencyTree

  // ---- byte order -----------------------------------------------------------------

  /** `a` is a prefix of `b`, or smaller at the first byte where they differ. */
  ghost predicate Ascends(a: Bytes, b: Bytes) {
    a <= b || exists k :: Differs(a, b, k)
  }

  predicate Differs(a: Bytes, b: Bytes, k: nat) {
    k < |a| && k < |b| && a[..k] == b[..k] && a[k] < b[k]
  }

  lemma DiffersShifted(a: Bytes, b: Bytes, k: nat)
    requires a != [] && b != [] && a[0] == b[0]
    ensures Differs(a[1..], b[1..], k) <==> Differs(a, b, k + 1)
  {
    if k < |a| - 1 && k < |b| - 1 {
      assert a[..k + 1] == [a[0]] + a[1..][..k] && b[..k + 1] == [b[0]] + b[1..][..k];
      assert a[..k + 1][1..] == a[1..][..k] && b[..k + 1][1..] == b[1..][..k];
    }
  }

  lemma FirstByte(a: Bytes, b: Bytes, k: nat)
    requires a != [] && b != []
    ensures Differs(a, b, k) ==> a[0] <= b[0]
  {
    if 0 < k < |a| && k < |b| && a[..k] == b[..k] { assert a[..k][0] == b[..k][0]; }
  }

  /** The order of byte strings is that of their first difference, a prefix coming first. */
  lemma {:induction false} LexExactly(a: Bytes, b: Bytes)
    ensures LexLe(a, b) <==> Ascends(a, b)
  {
    if a != [] && b != [] {
      if a[0] < b[0] {
        assert Differs(a, b, 0);
      } else if a[0] == b[0] {
        LexExactly(a[1..], b[1..]);
        assert a <= b <==> a[1..] <= b[1..] by {
          assert a == [a[0]] + a[1..] && b == [b[0]] + b[1..];
          if a[1..] <= b[1..] { assert b[..|a|] == [b[0]] + b[1..][..|a| - 1]; }
          if a <= b { assert b[1..][..|a| - 1] == a[1..]; }
        }
        forall k: nat ensures Differs(a[1..], b[1..], k) <==> Differs(a, b, k + 1) { DiffersShifted(a, b, k); }
        if k: nat :| Differs(a, b, k) {
          assert k > 0;
          assert Differs(a[1..], b[1..], k - 1);
        }
      } else {
        forall k: nat ensures !Differs(a, b, k) { FirstByte(a, b, k); }
      }
    }
  }

  // ---- the canonical content ----------------------------------------------------------

  ghost predicate TextsAscend(texts: seq<Bytes>) {
    forall i, j :: 0 <= i < j < |texts| ==> Ascends(texts[i], texts[j])
  }

  ghost predicate PairsAscend(pairs: seq<Oid>) {
    forall i, j :: 0 <= i < j < |pairs| ==>
      if pairs[i].0 == pairs[j].0 then Ascends(pairs[i].1, pairs[j].1) else Ascends(pairs[i].0, pairs[j].0)
  }

  ghost predicate EntriesAscend(entries: seq<RawEntry>) {
    forall i, j :: 0 <= i < j < |entries| ==> Ascends(entries[i].appId, entries[j].appId)
  }

  lemma SortedTexts(texts: seq<Bytes>)
    ensures TextsAscend(Sort(LexLe, texts)) && multiset(Sort(LexLe, texts)) == multiset(texts)
  {
    LexPreorder();
    SortSorted(LexLe, texts);
    SortElements(LexLe, texts);
    var r := Sort(LexLe, texts);
    forall i, j | 0 <= i < j < |r| ensures Ascends(r[i], r[j]) { LexExactly(r[i], r[j]); }
  }

  lemma SortedPairs(pairs: seq<Oid>)
    ensures PairsAscend(Sort(PairLe, pairs)) && multiset(Sort(PairLe, pairs)) == multiset(pairs)
  {
    PairPreorder();
    SortSorted(PairLe, pairs);
    SortElements(PairLe, pairs);
    var r := Sort(PairLe, pairs);
    forall i, j | 0 <= i < j < |r|
      ensures if r[i].0 == r[j].0 then Ascends(r[i].1, r[j].1) else Ascends(r[i].0, r[j].0)
    {
      assert PairLe(r[i], r[j]);
      LexExactly(r[i].0, r[j].0);
      LexExactly(r[i].1, r[j].1);
    }
  }

  lemma RawPreorder()
    ensures TotalPreorder(RawLe)
  {
    forall x: RawEntry, y: RawEntry ensures RawLe(x, y) || RawLe(y, x) { LexTotal(x.appId, y.appId); }
    forall x: RawEntry, y: RawEntry, z: RawEntry | RawLe(x, y) && RawLe(y, z) ensures RawLe(x, z) {
      LexTransitive(x.appId, y.appId, z.appId);
    }
  }

  /** The content of an entry: its texts and pairs rearranged in ascending order, nothing lost and nothing added. */
  lemma EntryAscends(e: Entry)
    ensures var r := RawOf(e);
      && r.appId == e.appId && r.folded == Lower(e.folded)
      && TextsAscend(r.measurements) && multiset(r.measurements) == multiset(Map(Canonical, e.measurements))
      && PairsAscend(r.oids) && multiset(r.oids) == multiset(e.oids)
  {
    SortedTexts(Map(Canonical, e.measurements));
    SortedPairs(e.oids);
  }

  /** Canonical content lists the entries by ascending application id, each exactly as often as it was declared. */
  lemma ContentAscends(set_: seq<Entry>)
    ensures EntriesAscend(Content(set_)) && multiset(Content(set_)) == multiset(Map(RawOf, set_))
  {
    hide RawOf;
    var raw := Map(RawOf, set_);
    RawPreorder();
    SortSorted(RawLe, raw);
    SortElements(RawLe, raw);
    var r := Sort(RawLe, raw);
    forall i, j | 0 <= i < j < |r| ensures Ascends(r[i].appId, r[j].appId) {
      assert RawLe(r[i], r[j]);
      LexExactly(r[i].appId, r[j].appId);
    }
  }

  // ---- the shared vector ------------------------------------------------------------------

  // "confidential-ai", "1.3.6.1.4.1.65230.3.2" and "1.3.6.1.4.1.65230.3.6"
  const APP: Bytes := [99, 111, 110, 102, 105, 100, 101, 110, 116, 105, 97, 108, 45, 97, 105]
  const OID_2: Bytes := [49, 46, 51, 46, 54, 46, 49, 46, 52, 46, 49, 46, 54, 53, 50, 51, 48, 46, 51, 46, 50]
  const OID_6: Bytes := [49, 46, 51, 46, 54, 46, 49, 46, 52, 46, 49, 46, 54, 53, 50, 51, 48, 46, 51, 46, 54]

  /** One dependency with an SGX and a TDX measurement and two OIDs out of order. */
  function Sample(): Entry {
    Entry(APP, [Sgx([97, 97, 98, 98]), Tdx([49, 49], [50, 50], [51, 51])],
          [(OID_6, [97, 105]), (OID_2, [0xDE, 0xAD])], [48, 48, 102, 102])
  }

  const SGX_TEXT: Bytes := [115, 103, 120, 58, 97, 97, 98, 98]
  const TDX_TEXT: Bytes := [116, 100, 120, 58, 49, 49, 58, 50, 50, 58, 51, 51]

  lemma SampleTexts()
    ensures Sort(LexLe, Map(Canonical, Sample().measurements)) == [SGX_TEXT, TDX_TEXT]
  {
    assert Canonical(Sgx([97, 97, 98, 98])) == SGX_TEXT;
    assert Canonical(Tdx([49, 49], [50, 50], [51, 51])) == TDX_TEXT;
    assert Map(Canonical, Sample().measurements) == [SGX_TEXT, TDX_TEXT];
    assert SGX_TEXT[0] < TDX_TEXT[0];
    SortTwo(LexLe, SGX_TEXT, TDX_TEXT);
  }

  lemma SortTwo<T>(le: (T, T) -> bool, x: T, y: T)
    ensures Sort(le, [x, y]) == if le(x, y) then [x, y] else [y, x]
  {
    assert [x, y][1..] == [y] && [y][1..] == [];
    assert Sort(le, [y]) == [y];
    assert Insert(le, x, []) == [x];
    assert Insert(le, x, [y]) == if le(x, y) then [x, y] else [y, x];
  }

  lemma SamplePairs()
    ensures Sort(PairLe, Sample().oids) == [(OID_2, [0xDE, 0xAD]), (OID_6, [97, 105])]
  {
    assert OID_6[20] == 54 && OID_2[20] == 50 && OID_6[..20] == OID_2[..20];
    LexExactly(OID_6, OID_2);
    forall k: nat ensures !Differs(OID_6, OID_2, k) { if k < 20 { assert OID_6[..20][k] == OID_2[..20][k]; } }
    assert !(OID_6 <= OID_2);
    SortTwo(PairLe, Sample().oids[0], Sample().oids[1]);
  }

  lemma FourBytes(n: nat)
    requires n < 256
    ensures BE(n, 4) == [0, 0, 0, n]
  {
    assert BE(n, 4) == BE(n / 256, 3) + [n % 256];
    assert BE(0, 3) == [0, 0, 0];
  }

  const VECTOR: Bytes :=
    [0, 0, 0, 1]
    + [0, 0, 0, 15, 99, 111, 110, 102, 105, 100, 101, 110, 116, 105, 97, 108, 45, 97, 105]
    + [0, 0, 0, 2]
    + [0, 0, 0, 8, 115, 103, 120, 58, 97, 97, 98, 98]
    + [0, 0, 0, 12, 116, 100, 120, 58, 49, 49, 58, 50, 50, 58, 51, 51]
    + [0, 0, 0, 2]
    + [0, 0, 0, 21, 49, 46, 51, 46, 54, 46, 49, 46, 52, 46, 49, 46, 54, 53, 50, 51, 48, 46, 51, 46, 50]
    + [0, 0, 0, 2, 222, 173]
    + [0, 0, 0, 21, 49, 46, 51, 46, 54, 46, 49, 46, 52, 46, 49, 46, 54, 53, 50, 51, 48, 46, 51, 46, 54]
    + [0, 0, 0, 2, 97, 105]
    + [0, 0, 0, 4, 48, 48, 102, 102]

  lemma OneContent(e: Entry)
    ensures Content([e]) == [RawOf(e)]
  {
    hide RawOf;
    assert Map(RawOf, [e]) == [RawOf(e)];
    SortSingle(RawLe, RawOf(e));
  }

  lemma TextBytes(x: Bytes)
    requires |x| < 256
    ensures StrEnc(x) == [0, 0, 0, |x|] + x
  {
    FourBytes(|x|);
  }

  lemma TwoItems<T>(enc: T -> Bytes, x: T, y: T)
    ensures CountedBE(enc, [x, y]) == [0, 0, 0, 2] + enc(x) + enc(y)
  {
    FourBytes(2);
    assert [x, y][1..] == [y] && [y][1..] == [];
    assert EncodeAll(enc, [y]) == enc(y) + [];
  }

  lemma SampleRaw()
    ensures RawOf(Sample()) ==
      RawEntry(APP, [SGX_TEXT, TDX_TEXT], [(OID_2, [0xDE, 0xAD]), (OID_6, [97, 105])], [48, 48, 102, 102])
  {
    SampleTexts();
    SamplePairs();
    hide Sort, Canonical, Map;
    assert Lower([48, 48, 102, 102]) == [48, 48, 102, 102];
  }

  /** The encoding of the sample is the vector the other implementations are pinned to. */
  lemma SampleIsVector()
    ensures Encode([Sample()]) == VECTOR
  {
    DependencyLaws.EncodeIsContent([Sample()]);
    OneContent(Sample());
    SampleRaw();
    var r := RawOf(Sample());
    hide RawOf, Encode, Sort;
    assert EncodeAll(RawEnc, [r]) == RawEnc(r) + [] by { assert [r][1..] == []; }
    FourBytes(1);
    TwoItems(StrEnc, SGX_TEXT, TDX_TEXT);
    TwoItems(OidEnc, r.oids[0], r.oids[1]);
    TextBytes(APP);
    TextBytes(SGX_TEXT);
    TextBytes(TDX_TEXT);
    TextBytes(OID_2);
    TextBytes(OID_6);
    TextBytes([0xDE, 0xAD]);
    TextBytes([97, 105]);
    TextBytes([48, 48, 102, 102]);
    hide BE, StrEnc;
    SamplePieces();
    assert Encode([Sample()]) ==
      [0, 0, 0, 1] + ([0, 0, 0, 15] + APP
      + ([0, 0, 0, 2] + ([0, 0, 0, 8] + SGX_TEXT) + ([0, 0, 0, 12] + TDX_TEXT))
      + ([0, 0, 0, 2] + (([0, 0, 0, 21] + OID_2) + ([0, 0, 0, 2] + [0xDE, 0xAD]))
                      + (([0, 0, 0, 21] + OID_6) + ([0, 0, 0, 2] + [97, 105])))
      + ([0, 0, 0, 4] + [48, 48, 102, 102]) + []);
    Regrouped([0, 0, 0, 1], [0, 0, 0, 15] + APP, [0, 0, 0, 2], [0, 0, 0, 8] + SGX_TEXT, [0, 0, 0, 12] + TDX_TEXT,
              [0, 0, 0, 21] + OID_2, [0, 0, 0, 2] + [0xDE, 0xAD], [0, 0, 0, 21] + OID_6, [0, 0, 0, 2] + [97, 105],
              [0, 0, 0, 4] + [48, 48, 102, 102]);
  }

  lemma Regrouped(n: Bytes, a: Bytes, two: Bytes, s: Bytes, t: Bytes, o: Bytes, v: Bytes, p: Bytes, w: Bytes, f: Bytes)
    ensures n + (a + (two + s + t) + (two + (o + v) + (p + w)) + f + []) ==
      n + a + two + s + t + two + o + v + p + w + f
  {
  }

  lemma SamplePieces()
    ensures VECTOR == [0, 0, 0, 1] + ([0, 0, 0, 15] + APP) + [0, 0, 0, 2] + ([0, 0, 0, 8] + SGX_TEXT)
      + ([0, 0, 0, 12] + TDX_TEXT) + [0, 0, 0, 2] + ([0, 0, 0, 21] + OID_2) + ([0, 0, 0, 2] + [0xDE, 0xAD])
      + ([0, 0, 0, 21] + OID_6) + ([0, 0, 0, 2] + [97, 105]) + ([0, 0, 0, 4] + [48, 48, 102, 102])
  {
    assert [0, 0, 0, 15] + APP == [0, 0, 0, 15, 99, 111, 110, 102, 105, 100, 101, 110, 116, 105, 97, 108, 45, 97, 105];
    assert [0, 0, 0, 8] + SGX_TEXT == [0, 0, 0, 8, 115, 103, 120, 58, 97, 97, 98, 98];
    assert [0, 0, 0, 12] + TDX_TEXT == [0, 0, 0, 12, 116, 100, 120, 58, 49, 49, 58, 50, 50, 58, 51, 51];
    assert [0, 0, 0, 21] + OID_2 ==
      [0, 0, 0, 21, 49, 46, 51, 46, 54, 46, 49, 46, 52, 46, 49, 46, 54, 53, 50, 51, 48, 46, 51, 46, 50];
    assert [0, 0, 0, 21] + OID_6 ==
      [0, 0, 0, 21, 49, 46, 51, 46, 54, 46, 49, 46, 52, 46, 49, 46, 54, 53, 50, 51, 48, 46, 51, 46, 54];
  }

  lemma OneItem<T>(enc: T -> Bytes, x: T)
    ensures CountedBE(enc, [x]) == [0, 0, 0, 1] + enc(x)
  {
    FourBytes(1);
    assert [x][1..] == [];
    assert EncodeAll(enc, [x]) == enc(x) + [];
  }

  /** What is hashed: the domain, the measurements, the OIDs and the dependency set, each behind its length or count. */
  lemma OnePreimage(m: Bytes, oid: Bytes, value: Bytes, set_: seq<Entry>)
    requires Lower(m) == m && |m| < 256 && |oid| < 256 && |value| < 256
    ensures DependencyTree.Preimage([m], [(oid, value)], set_) ==
      ([0, 0, 0, 24] + DependencyTree.DOMAIN) + ([0, 0, 0, 1] + ([0, 0, 0, |m|] + m))
      + ([0, 0, 0, 1] + (([0, 0, 0, |oid|] + oid) + ([0, 0, 0, |value|] + value))) + Encode(set_)
  {
    assert Map(Lower, [m]) == [m];
    SortSingle(LexLe, m);
    SortSingle(PairLe, (oid, value));
    OneItem(StrEnc, m);
    OneItem(OidEnc, (oid, value));
    TextBytes(DependencyTree.DOMAIN);
    TextBytes(m);
    TextBytes(oid);
    TextBytes(value);
    hide Encode, Sort, StrEnc, BE, Map, CountedBE;
  }

  /** The domain is "privasys-app-identity-v1". */
  lemma DomainText()
    ensures DependencyTree.DOMAIN ==
      [112, 114, 105, 118, 97, 115, 121, 115, 45, 97, 112, 112, 45, 105, 100, 101, 110, 116, 105, 116, 121, 45, 118, 49]
  {
  }

  lemma SortSingle<T>(le: (T, T) -> bool, x: T)
    ensures Sort(le, [x]) == [x]
  {
    assert [x][1..] == [];
    assert Sort(le, [x]) == Insert(le, x, []);
  }
}
