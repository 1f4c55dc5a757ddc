/**
 Exactly which byte strings the envelope decoder accepts: a map head and three entries,
 each a short text key and a value whose head may be longer than it needs to be.
 */
module EnvelopeLanguage {
  import opened Prelude
  import opened Envelope

  /** A head of the major type that says `v`, in any of the five widths. */
  predicate HeadForm(major: nat, v: nat, h: Bytes) {
    || (|h| == 1 && v <= 23 && h[0] == 32 * major + v)
    || (|h| == 2 && h[0] == 32 * major + 24 && FromBE(h[1..]) == v)
    || (|h| == 3 && h[0] == 32 * major + 25 && FromBE(h[1..]) == v)
    || (|h| == 5 && h[0] == 32 * major + 26 && FromBE(h[1..]) == v)
    || (|h| == 9 && h[0] == 32 * major + 27 && FromBE(h[1..]) == v)
  }

  predicate BodyForm(x: Bytes, b: Bytes) {
    |x| < |b| && HeadForm(BYTES, |x|, b[..|b| - |x|]) && b[|b| - |x|..] == x
  }

  predicate ValueForm(f: Field, b: Bytes) {
    match f
    case Version(n) => HeadForm(UINT, n, b)
    case Counter(n) => HeadForm(UINT, n, b)
    case Body(x) => BodyForm(x, b)
  }

  predicate FieldForm(f: Field, b: Bytes) {
    KeyEnc(Key(f)) <= b && ValueForm(f, b[|KeyEnc(Key(f))|..])
  }

  lemma HeadExact(buf: Bytes, p: nat, major: nat, v: nat, q: nat)
    requires major < 8
    ensures TakeHead(buf, p, major) == Some((v, q)) <==> p < q <= |buf| && HeadForm(major, v, buf[p..q])
  {
    hide FromBE;
    if p < q <= |buf| {
      assert buf[p..q][0] == buf[p] && buf[p..q][1..] == buf[p + 1..q];
    }
  }

  lemma BodyExact(buf: Bytes, p: nat, x: Bytes, z: nat)
    requires |buf| < U64 / 2
    ensures TakeBytes(buf, p) == Ok((x, z)) <==> p < z <= |buf| && BodyForm(x, buf[p..z])
  {
    hide TakeHead, HeadForm;
    if TakeBytes(buf, p) == Ok((x, z)) {
      var q := z - |x|;
      HeadExact(buf, p, BYTES, |x|, q);
      assert buf[p..z][..q - p] == buf[p..q] && buf[p..z][q - p..] == buf[q..z];
    }
    if p < z <= |buf| && BodyForm(x, buf[p..z]) {
      var q := z - |x|;
      assert buf[p..z][..q - p] == buf[p..q] && buf[p..z][q - p..] == buf[q..z];
      HeadExact(buf, p, BYTES, |x|, q);
    }
  }

  /** A key is read exactly where its text stands. */
  lemma KeyExact(buf: Bytes, p: nat, f: Field, q: nat)
    ensures TakeText(buf, p) == Some((Key(f), q)) <==> StandsAt(buf, p, KeyEnc(Key(f))) && q == p + |KeyEnc(Key(f))|
  {
    var k := Key(f);
    if StandsAt(buf, p, KeyEnc(k)) { KeyAt(buf, p, f); }
    if TakeText(buf, p) == Some((k, q)) {
      assert q == p + 1 + |k| && buf[p] == 96 + |k|;
      assert buf[p..q] == [buf[p]] + buf[p + 1..q];
    }
  }

  lemma FormAt(buf: Bytes, p: nat, q: nat, z: nat, f: Field)
    requires p <= q && z <= |buf| && q == p + |KeyEnc(Key(f))|
    ensures p < z && FieldForm(f, buf[p..z]) <==> q <= z && StandsAt(buf, p, KeyEnc(Key(f))) && ValueForm(f, buf[q..z])
  {
    hide ValueForm;
    var k := KeyEnc(Key(f));
    if q <= z {
      assert buf[p..z][..|k|] == buf[p..q] && buf[p..z][|k|..] == buf[q..z];
    }
  }

  /** One entry is read exactly when a field stands there in some form. */
  lemma FieldSound(buf: Bytes, p: nat, acc: Acc, next: Acc, z: nat) returns (f: Field)
    requires |buf| < U64 / 2 && TakeField(buf, p, acc) == Ok((next, z))
    ensures p < z <= |buf| && FieldForm(f, buf[p..z]) && next == Apply(acc, f)
  {
    hide TakeHead, TakeText, TakeBytes, HeadForm, BodyForm;
    var (key, q) := TakeText(buf, p).value;
    if key == KEY_V {
      f := Version(TakeHead(buf, q, UINT).value.0);
      HeadExact(buf, q, UINT, f.n, z);
    } else if key == KEY_CTR {
      f := Counter(TakeHead(buf, q, UINT).value.0);
      HeadExact(buf, q, UINT, f.n, z);
    } else {
      f := Body(TakeBytes(buf, q).value.0);
      BodyExact(buf, q, f.bytes, z);
    }
    KeyExact(buf, p, f, q);
    FormAt(buf, p, q, z, f);
  }

  lemma ValueNotEmpty(f: Field, b: Bytes)
    requires ValueForm(f, b)
    ensures |b| > 0
  {
  }

  lemma FieldComplete(buf: Bytes, p: nat, acc: Acc, f: Field, z: nat)
    requires |buf| < U64 / 2 && p < z <= |buf| && FieldForm(f, buf[p..z])
    ensures TakeField(buf, p, acc) == Ok((Apply(acc, f), z))
  {
    hide TakeHead, TakeText, TakeBytes, HeadForm, BodyForm, KeyEnc;
    var q := p + |KeyEnc(Key(f))|;
    FormAt(buf, p, q, z, f);
    ValueNotEmpty(f, buf[q..z]);
    KeyExact(buf, p, f, q);
    if f.Body? {
      BodyExact(buf, q, f.bytes, z);
      BodyField(buf, p, q, z, f.bytes, acc);
    } else {
      HeadExact(buf, q, UINT, f.n, z);
      NumberField(buf, p, q, z, f, acc);
    }
  }

  datatype Layout = Layout(a: Field, b: Field, c: Field, p1: nat, p2: nat, p3: nat)

  /** Three fields stand one behind the other after the map head. */
  predicate Laid(buf: Bytes, l: Layout) {
    && |buf| >= 1 && buf[0] == MAP_OF_THREE && 1 < l.p1 < l.p2 < l.p3 <= |buf|
    && FieldForm(l.a, buf[1..l.p1]) && FieldForm(l.b, buf[l.p1..l.p2]) && FieldForm(l.c, buf[l.p2..l.p3])
  }

  function Meaning(l: Layout): Outcome<(nat, Bytes)> {
    Result(Apply(Apply(Apply(Acc(None, None, None), l.a), l.b), l.c))
  }

  lemma LaidDecodes(buf: Bytes, l: Layout)
    requires |buf| < U64 / 2 && Laid(buf, l)
    ensures Decode(buf) == Meaning(l)
  {
    hide FieldForm, TakeField;
    var a0 := Acc(None, None, None);
    var a1 := Apply(a0, l.a);
    var a2 := Apply(a1, l.b);
    FieldComplete(buf, 1, a0, l.a, l.p1);
    FieldComplete(buf, l.p1, a1, l.b, l.p2);
    FieldComplete(buf, l.p2, a2, l.c, l.p3);
    Unroll(buf, 1, l.p1, l.p2, l.p3, a0, a1, a2, Apply(a2, l.c));
  }

  lemma DecodedIsLaid(buf: Bytes) returns (l: Layout)
    requires |buf| < U64 / 2 && Decode(buf).Ok?
    ensures Laid(buf, l) && Meaning(l) == Decode(buf)
  {
    hide FieldForm, TakeField;
    var a0 := Acc(None, None, None);
    var (a1, p1) := TakeField(buf, 1, a0).value;
    assert Fields(buf, 1, 3, a0) == Fields(buf, p1, 2, a1);
    var (a2, p2) := TakeField(buf, p1, a1).value;
    assert Fields(buf, p1, 2, a1) == Fields(buf, p2, 1, a2);
    var (a3, p3) := TakeField(buf, p2, a2).value;
    assert Fields(buf, p2, 1, a2) == Fields(buf, p3, 0, a3) == Ok((a3, p3));
    var a := FieldSound(buf, 1, a0, a1, p1);
    var b := FieldSound(buf, p1, a1, a2, p2);
    var c := FieldSound(buf, p2, a2, a3, p3);
    l := Layout(a, b, c, p1, p2, p3);
  }

  /** The three entries are a version of one, a counter and a ciphertext, in some order. */
  predicate Names(l: Layout, ctr: nat, ct: Bytes) {
    {l.a, l.b, l.c} == {Version(1), Counter(ctr), Body(ct)}
  }

  /** The decoder accepts exactly the laid-out envelopes that name each entry once. */
  lemma AcceptedExactly(buf: Bytes, ctr: nat, ct: Bytes)
    requires |buf| < U64 / 2
    ensures Decode(buf) == Ok((ctr, ct)) <==> exists l :: Laid(buf, l) && Names(l, ctr, ct)
  {
    hide Decode, Laid;
    if Decode(buf) == Ok((ctr, ct)) {
      var l := DecodedIsLaid(buf);
      ResultExactly(l.a, l.b, l.c, ctr, ct);
      assert Laid(buf, l) && Names(l, ctr, ct);
    }
    forall l | Laid(buf, l) && Names(l, ctr, ct) ensures Decode(buf) == Ok((ctr, ct)) {
      LaidDecodes(buf, l);
      ResultExactly(l.a, l.b, l.c, ctr, ct);
    }
  }

  // ---- the envelopes that stop the decoder -------------------------------------------

  predicate EntryAt(buf: Bytes, p: nat, z: nat, f: Field) {
    p < z <= |buf| && FieldForm(f, buf[p..z])
  }

  /** A ciphertext key stands at `p`, before an eight-byte length whose end passes 2^64. */
  predicate Overlong(buf: Bytes, p: nat) {
    var q := p + |KeyEnc(KEY_CT)|;
    StandsAt(buf, p, KeyEnc(KEY_CT)) && q + 9 <= |buf| && buf[q] == 0x5B && q + 9 + FromBE(buf[q + 1..q + 9]) >= U64
  }

  /** Fewer than `n` entries stand from `p` on, and an overlong ciphertext follows them. */
  ghost predicate AbortsFrom(buf: Bytes, p: nat, n: nat)
    decreases n
  {
    n > 0 && (Overlong(buf, p) || exists f, z: nat :: EntryAt(buf, p, z, f) && AbortsFrom(buf, z, n - 1))
  }

  lemma FieldAborts(buf: Bytes, p: nat, acc: Acc)
    requires |buf| < U64 / 2
    ensures TakeField(buf, p, acc) == Aborted <==> Overlong(buf, p)
  {
    hide TakeHead, TakeText, TakeBytes, FromBE;
    var q := p + |KeyEnc(KEY_CT)|;
    assert |KEY_V| == 1 && |KEY_CTR| == 3 && |KEY_CT| == 2;
    KeyExact(buf, p, Body([]), q);
    AbortsExactly(buf, q);
    if TakeField(buf, p, acc) == Aborted {
      KeyExact(buf, p, Body([]), TakeText(buf, p).value.1);
    }
  }

  lemma {:induction false} FieldsAbort(buf: Bytes, p: nat, n: nat, acc: Acc)
    requires |buf| < U64 / 2
    ensures Fields(buf, p, n, acc) == Aborted <==> AbortsFrom(buf, p, n)
    decreases n
  {
    hide TakeField, Overlong, FieldForm;
    if n > 0 {
      FieldAborts(buf, p, acc);
      if TakeField(buf, p, acc).Ok? {
        var (next, q) := TakeField(buf, p, acc).value;
        var g := FieldSound(buf, p, acc, next, q);
        FieldsAbort(buf, q, n - 1, next);
        assert EntryAt(buf, p, q, g);
      }
      forall f, z: nat | EntryAt(buf, p, z, f) ensures TakeField(buf, p, acc) == Ok((Apply(acc, f), z)) {
        FieldComplete(buf, p, acc, f, z);
      }
    }
  }

  /** Decoding panics exactly when an overlong ciphertext stands behind fewer than three readable entries. */
  lemma DecodeAbortsExactly(buf: Bytes)
    requires |buf| < U64 / 2
    ensures Decode(buf) == Aborted <==> |buf| >= 1 && buf[0] == MAP_OF_THREE && AbortsFrom(buf, 1, 3)
  {
    hide Fields, AbortsFrom;
    if |buf| >= 1 && buf[0] == MAP_OF_THREE {
      FieldsAbort(buf, 1, 3, Acc(None, None, None));
    }
  }
}
