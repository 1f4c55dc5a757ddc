/**
 The canonical writer and reader as the source runs them: a buffer that grows, an offset
 that moves, and the nested loops over entries, measurements and OIDs. The writer is
 proved to append the encoding, the reader to decode.
 */
module DependencyLoops {
  import opened Prelude
  import opened Codec
  import opened Sorting
  import opened Utf8
  import opened Dependencies

  // ---- writing ---------------------------------------------------------------

  class CanonicalWriter {
    var buf: Bytes

    constructor ()
      ensures buf == []
    {
      buf := [];
    }

    method Word(n: nat)
      modifies this
      ensures buf == old(buf) + BE(n, 4)
    {
      buf := buf + BE(n, 4);
    }

    method Text(b: Bytes)
      modifies this
      ensures buf == old(buf) + StrEnc(b)
    {
      Word(|b|);
      buf := buf + b;
    }

    method Measurements(ms: seq<DepMeasurement>)
      modifies this
      ensures buf == old(buf) + CountedBE(MeasurementEnc, ms)
    {
      hide BE, Canonical;
      Word(|ms|);
      ghost var head := buf;
      for i := 0 to |ms|
        invariant buf == head + EncodeAll(MeasurementEnc, ms[..i])
      {
        EncodeAllSnoc(MeasurementEnc, ms[..i], ms[i]);
        assert ms[..i + 1] == ms[..i] + [ms[i]];
        Text(Canonical(ms[i]));
      }
      assert ms[..|ms|] == ms;
    }

    method Oids(oids: seq<Oid>)
      modifies this
      ensures buf == old(buf) + CountedBE(OidEnc, oids)
    {
      hide BE;
      Word(|oids|);
      ghost var head := buf;
      for i := 0 to |oids|
        invariant buf == head + EncodeAll(OidEnc, oids[..i])
      {
        EncodeAllSnoc(OidEnc, oids[..i], oids[i]);
        assert oids[..i + 1] == oids[..i] + [oids[i]];
        Text(oids[i].0);
        Text(oids[i].1);
      }
      assert oids[..|oids|] == oids;
    }

    method WriteEntry(e: Entry)
      modifies this
      ensures buf == old(buf) + EntryEnc(e)
    {
      hide BE, EncodeAll, CanonicalLe;
      Text(e.appId);
      Measurements(e.measurements);
      Oids(e.oids);
      Text(Lower(e.folded));
    }

    method WriteEntries(entries: seq<Entry>)
      modifies this
      ensures buf == old(buf) + EncodeAll(EntryEnc, entries)
    {
      hide EntryEnc;
      ghost var head := buf;
      for i := 0 to |entries|
        invariant buf == head + EncodeAll(EntryEnc, entries[..i])
      {
        EncodeAllSnoc(EntryEnc, entries[..i], entries[i]);
        assert entries[..i + 1] == entries[..i] + [entries[i]];
        WriteEntry(entries[i]);
      }
      assert entries[..|entries|] == entries;
    }

    method WriteCanonical(set_: seq<Entry>)
      modifies this
      ensures buf == old(buf) + Encode(set_)
    {
      hide BE, EntryEnc, Normalised;
      var n := NormalisedCopy(set_);
      Word(|n|);
      WriteEntries(n);
    }
  }

  /** Each entry's lists are sorted in turn, then the entries. */
  method NormalisedCopy(set_: seq<Entry>) returns (out: seq<Entry>)
    ensures out == Normalised(set_)
  {
    out := set_;
    for i := 0 to |out|
      invariant |out| == |set_|
      invariant forall j :: 0 <= j < i ==> out[j] == NormaliseEntry(set_[j])
      invariant forall j :: i <= j < |out| ==> out[j] == set_[j]
    {
      out := out[i := out[i].(measurements := Sort(CanonicalLe, out[i].measurements))];
      out := out[i := out[i].(oids := Sort(PairLe, out[i].oids))];
    }
    assert out == Map(NormaliseEntry, set_);
    out := Sort(AppLe, out);
  }

  method EncodeSet(set_: seq<Entry>) returns (b: Bytes)
    ensures b == Encode(set_)
  {
    var w := new CanonicalWriter();
    w.WriteCanonical(set_);
    assert [] + Encode(set_) == Encode(set_);
    return w.buf;
  }

  // ---- reading ---------------------------------------------------------------

  /** A read that started at `was` and stands at `now` did what the decoder does on the suffix. */
  ghost predicate Moved<T(!new)>(dec: Bytes -> Parsed<T>, buf: Bytes, was: nat, now: nat, r: Option<T>)
    requires was <= |buf|
  {
    match r
    case None => dec(buf[was..]) == None
    case Some(x) => was <= now <= |buf| && dec(buf[was..]) == Some((x, buf[now..]))
  }

  lemma MapSnoc<S, T>(f: S -> T, s: seq<S>, x: S)
    ensures Map(f, s + [x]) == Map(f, s) + [f(x)]
  {
  }

  class CanonicalReader {
    const buf: Bytes
    var off: nat

    ghost predicate Valid() reads this {
      off <= |buf|
    }

    constructor (b: Bytes)
      ensures buf == b && off == 0
    {
      buf, off := b, 0;
    }

    method Word() returns (r: Option<nat>)
      requires Valid()
      modifies this
      ensures Valid() && Moved(WordDec, buf, old(off), off, r)
    {
      if off + 4 > |buf| { return None; }
      assert buf[off..][..4] == buf[off..off + 4] && buf[off..][4..] == buf[off + 4..];
      var n := FromBE(buf[off..off + 4]);
      off := off + 4;
      return Some(n);
    }

    method ReadBytes() returns (r: Option<Bytes>)
      requires Valid()
      modifies this
      ensures Valid() && Moved(BytesDecBE, buf, old(off), off, r)
    {
      var n := Word();
      if n == None { return None; }
      ghost var was := buf[old(off)..];
      assert |buf[off..]| == |was[4..]| && off == old(off) + 4 && n.value == FromBE(was[..4]);
      if off + n.value > |buf| { return None; }
      r := Some(buf[off..off + n.value]);
      assert was[4..4 + n.value] == buf[off..off + n.value] && was[4 + n.value..] == buf[off + n.value..];
      off := off + n.value;
    }

    method ReadText() returns (r: Option<Bytes>)
      requires Valid()
      modifies this
      ensures Valid() && Moved(TextDec, buf, old(off), off, r)
    {
      r := ReadBytes();
      if r.Some? && !Utf8.Valid(r.value) { r := None; }
    }

    method ReadOid() returns (r: Option<Oid>)
      requires Valid()
      modifies this
      ensures Valid() && Moved(OidDec, buf, old(off), off, r)
    {
      var oid := ReadText();
      if oid == None { return None; }
      var val := ReadBytes();
      if val == None { return None; }
      return Some((oid.value, val.value));
    }

    method ReadOids() returns (r: Option<seq<Oid>>)
      requires Valid()
      modifies this
      ensures Valid() && Moved(b => CountedDecBE(OidDec, b), buf, old(off), off, r)
    {
      var count := Word();
      if count == None { return None; }
      r := ReadOidItems(count.value);
    }

    method ReadOidItems(count: nat) returns (r: Option<seq<Oid>>)
      requires Valid()
      modifies this
      ensures Valid() && Moved(b => DecodeAll(OidDec, count, b), buf, old(off), off, r)
    {
      hide OidDec;
      ghost var all := DecodeAll(OidDec, count, buf[off..]);
      PrependNothing(all);
      var oids := [];
      for i := 0 to count
        invariant Valid() && old(off) <= off && all == Prepend(oids, DecodeAll(OidDec, count - i, buf[off..]))
      {
        PrependStep(OidDec, count - i, buf[off..], oids);
        var oid := ReadOid();
        if oid == None { return None; }
        oids := oids + [oid.value];
      }
      assert oids + [] == oids;
      return Some(oids);
    }

    /** Measurements are turned into registers as they are read; the texts are what stood on the wire. */
    method ReadMeasurements() returns (r: Option<seq<DepMeasurement>>, ghost texts: Option<seq<Bytes>>)
      requires Valid()
      modifies this
      ensures Valid() && Moved(b => CountedDecBE(TextDec, b), buf, old(off), off, texts)
      ensures r == if texts.Some? then Some(Map(FromCanonical, texts.value)) else None
    {
      var count := Word();
      if count == None { return None, None; }
      r, texts := ReadMeasurementItems(count.value);
    }

    method ReadMeasurementItems(count: nat) returns (r: Option<seq<DepMeasurement>>, ghost texts: Option<seq<Bytes>>)
      requires Valid()
      modifies this
      ensures Valid() && Moved(b => DecodeAll(TextDec, count, b), buf, old(off), off, texts)
      ensures r == if texts.Some? then Some(Map(FromCanonical, texts.value)) else None
    {
      hide TextDec, FromCanonical;
      ghost var all := DecodeAll(TextDec, count, buf[off..]);
      PrependNothing(all);
      var ms := [];
      ghost var found := [];
      for i := 0 to count
        invariant Valid() && old(off) <= off && all == Prepend(found, DecodeAll(TextDec, count - i, buf[off..]))
        invariant ms == Map(FromCanonical, found)
      {
        PrependStep(TextDec, count - i, buf[off..], found);
        var text := ReadText();
        if text == None { return None, None; }
        ms := ms + [FromCanonical(text.value)];
        found := found + [text.value];
      }
      assert found + [] == found;
      return Some(ms), Some(found);
    }

    method ReadEntry() returns (r: Option<Entry>, ghost raw: Option<RawEntry>)
      requires Valid()
      modifies this
      ensures Valid() && Moved(RawDec, buf, old(off), off, raw)
      ensures r == if raw.Some? then Some(OfRaw(raw.value)) else None
    {
      var appId := ReadText();
      if appId == None { return None, None; }
      var ms, texts := ReadMeasurements();
      if ms == None { return None, None; }
      var oids := ReadOids();
      if oids == None { return None, None; }
      var folded := ReadText();
      if folded == None { return None, None; }
      return Some(Entry(appId.value, ms.value, oids.value, folded.value)),
             Some(RawEntry(appId.value, texts.value, oids.value, folded.value));
    }

    method ReadEntryItems(count: nat) returns (r: Option<seq<Entry>>, ghost raws: Option<seq<RawEntry>>)
      requires Valid()
      modifies this
      ensures Valid() && Moved(b => DecodeAll(RawDec, count, b), buf, old(off), off, raws)
      ensures r == if raws.Some? then Some(Map(OfRaw, raws.value)) else None
    {
      hide RawDec, OfRaw;
      ghost var all := DecodeAll(RawDec, count, buf[off..]);
      PrependNothing(all);
      var entries := [];
      ghost var found := [];
      for i := 0 to count
        invariant Valid() && old(off) <= off && all == Prepend(found, DecodeAll(RawDec, count - i, buf[off..]))
        invariant entries == Map(OfRaw, found)
      {
        PrependStep(RawDec, count - i, buf[off..], found);
        var entry, raw := ReadEntry();
        if entry == None { return None, None; }
        MapSnoc(OfRaw, found, raw.value);
        entries := entries + [entry.value];
        found := found + [raw.value];
      }
      assert found + [] == found;
      return Some(entries), Some(found);
    }
  }

  method DecodeSet(bytes: Bytes) returns (r: Option<seq<Entry>>)
    ensures r == Decode(bytes)
  {
    var reader := new CanonicalReader(bytes);
    assert bytes[0..] == bytes;
    var count := reader.Word();
    if count == None { return None; }
    var entries, raws := reader.ReadEntryItems(count.value);
    if entries == None { return None; }
    if reader.off != |bytes| { return None; }
    return entries;
  }

  method CanonicalizeEncoded(bytes: Bytes) returns (r: Option<Bytes>)
    ensures r == Canonicalize(bytes)
  {
    var set_ := DecodeSet(bytes);
    if set_ == None { return None; }
    var out := EncodeSet(set_.value);
    return Some(out);
  }
}
