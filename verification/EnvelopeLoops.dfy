/** The envelope code as it runs: a cursor that advances over the buffer, a buffer that grows. */
module EnvelopeLoops {
  import opened Prelude
  import opened Utf8
  import opened Envelope

  class Reader {
    const buf: Bytes
    var p: nat

    ghost predicate Valid() reads this {
      p <= |buf|
    }

    constructor (b: Bytes, start: nat)
      requires start <= |b|
      ensures Valid() && buf == b && p == start
    {
      buf, p := b, start;
    }

    /** A big-endian word of the given width. */
    method TakeWord(width: nat) returns (r: Option<nat>)
      requires Valid()
      modifies this
      ensures Valid()
      ensures match Word(buf, old(p), width)
        case None => r == None
        case Some((v, q)) => r == Some(v) && p == q
    {
      if p + width > |buf| { return None; }
      r := Some(FromBE(buf[p..p + width]));
      p := p + width;
    }

    /** The head of a value of the given major type. */
    method TakeNumber(major: nat) returns (r: Option<nat>)
      requires Valid()
      modifies this
      ensures Valid()
      ensures match TakeHead(buf, old(p), major)
        case None => r == None
        case Some((v, q)) => r == Some(v) && p == q
    {
      if p >= |buf| { return None; }
      var head := buf[p];
      if head / 32 != major { return None; }
      var info := head % 32;
      p := p + 1;
      if info <= 23 { return Some(info); }
      if info > 27 { return None; }
      r := TakeWord(if info == 24 then 1 else if info == 25 then 2 else if info == 26 then 4 else 8);
    }

    method TakeKey() returns (r: Option<Bytes>)
      requires Valid()
      modifies this
      ensures Valid()
      ensures match TakeText(buf, old(p))
        case None => r == None
        case Some((k, q)) => r == Some(k) && p == q
    {
      if p >= |buf| { return None; }
      var head := buf[p];
      if head / 32 != TEXT { return None; }
      var len := head % 32;
      if len > 23 { return None; }
      p := p + 1;
      if p + len > |buf| { return None; }
      var k := buf[p..p + len];
      if !Utf8.Valid(k) { return None; }
      p := p + len;
      return Some(k);
    }

    method TakeByteString() returns (r: Outcome<Bytes>)
      requires Valid()
      modifies this
      ensures Valid()
      ensures match TakeBytes(buf, old(p))
        case Ok((b, q)) => r == Ok(b) && p == q
        case Refused => r == Refused
        case Aborted => r == Aborted
    {
      var len := TakeNumber(BYTES);
      if len == None { return Refused; }
      if p + len.value >= U64 { return Aborted; }
      if p + len.value > |buf| { return Refused; }
      r := Ok(buf[p..p + len.value]);
      p := p + len.value;
    }

    /** One key and its value. */
    method TakeEntry(acc: Acc) returns (r: Outcome<Acc>)
      requires Valid()
      modifies this
      ensures Valid()
      ensures match TakeField(buf, old(p), acc)
        case Ok((next, q)) => r == Ok(next) && p == q
        case Refused => r == Refused
        case Aborted => r == Aborted
    {
      var key := TakeKey();
      if key == None { return Refused; }
      if key.value == KEY_V {
        var v := TakeNumber(UINT);
        return if v == None then Refused else Ok(acc.(version := v));
      } else if key.value == KEY_CTR {
        var v := TakeNumber(UINT);
        return if v == None then Refused else Ok(acc.(ctr := v));
      } else if key.value == KEY_CT {
        var b := TakeByteString();
        match b {
          case Ok(x) => return Ok(acc.(ct := Some(x)));
          case Refused => return Refused;
          case Aborted => return Aborted;
        }
      } else {
        return Refused;
      }
    }
  }

  method DecodeEnvelope(buf: Bytes) returns (r: Outcome<(nat, Bytes)>)
    ensures r == Decode(buf)
  {
    hide TakeField;
    if |buf| < 1 || buf[0] != MAP_OF_THREE { return Refused; }
    var reader := new Reader(buf, 1);
    var acc := Acc(None, None, None);
    ghost var all := Fields(buf, 1, 3, acc);
    for i := 0 to 3
      invariant reader.Valid() && Fields(buf, reader.p, 3 - i, acc) == all
    {
      var next := reader.TakeEntry(acc);
      match next {
        case Ok(a) => acc := a;
        case Refused => return Refused;
        case Aborted => return Aborted;
      }
    }
    return Result(acc);
  }

  method WriteHead(out: Bytes, major: nat, v: nat) returns (r: Bytes)
    requires major < 8
    ensures r == out + Head(major, v)
  {
    if v <= 23 {
      r := out + [32 * major + v];
    } else if v <= 0xFF {
      r := out + ([32 * major + 24] + BE(v, 1));
    } else if v <= 0xFFFF {
      r := out + ([32 * major + 25] + BE(v, 2));
    } else if v <= 0xFFFF_FFFF {
      r := out + ([32 * major + 26] + BE(v, 4));
    } else {
      r := out + ([32 * major + 27] + BE(v, 8));
    }
  }

  lemma Opening()
    ensures [0xA3, 0x61, 118, 0x01, 0x63, 99, 116, 114] == [MAP_OF_THREE] + FieldEnc(Version(1)) + KeyEnc(KEY_CTR)
    ensures [0x62, 99, 116] == KeyEnc(KEY_CT)
  {
    assert FieldEnc(Version(1)) == [0x61, 118, 0x01];
    assert KeyEnc(KEY_CTR) == [0x63, 99, 116, 114];
  }

  lemma Assembled(a: Bytes, k1: Bytes, h1: Bytes, k2: Bytes, h2: Bytes, ct: Bytes)
    ensures a + k1 + h1 + k2 + h2 + ct == a + (k1 + h1) + (k2 + (h2 + ct))
  {
  }

  method EncodeEnvelope(ctr: nat, ct: Bytes) returns (out: Bytes)
    ensures out == Encode(ctr, ct)
  {
    Opening();
    out := [0xA3, 0x61, 118, 0x01, 0x63, 99, 116, 114];
    out := Append(out, [MAP_OF_THREE] + FieldEnc(Version(1)), KeyEnc(KEY_CTR), ctr, KeyEnc(KEY_CT), ct);
  }

  /** The two written values behind an opening. */
  method Append(out: Bytes, ghost a: Bytes, ghost k1: Bytes, ctr: nat, k2: Bytes, ct: Bytes) returns (r: Bytes)
    requires out == a + k1
    ensures r == a + (k1 + Head(UINT, ctr)) + (k2 + (Head(BYTES, |ct|) + ct))
  {
    r := WriteHead(out, UINT, ctr);
    r := r + k2;
    r := WriteHead(r, BYTES, |ct|);
    r := r + ct;
    Assembled(a, k1, Head(UINT, ctr), k2, Head(BYTES, |ct|), ct);
  }
}
