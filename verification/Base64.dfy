/**
 Base64 text: the encoder writes the URL-safe alphabet of section 5 of RFC 4648 without
 padding; the decoder takes either alphabet and skips padding and line breaks.
 */
module Base64 {
  import opened Prelude

  type Text = seq<char>

  // ---- encoding ----------------------------------------------------------------

  /** The alphabet: upper case, lower case, digits, hyphen, underscore. */
  function Letter(n: nat): char
    requires n < 64
  {
    if n < 26 then ('A' as int + n) as char
    else if n < 52 then ('a' as int + n - 26) as char
    else if n < 62 then ('0' as int + n - 52) as char
    else if n == 62 then '-' else '_'
  }

  /** The bits of a 24-bit group from position `shift`, six at a time. */
  function Sextet(n: nat, shift: nat): (r: nat)
    requires shift > 0
    ensures r < 64
  {
    n / shift % 64
  }

  function Group(a: Byte, b: Byte, c: Byte): nat {
    a * 65536 + b * 256 + c
  }

  function Encode(x: Bytes): Text {
    if |x| == 0 then []
    else if |x| == 1 then
      var n := Group(x[0], 0, 0);
      [Letter(Sextet(n, 262144)), Letter(Sextet(n, 4096))]
    else if |x| == 2 then
      var n := Group(x[0], x[1], 0);
      [Letter(Sextet(n, 262144)), Letter(Sextet(n, 4096)), Letter(Sextet(n, 64))]
    else
      var n := Group(x[0], x[1], x[2]);
      [Letter(Sextet(n, 262144)), Letter(Sextet(n, 4096)), Letter(Sextet(n, 64)), Letter(Sextet(n, 1))] + Encode(x[3..])
  }

  // ---- decoding ------------------------------------------------------------------

  datatype Sign = Digit(n: nat) | Skip | Bad

  function Read(c: char): (r: Sign)
    ensures r.Digit? ==> r.n < 64
  {
    if 'A' <= c <= 'Z' then Digit(c as int - 'A' as int)
    else if 'a' <= c <= 'z' then Digit(c as int - 'a' as int + 26)
    else if '0' <= c <= '9' then Digit(c as int - '0' as int + 52)
    else if c == '+' || c == '-' then Digit(62)
    else if c == '/' || c == '_' then Digit(63)
    else if c == '=' || c == '\r' || c == '\n' || c == ' ' || c == '\t' then Skip
    else Bad
  }

  function Digits(s: Text): (r: Option<seq<nat>>)
    ensures r.Some? ==> forall i :: 0 <= i < |r.value| ==> r.value[i] < 64
  {
    if s == [] then Some([])
    else match (Read(s[0]), Digits(s[1..]))
      case (Digit(n), Some(ds)) => Some([n] + ds)
      case (Skip, Some(ds)) => Some(ds)
      case _ => None
  }

  function Byte0(a: nat, b: nat): Byte requires a < 64 && b < 64 { a * 4 + b / 16 }

  function Byte1(b: nat, c: nat): Byte requires b < 64 && c < 64 { b % 16 * 16 + c / 4 }

  function Byte2(c: nat, d: nat): Byte requires c < 64 && d < 64 { c % 4 * 64 + d }

  function Pack(d: seq<nat>): Option<Bytes>
    requires forall i :: 0 <= i < |d| ==> d[i] < 64
  {
    if |d| == 0 then Some([])
    else if |d| == 1 then None
    else if |d| == 2 then Some([Byte0(d[0], d[1])])
    else if |d| == 3 then Some([Byte0(d[0], d[1]), Byte1(d[1], d[2])])
    else match Pack(d[4..])
      case None => None
      case Some(rest) => Some([Byte0(d[0], d[1]), Byte1(d[1], d[2]), Byte2(d[2], d[3])] + rest)
  }

  /** The white space that is trimmed off both ends. */
  predicate White(c: char) {
    var n := c as int;
    9 <= n <= 13 || n == 32 || n == 0x85 || n == 0xA0 || n == 0x1680 || 0x2000 <= n <= 0x200A
    || n == 0x2028 || n == 0x2029 || n == 0x202F || n == 0x205F || n == 0x3000
  }

  function TrimLeft(s: Text): Text {
    if s != [] && White(s[0]) then TrimLeft(s[1..]) else s
  }

  function TrimRight(s: Text): Text {
    if s != [] && White(s[|s| - 1]) then TrimRight(s[..|s| - 1]) else s
  }

  function Decode(s: Text): Option<Bytes> {
    match Digits(TrimRight(TrimLeft(s)))
    case None => None
    case Some(d) => Pack(d)
  }

  // ---- decoding an encoding --------------------------------------------------------

  /** The six-bit digits of a byte string. */
  function Split(x: Bytes): (d: seq<nat>)
    ensures forall i :: 0 <= i < |d| ==> d[i] < 64
  {
    if |x| == 0 then []
    else if |x| == 1 then [x[0] / 4, x[0] % 4 * 16]
    else if |x| == 2 then [x[0] / 4, x[0] % 4 * 16 + x[1] / 16, x[1] % 16 * 4]
    else [x[0] / 4, x[0] % 4 * 16 + x[1] / 16, x[1] % 16 * 4 + x[2] / 64, x[2] % 64] + Split(x[3..])
  }

  lemma GroupDigits(a: Byte, b: Byte, c: Byte)
    ensures var n := Group(a, b, c);
      && Sextet(n, 262144) == a / 4
      && Sextet(n, 4096) == a % 4 * 16 + b / 16
      && Sextet(n, 64) == b % 16 * 4 + c / 64
      && Sextet(n, 1) == c % 64
  {
    var n := Group(a, b, c);
    DivModUnique(n, 262144, a / 4, a % 4 * 65536 + b * 256 + c);
    DivModUnique(n, 4096, 16 * a + b / 16, b % 16 * 256 + c);
    DivModUnique(16 * a + b / 16, 64, a / 4, a % 4 * 16 + b / 16);
    DivModUnique(n, 64, 1024 * a + 4 * b + c / 64, c % 64);
    DivModUnique(1024 * a + 4 * b + c / 64, 64, 16 * a + b / 16, b % 16 * 4 + c / 64);
  }

  lemma ReadLetter(n: nat)
    requires n < 64
    ensures Read(Letter(n)) == Digit(n)
  {
  }

  lemma GroupBytes(a: Byte, b: Byte, c: Byte)
    ensures Byte0(a / 4, a % 4 * 16 + b / 16) == a
    ensures Byte1(a % 4 * 16 + b / 16, b % 16 * 4 + c / 64) == b
    ensures Byte2(b % 16 * 4 + c / 64, c % 64) == c
  {
    DivModUnique(a % 4 * 16 + b / 16, 16, a % 4, b / 16);
    DivModUnique(b % 16 * 4 + c / 64, 4, b % 16, c / 64);
  }

  /** A text whose every character reads as the corresponding digit. */
  predicate Reads(s: Text, d: seq<nat>) {
    |s| == |d| && forall i :: 0 <= i < |s| ==> Read(s[i]) == Digit(d[i])
  }

  lemma {:induction false} EncodeReads(x: Bytes)
    ensures Reads(Encode(x), Split(x))
  {
    hide Read, Group, Sextet, Letter;
    if |x| == 1 {
      GroupDigits(x[0], 0, 0);
      FourRead(x[0], 0, 0);
    } else if |x| == 2 {
      GroupDigits(x[0], x[1], 0);
      FourRead(x[0], x[1], 0);
    } else if |x| > 2 {
      GroupDigits(x[0], x[1], x[2]);
      FourRead(x[0], x[1], x[2]);
      EncodeReads(x[3..]);
      ReadsConcat([Letter(x[0] / 4), Letter(x[0] % 4 * 16 + x[1] / 16), Letter(x[1] % 16 * 4 + x[2] / 64),
        Letter(x[2] % 64)],
                  [x[0] / 4, x[0] % 4 * 16 + x[1] / 16, x[1] % 16 * 4 + x[2] / 64, x[2] % 64],
                  Encode(x[3..]), Split(x[3..]));
    }
  }

  lemma FourRead(a: Byte, b: Byte, c: Byte)
    ensures Read(Letter(a / 4)) == Digit(a / 4)
    ensures Read(Letter(a % 4 * 16 + b / 16)) == Digit(a % 4 * 16 + b / 16)
    ensures Read(Letter(b % 16 * 4 + c / 64)) == Digit(b % 16 * 4 + c / 64)
    ensures Read(Letter(c % 64)) == Digit(c % 64)
  {
    ReadLetter(a / 4);
    ReadLetter(a % 4 * 16 + b / 16);
    ReadLetter(b % 16 * 4 + c / 64);
    ReadLetter(c % 64);
  }

  lemma ReadsConcat(s: Text, d: seq<nat>, t: Text, e: seq<nat>)
    requires Reads(s, d) && Reads(t, e)
    ensures Reads(s + t, d + e)
  {
  }

  lemma {:induction false} PackSplit(x: Bytes)
    ensures Pack(Split(x)) == Some(x)
  {
    hide Byte0, Byte1, Byte2;
    if |x| == 1 {
      GroupBytes(x[0], 0, 0);
      assert x == [x[0]];
    } else if |x| == 2 {
      GroupBytes(x[0], x[1], 0);
      assert x == [x[0], x[1]];
    } else if |x| > 2 {
      GroupBytes(x[0], x[1], x[2]);
      PackSplit(x[3..]);
      assert Split(x)[4..] == Split(x[3..]);
      assert x == [x[0], x[1], x[2]] + x[3..];
    }
  }

  lemma {:induction false} DigitsOf(s: Text, d: seq<nat>, pad: Text)
    requires Reads(s, d) && forall i :: 0 <= i < |pad| ==> Read(pad[i]).Skip?
    ensures Digits(s + pad) == Some(d)
  {
    if s != [] {
      assert (s + pad)[1..] == s[1..] + pad;
      DigitsOf(s[1..], d[1..], pad);
      assert d == [d[0]] + d[1..];
    } else {
      SkipsOnly(pad);
      assert s + pad == pad;
    }
  }

  lemma {:induction false} SkipsOnly(pad: Text)
    requires forall i :: 0 <= i < |pad| ==> Read(pad[i]).Skip?
    ensures Digits(pad) == Some([])
  {
    if pad != [] { SkipsOnly(pad[1..]); }
  }

  /** A text in either alphabet that reads as the digits of `x`, padded or not, decodes to `x`. */
  lemma DecodeReads(x: Bytes, s: Text, padding: nat)
    requires Reads(s, Split(x))
    ensures Decode(s + seq(padding, _ => '=')) == Some(x)
  {
    var pad := seq(padding, _ => '=');
    var t := s + pad;
    if t != [] {
      assert !White(t[0]) && !White(t[|t| - 1]);
    }
    assert TrimLeft(t) == t && TrimRight(t) == t;
    DigitsOf(s, Split(x), pad);
    PackSplit(x);
  }

  /** Decoding the URL-safe text gives the bytes back. */
  lemma DecodeOfEncode(x: Bytes)
    ensures Decode(Encode(x)) == Some(x)
  {
    EncodeReads(x);
    DecodeReads(x, Encode(x), 0);
    assert Encode(x) + seq(0, _ => '=') == Encode(x);
  }

  function StandardLetter(c: char): char {
    if c == '-' then '+' else if c == '_' then '/' else c
  }

  function Standard(s: Text): (r: Text)
    ensures |r| == |s| && forall i :: 0 <= i < |s| ==> r[i] == StandardLetter(s[i])
  {
    seq(|s|, i requires 0 <= i < |s| => StandardLetter(s[i]))
  }

  /** So does decoding the standard alphabet, with any amount of padding. */
  lemma DecodeOfStandard(x: Bytes, padding: nat)
    ensures Decode(Standard(Encode(x)) + seq(padding, _ => '=')) == Some(x)
  {
    EncodeReads(x);
    DecodeReads(x, Standard(Encode(x)), padding);
  }

  // ---- every accepted text -------------------------------------------------------------

  /** The digits with the unused low bits of a short last group cleared. */
  function Cleared(d: seq<nat>): seq<nat> {
    if |d| == 2 then [d[0], d[1] / 16 * 16]
    else if |d| == 3 then [d[0], d[1], d[2] / 4 * 4]
    else if |d| < 4 then d
    else d[..4] + Cleared(d[4..])
  }

  lemma DigitsBack(a: nat, b: nat, c: nat, e: nat)
    requires a < 64 && b < 64 && c < 64 && e < 64
    ensures var (x, y, z) := (Byte0(a, b), Byte1(b, c), Byte2(c, e));
      && x / 4 == a && x % 4 * 16 + y / 16 == b && y % 16 * 4 + z / 64 == c && z % 64 == e
      && x % 4 * 16 == b / 16 * 16 && y % 16 * 4 == c / 4 * 4
  {
    DivModUnique(Byte0(a, b), 4, a, b / 16);
    DivModUnique(Byte1(b, c), 16, b % 16, c / 4);
    DivModUnique(Byte2(c, e), 64, c % 4, e);
  }

  lemma {:induction false} PackCleared(d: seq<nat>)
    requires forall i :: 0 <= i < |d| ==> d[i] < 64
    ensures |d| % 4 == 1 <==> Pack(d).None?
    ensures Pack(d).Some? ==> Split(Pack(d).value) == Cleared(d)
  {
    hide Byte0, Byte1, Byte2;
    if |d| == 2 {
      DigitsBack(d[0], d[1], 0, 0);
    } else if |d| == 3 {
      DigitsBack(d[0], d[1], d[2], 0);
    } else if |d| >= 4 {
      PackCleared(d[4..]);
      GroupCleared(d);
    }
  }

  lemma GroupCleared(d: seq<nat>)
    requires |d| >= 4 && forall i :: 0 <= i < |d| ==> d[i] < 64
    requires |d[4..]| % 4 == 1 <==> Pack(d[4..]).None?
    requires Pack(d[4..]).Some? ==> Split(Pack(d[4..]).value) == Cleared(d[4..])
    ensures |d| % 4 == 1 <==> Pack(d).None?
    ensures Pack(d).Some? ==> Split(Pack(d).value) == Cleared(d)
  {
    hide Split, Cleared, Pack;
    PackStep(d);
    ClearedStep(d);
    assert d[..4] == [d[0], d[1], d[2], d[3]];
    if Pack(d[4..]).Some? { SplitGroup(d[0], d[1], d[2], d[3], Pack(d[4..]).value); }
    assert |d| % 4 == |d[4..]| % 4;
  }

  lemma PackStep(d: seq<nat>)
    requires |d| >= 4 && forall i :: 0 <= i < |d| ==> d[i] < 64
    ensures Pack(d) == match Pack(d[4..])
      case None => None
      case Some(rest) => Some([Byte0(d[0], d[1]), Byte1(d[1], d[2]), Byte2(d[2], d[3])] + rest)
  {
    hide Byte0, Byte1, Byte2;
  }

  lemma ClearedStep(d: seq<nat>)
    requires |d| >= 4
    ensures Cleared(d) == d[..4] + Cleared(d[4..])
  {
  }

  lemma SplitGroup(a: nat, b: nat, c: nat, e: nat, rest: Bytes)
    requires a < 64 && b < 64 && c < 64 && e < 64
    ensures Split([Byte0(a, b), Byte1(b, c), Byte2(c, e)] + rest) == [a, b, c, e] + Split(rest)
  {
    hide Byte0, Byte1, Byte2;
    DigitsBack(a, b, c, e);
    assert ([Byte0(a, b), Byte1(b, c), Byte2(c, e)] + rest)[3..] == rest;
  }

  /**
   A text decodes to `x` exactly when all its characters are known, its digits do not leave
   one over, and they are the digits of `x` but for the unused bits of the last.
   */
  lemma DecodesExactly(s: Text, x: Bytes)
    ensures var d := Digits(TrimRight(TrimLeft(s)));
      Decode(s) == Some(x) <==> d.Some? && |d.value| % 4 != 1 && Cleared(d.value) == Split(x)
  {
    hide Pack, Split, Cleared, Digits;
    var d := Digits(TrimRight(TrimLeft(s)));
    if d.Some? {
      PackCleared(d.value);
      PackSplit(x);
      if Pack(d.value).Some? { PackSplit(Pack(d.value).value); }
    }
  }

  // ---- the loops -----------------------------------------------------------------------

  method EncodeUrl(bytes: Bytes) returns (out: Text)
    ensures out == Encode(bytes)
  {
    out := [];
    var i := 0;
    while i + 3 <= |bytes|
      invariant 0 <= i <= |bytes| && out + Encode(bytes[i..]) == Encode(bytes)
    {
      var n := Group(bytes[i], bytes[i + 1], bytes[i + 2]);
      assert bytes[i..][3..] == bytes[i + 3..];
      out := out + [Letter(Sextet(n, 262144)), Letter(Sextet(n, 4096)), Letter(Sextet(n, 64)), Letter(Sextet(n, 1))];
      i := i + 3;
    }
    var rem := bytes[i..];
    if |rem| == 1 {
      var n := Group(rem[0], 0, 0);
      out := out + [Letter(Sextet(n, 262144)), Letter(Sextet(n, 4096))];
    } else if |rem| == 2 {
      var n := Group(rem[0], rem[1], 0);
      out := out + [Letter(Sextet(n, 262144)), Letter(Sextet(n, 4096)), Letter(Sextet(n, 64))];
    }
  }

  /** What a loop has collected, followed by what the rest gives. */
  function After<T>(done: seq<T>, rest: Option<seq<T>>): Option<seq<T>> {
    match rest case None => None case Some(r) => Some(done + r)
  }

  lemma AfterNothing<T>(rest: Option<seq<T>>)
    ensures After([], rest) == rest
  {
    if rest.Some? { assert [] + rest.value == rest.value; }
  }

  lemma AfterStep<T>(done: seq<T>, more: seq<T>, rest: Option<seq<T>>)
    ensures After(done, After(more, rest)) == After(done + more, rest)
  {
    if rest.Some? { assert done + (more + rest.value) == done + more + rest.value; }
  }

  method ReadDigits(s: Text) returns (r: Option<seq<nat>>)
    ensures r == Digits(s)
  {
    var buf := [];
    AfterNothing(Digits(s));
    assert s[0..] == s;
    for i := 0 to |s|
      invariant Digits(s) == After(buf, Digits(s[i..]))
    {
      assert s[i..][1..] == s[i + 1..];
      match Read(s[i]) {
        case Digit(n) =>
          AfterStep(buf, [n], Digits(s[i + 1..]));
          buf := buf + [n];
        case Skip =>
        case Bad => return None;
      }
    }
    assert buf + [] == buf;
    return Some(buf);
  }

  method PackDigits(d: seq<nat>) returns (r: Option<Bytes>)
    requires forall i :: 0 <= i < |d| ==> d[i] < 64
    ensures r == Pack(d)
  {
    var out: Bytes := [];
    var i := 0;
    AfterNothing(Pack(d));
    assert d[0..] == d;
    while i + 4 <= |d|
      invariant 0 <= i <= |d| && Pack(d) == After(out, Pack(d[i..]))
    {
      assert d[i..][4..] == d[i + 4..];
      var three: Bytes := [Byte0(d[i], d[i + 1]), Byte1(d[i + 1], d[i + 2]), Byte2(d[i + 2], d[i + 3])];
      AfterStep(out, three, Pack(d[i + 4..]));
      out := out + three;
      i := i + 4;
    }
    var rem := |d| - i;
    assert |d[i..]| == rem && out + [] == out;
    if rem == 2 {
      out := out + [Byte0(d[i], d[i + 1])];
    } else if rem == 3 {
      out := out + [Byte0(d[i], d[i + 1]), Byte1(d[i + 1], d[i + 2])];
    } else if rem != 0 {
      return None;
    }
    return Some(out);
  }

  method DecodeText(s: Text) returns (r: Option<Bytes>)
    ensures r == Decode(s)
  {
    var d := ReadDigits(TrimRight(TrimLeft(s)));
    if d == None { return None; }
    r := PackDigits(d.value);
  }

  // ---- the alphabets, letter by letter ------------------------------------------------

  const URL_ALPHABET: Text :=
    "ABCDEFGH" + "IJKLMNOP" + "QRSTUVWX" + "YZabcdef" + "ghijklmn" + "opqrstuv" + "wxyz0123" + "456789-_"
  const STANDARD_ALPHABET: Text :=
    "ABCDEFGH" + "IJKLMNOP" + "QRSTUVWX" + "YZabcdef" + "ghijklmn" + "opqrstuv" + "wxyz0123" + "456789+/"

  lemma LowLetters(n: nat)
    requires n < 32
    ensures |URL_ALPHABET| == 64 && Letter(n) == URL_ALPHABET[n]
  {
    if n < 4 {
      assert URL_ALPHABET[0] == 'A' && URL_ALPHABET[1] == 'B' && URL_ALPHABET[2] == 'C' && URL_ALPHABET[3] == 'D';
    } else if n < 8 {
      assert URL_ALPHABET[4] == 'E' && URL_ALPHABET[5] == 'F' && URL_ALPHABET[6] == 'G' && URL_ALPHABET[7] == 'H';
    } else if n < 12 {
      assert URL_ALPHABET[8] == 'I' && URL_ALPHABET[9] == 'J' && URL_ALPHABET[10] == 'K' && URL_ALPHABET[11] == 'L';
    } else if n < 16 {
      assert URL_ALPHABET[12] == 'M' && URL_ALPHABET[13] == 'N' && URL_ALPHABET[14] == 'O' && URL_ALPHABET[15] == 'P';
    } else if n < 20 {
      assert URL_ALPHABET[16] == 'Q' && URL_ALPHABET[17] == 'R' && URL_ALPHABET[18] == 'S' && URL_ALPHABET[19] == 'T';
    } else if n < 24 {
      assert URL_ALPHABET[20] == 'U' && URL_ALPHABET[21] == 'V' && URL_ALPHABET[22] == 'W' && URL_ALPHABET[23] == 'X';
    } else if n < 28 {
      assert URL_ALPHABET[24] == 'Y' && URL_ALPHABET[25] == 'Z' && URL_ALPHABET[26] == 'a' && URL_ALPHABET[27] == 'b';
    } else {
      assert URL_ALPHABET[28] == 'c' && URL_ALPHABET[29] == 'd' && URL_ALPHABET[30] == 'e' && URL_ALPHABET[31] == 'f';
    }
  }

  lemma HighLetters(n: nat)
    requires 32 <= n < 64
    ensures |URL_ALPHABET| == 64 && Letter(n) == URL_ALPHABET[n]
  {
    if n < 36 {
      assert URL_ALPHABET[32] == 'g' && URL_ALPHABET[33] == 'h' && URL_ALPHABET[34] == 'i' && URL_ALPHABET[35] == 'j';
    } else if n < 40 {
      assert URL_ALPHABET[36] == 'k' && URL_ALPHABET[37] == 'l' && URL_ALPHABET[38] == 'm' && URL_ALPHABET[39] == 'n';
    } else if n < 44 {
      assert URL_ALPHABET[40] == 'o' && URL_ALPHABET[41] == 'p' && URL_ALPHABET[42] == 'q' && URL_ALPHABET[43] == 'r';
    } else if n < 48 {
      assert URL_ALPHABET[44] == 's' && URL_ALPHABET[45] == 't' && URL_ALPHABET[46] == 'u' && URL_ALPHABET[47] == 'v';
    } else if n < 52 {
      assert URL_ALPHABET[48] == 'w' && URL_ALPHABET[49] == 'x' && URL_ALPHABET[50] == 'y' && URL_ALPHABET[51] == 'z';
    } else if n < 56 {
      assert URL_ALPHABET[52] == '0' && URL_ALPHABET[53] == '1' && URL_ALPHABET[54] == '2' && URL_ALPHABET[55] == '3';
    } else if n < 60 {
      assert URL_ALPHABET[56] == '4' && URL_ALPHABET[57] == '5' && URL_ALPHABET[58] == '6' && URL_ALPHABET[59] == '7';
    } else {
      assert URL_ALPHABET[60] == '8' && URL_ALPHABET[61] == '9' && URL_ALPHABET[62] == '-' && URL_ALPHABET[63] == '_';
    }
  }

  /** The letter of a digit is the one at its place in the URL-safe alphabet. */
  lemma LetterTable(n: nat)
    requires n < 64
    ensures |URL_ALPHABET| == 64 && Letter(n) == URL_ALPHABET[n]
  {
    hide Letter;
    if n < 32 { LowLetters(n); } else { HighLetters(n); }
  }

  /** A character is read as the digit of its place in either alphabet. */
  lemma ReadTable(c: char, n: nat)
    requires n < 64
    ensures |URL_ALPHABET| == |STANDARD_ALPHABET| == 64
    ensures Read(c) == Digit(n) <==> c == URL_ALPHABET[n] || c == STANDARD_ALPHABET[n]
  {
    LetterTable(n);
    assert n < 62 ==> STANDARD_ALPHABET[n] == URL_ALPHABET[n];
  }

  /** Padding and line breaks are skipped, and nothing else is. */
  lemma SkipTable(c: char)
    ensures Read(c) == Skip <==> c in "=\r\n \t"
  {
  }

  lemma LetterIsUrlSafe(n: nat)
    requires n < 64
    ensures Letter(n) in URL_ALPHABET && Letter(n) != '+' && Letter(n) != '/' && Letter(n) != '='
  {
    LetterTable(n);
  }

  /** The text of a byte string is in the URL-safe alphabet throughout: no plus, no slash, no padding. */
  lemma {:induction false} EncodeIsUrlSafe(x: Bytes)
    ensures forall c :: c in Encode(x) ==> c in URL_ALPHABET && c != '+' && c != '/' && c != '='
  {
    forall n: nat | n < 64
      ensures Letter(n) in URL_ALPHABET && Letter(n) != '+' && Letter(n) != '/' && Letter(n) != '='
    {
      LetterIsUrlSafe(n);
    }
    hide Letter, Sextet;
    if |x| >= 3 { EncodeIsUrlSafe(x[3..]); }
  }

  /** Three bytes are four letters; one left over is two and two are three, with no padding. */
  lemma {:induction false} EncodeLength(x: Bytes)
    ensures |Encode(x)| == |x| / 3 * 4 + (if |x| % 3 == 0 then 0 else |x| % 3 + 1)
  {
    if |x| >= 3 { EncodeLength(x[3..]); }
  }

  /** The first bytes of the vectors in section 10 of RFC 4648, and one that uses both special letters. */
  lemma EncodeVectors()
    ensures Encode([102]) == "Zg" && Encode([102, 111]) == "Zm8" && Encode([102, 111, 111]) == "Zm9v"
    ensures Encode([251, 255]) == "-_8"
  {
    hide Sextet, Group;
    GroupDigits(102, 0, 0);
    GroupDigits(102, 111, 0);
    GroupDigits(102, 111, 111);
    GroupDigits(251, 255, 0);
    assert [102, 111, 111][3..] == [];
    assert Encode([]) == [];
  }

  /** White space around a text changes nothing. */
  lemma {:induction false} TrimmedFront(s: Text, c: char)
    requires White(c)
    ensures Decode([c] + s) == Decode(s)
  {
    assert ([c] + s)[1..] == s;
  }

  lemma {:induction false} WhiteRight(s: Text, c: char)
    requires White(c)
    ensures TrimRight(s + [c]) == TrimRight(s)
  {
    assert (s + [c])[..|s|] == s;
  }

  lemma {:induction false} TrimmedBack(s: Text, c: char)
    requires White(c)
    ensures TrimRight(TrimLeft(s + [c])) == TrimRight(TrimLeft(s))
  {
    if s == [] {
      assert s + [c] == [c] && [c][1..] == [];
    } else if White(s[0]) {
      assert (s + [c])[1..] == s[1..] + [c];
      TrimmedBack(s[1..], c);
    } else {
      WhiteRight(s, c);
    }
  }

  /** White space before and behind a text is not read. */
  lemma WhiteAround(s: Text, a: char, b: char)
    requires White(a) && White(b)
    ensures Decode([a] + s) == Decode(s) == Decode(s + [b])
  {
    TrimmedFront(s, a);
    TrimmedBack(s, b);
  }

  /** The white space that is trimmed, code point by code point. */
  lemma WhiteTable(c: char)
    ensures White(c) <==> c as int in {
      9, 10, 11, 12, 13, 32, 0x85, 0xA0, 0x1680, 0x2000, 0x2001, 0x2002, 0x2003, 0x2004, 0x2005, 0x2006, 0x2007,
      0x2008, 0x2009, 0x200A, 0x2028, 0x2029, 0x202F, 0x205F, 0x3000}
  {
  }
}
