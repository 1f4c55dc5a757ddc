/**
 Bytes, machine words and fixed-width integers, shared by every component.
 */
module Prelude {
  type Byte = n: int | 0 <= n < 256
  type Bytes = seq<Byte>

  const U16: nat := 0x1_0000
  const U32: nat := 0x1_0000_0000
  const U64: nat := 0x1_0000_0000_0000_0000

  /** The largest `usize`. */
  const USIZE_MAX: nat := U64 - 1

  const COLON: Byte := 58

  datatype Option<+T> = None | Some(value: T)

  function Min(a: nat, b: nat): nat {
    if a < b then a else b
  }

  /** `saturating_add` on 64-bit words. */
  function Saturating(a: nat, b: nat): nat {
    Min(a + b, USIZE_MAX)
  }

  /** A sequence without the element at one index. */
  function Without<T>(s: seq<T>, i: nat): (r: seq<T>)
    requires i < |s|
    ensures |r| == |s| - 1
  {
    s[..i] + s[i + 1..]
  }

  // ---- powers of 256 -------------------------------------------------------

  function Pow256(width: nat): (p: nat)
    ensures p > 0
  {
    if width == 0 then 1 else 256 * Pow256(width - 1)
  }

  lemma WordSizes()
    ensures Pow256(1) == 256 && Pow256(2) == U16 && Pow256(4) == U32 && Pow256(8) == U64
  {
    assert Pow256(2) == 256 * Pow256(1);
    assert Pow256(3) == 256 * Pow256(2);
    assert Pow256(4) == 256 * Pow256(3);
    assert Pow256(5) == 256 * Pow256(4);
    assert Pow256(6) == 256 * Pow256(5);
    assert Pow256(7) == 256 * Pow256(6);
    assert Pow256(8) == 256 * Pow256(7);
  }

  // ---- little-endian words (`to_le_bytes` of the low `width` bytes) --------

  function LE(n: nat, width: nat): (s: Bytes)
    ensures |s| == width
  {
    if width == 0 then [] else [n % 256] + LE(n / 256, width - 1)
  }

  function FromLE(s: Bytes): nat {
    if s == [] then 0 else s[0] + 256 * FromLE(s[1..])
  }

  lemma {:induction false} FromLERange(s: Bytes)
    ensures FromLE(s) < Pow256(|s|)
  {
    if s != [] {
      FromLERange(s[1..]);
    }
  }

  /** A word is its low part plus its high part shifted up. */
  lemma {:induction false} FromLEConcat(s: Bytes, t: Bytes)
    ensures FromLE(s + t) == FromLE(s) + Pow256(|s|) * FromLE(t)
  {
    if s == [] {
      assert s + t == t;
    } else {
      FromLEConcat(s[1..], t);
      assert (s + t)[1..] == s[1..] + t;
      MulAssoc(256, Pow256(|s| - 1), FromLE(t));
    }
  }

  lemma {:induction false} LERoundTrip(n: nat, width: nat)
    requires n < Pow256(width)
    ensures FromLE(LE(n, width)) == n
  {
    if width > 0 {
      LERoundTrip(n / 256, width - 1);
      assert LE(n, width)[1..] == LE(n / 256, width - 1);
    }
  }

  lemma {:induction false} LEOfFromLE(s: Bytes)
    ensures LE(FromLE(s), |s|) == s
  {
    if s != [] {
      LEOfFromLE(s[1..]);
      assert FromLE(s) % 256 == s[0] && FromLE(s) / 256 == FromLE(s[1..]);
    }
  }

  // ---- big-endian words ----------------------------------------------------

  function BE(n: nat, width: nat): (s: Bytes)
    ensures |s| == width
  {
    if width == 0 then [] else BE(n / 256, width - 1) + [n % 256]
  }

  function FromBE(s: Bytes): nat {
    if s == [] then 0 else 256 * FromBE(s[..|s| - 1]) + s[|s| - 1]
  }

  lemma {:induction false} FromBERange(s: Bytes)
    ensures FromBE(s) < Pow256(|s|)
  {
    if s != [] {
      FromBERange(s[..|s| - 1]);
    }
  }

  lemma {:induction false} BERoundTrip(n: nat, width: nat)
    requires n < Pow256(width)
    ensures FromBE(BE(n, width)) == n
  {
    if width > 0 {
      BERoundTrip(n / 256, width - 1);
      assert BE(n, width)[..width - 1] == BE(n / 256, width - 1);
    }
  }

  lemma {:induction false} BEOfFromBE(s: Bytes)
    ensures BE(FromBE(s), |s|) == s
  {
    if s != [] {
      BEOfFromBE(s[..|s| - 1]);
      assert FromBE(s) % 256 == s[|s| - 1] && FromBE(s) / 256 == FromBE(s[..|s| - 1]);
    }
  }

  // ---- which byte stands where -----------------------------------------------

  lemma DivTwice(n: nat, a: nat, b: nat)
    requires a > 0 && b > 0
    ensures a * b > 0 && n / a / b == n / (a * b)
  {
    var q := n / a / b;
    var r := n - q * (a * b);
    assert n == n / a * a + n % a && n / a == q * b + n / a % b;
    assert n / a * a == (q * b) * a + n / a % b * a by {
      assert (q * b + n / a % b) * a == (q * b) * a + n / a % b * a;
    }
    assert (q * b) * a == q * (a * b) by { MulAssoc(q, b, a); assert b * a == a * b; }
    assert r == n / a % b * a + n % a;
    assert n / a % b * a <= (b - 1) * a by { MulUpTo(n / a % b, b - 1, a); }
    assert (b - 1) * a + a == a * b;
    assert n / a % b * a >= 0 by { MulUpTo(0, n / a % b, a); }
    DivModUnique(n, a * b, q, r);
  }

  lemma {:induction false} MulUpTo(x: nat, y: nat, a: nat)
    requires x <= y
    ensures x * a <= y * a
    decreases y - x
  {
    if x < y {
      MulUpTo(x, y - 1, a);
      assert y * a == (y - 1) * a + a;
    }
  }

  /** Little-endian: byte `i` is the `i`-th digit to base 256 from the low end. */
  lemma {:induction false} LEByte(n: nat, width: nat, i: nat)
    requires i < width
    ensures LE(n, width)[i] == n / Pow256(i) % 256
  {
    if i > 0 {
      LEByte(n / 256, width - 1, i - 1);
      DivTwice(n, 256, Pow256(i - 1));
    }
  }

  /** Big-endian: the same digits from the high end. */
  lemma {:induction false} BEByte(n: nat, width: nat, i: nat)
    requires i < width
    ensures BE(n, width)[width - 1 - i] == n / Pow256(i) % 256
  {
    if i > 0 {
      BEByte(n / 256, width - 1, i - 1);
      DivTwice(n, 256, Pow256(i - 1));
    }
  }

  // ---- remainders ----------------------------------------------------------

  /** Reducing modulo a multiple of `c` first does not change the remainder modulo `c`. */
  lemma ModOfMod(x: int, m: nat, c: nat)
    requires c > 0 && m > 0 && m % c == 0
    ensures (x % m) % c == x % c
  {
    var d, q := m / c, x / m;
    assert m == d * c;
    assert x == q * m + x % m;
    assert q * m == (q * d) * c by { MulAssoc(q, d, c); }
    ModShift(x % m, q * d, c);
  }

  lemma MulAssoc(a: int, b: int, c: int)
    ensures a * (b * c) == (a * b) * c
  {
  }

  lemma {:induction false} ModShift(r: int, k: int, c: nat)
    requires c > 0
    ensures (k * c + r) % c == r % c
    decreases if k < 0 then -k else k
  {
    if k > 0 {
      ModShift(r, k - 1, c);
      assert k * c + r == ((k - 1) * c + r) + c;
      ModAdd(((k - 1) * c + r), c);
    } else if k < 0 {
      ModShift(r, k + 1, c);
      assert (k + 1) * c + r == (k * c + r) + c;
      ModAdd(k * c + r, c);
    }
  }

  lemma ModAdd(x: int, c: nat)
    requires c > 0
    ensures (x + c) % c == x % c
  {
    var q, r := x / c, x % c;
    assert x + c == (q + 1) * c + r by { assert (q + 1) * c == q * c + c; }
    DivModUnique(x + c, c, q + 1, r);
  }

  lemma DivModUnique(x: int, c: nat, q: int, r: int)
    requires c > 0 && x == q * c + r && 0 <= r < c
    ensures x / c == q && x % c == r
  {
    var q' := x / c;
    assert x == q' * c + x % c;
    assert q * c == (q - q') * c + q' * c;
    assert q' * c == (q' - q) * c + q * c;
    if q > q' {
      MulGrows(q - q', c);
    } else if q < q' {
      MulGrows(q' - q, c);
    }
  }

  lemma {:induction false} MulGrows(k: int, c: nat)
    requires k >= 1
    ensures k * c >= c
  {
    if k > 1 {
      MulGrows(k - 1, c);
      assert k * c == (k - 1) * c + c;
    }
  }
}
