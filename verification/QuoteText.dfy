/** The quote time text, character by character, and exactly which texts are read. */
module QuoteText {
  import opened Prelude
  import opened Calendar
  import opened QuoteTime

  /** "dddd-dd-ddTdd:ddZ" */
  predicate Shaped(b: Bytes) {
    && |b| == 17
    && b[4] == 45 && b[7] == 45 && b[10] == 84 && b[13] == 58 && b[16] == 90
    && Digits(b, 0, 4) && Digits(b, 5, 2) && Digits(b, 8, 2) && Digits(b, 11, 2) && Digits(b, 14, 2)
  }

  predicate Digits(b: Bytes, p: nat, n: nat) {
    p + n <= |b| && forall i :: p <= i < p + n ==> 48 <= b[i] <= 57
  }

  /** The number that two digits show. */
  function Two(b: Bytes, p: nat): int
    requires p + 2 <= |b|
  {
    (b[p] as int - 48) * 10 + (b[p + 1] as int - 48)
  }

  function Four(b: Bytes, p: nat): int
    requires p + 4 <= |b|
  {
    Two(b, p) * 100 + Two(b, p + 2)
  }

  lemma TwoRead(b: Bytes, p: nat)
    requires p + 2 <= |b|
    ensures NumValue(b[p..p + 2]) == if Digits(b, p, 2) then Some(Two(b, p)) else None
  {
    var s := b[p..p + 2];
    assert s[0] == b[p] && s[1] == b[p + 1];
    assert s[..1] == [s[0]] && [s[0]][..0] == [];
    assert NumValue([]) == Some(0);
    assert NumValue(s[..1]) == if IsDigit(s[0]) then Some(s[0] - 48) else None;
  }

  lemma FourRead(b: Bytes, p: nat)
    requires p + 4 <= |b|
    ensures NumValue(b[p..p + 4]) == if Digits(b, p, 4) then Some(Four(b, p)) else None
  {
    var s := b[p..p + 4];
    assert s[..3] == b[p..p + 3] && s[2] == b[p + 2] && s[3] == b[p + 3];
    assert s[..3][..2] == b[p..p + 2];
    TwoRead(b, p);
    assert NumValue(s[..3]) ==
      if Digits(b, p, 2) && IsDigit(s[2]) then Some(Two(b, p) * 10 + (s[2] - 48)) else None;
  }

  /** A text is read exactly when it is shaped and its fields are in range; the day is only checked against 31. */
  lemma ParsesExactly(b: Bytes)
    ensures ParseQuoteTime(b).Some? <==>
      Shaped(b) && 1 <= Two(b, 5) <= 12 && 1 <= Two(b, 8) <= 31 && Two(b, 11) <= 23 && Two(b, 14) <= 59
    ensures ParseQuoteTime(b).Some? ==>
      ParseQuoteTime(b).value ==
        DaysFromCivil(Date(Four(b, 0), Two(b, 5), Two(b, 8))) * 86400 + Two(b, 11) * 3600 + Two(b, 14) * 60
  {
    hide NumValue, DaysFromCivil;
    if |b| == 17 {
      FourRead(b, 0);
      TwoRead(b, 5);
      TwoRead(b, 8);
      TwoRead(b, 11);
      TwoRead(b, 14);
    }
  }

  lemma TwoWritten(n: nat)
    requires n < 100
    ensures Fixed(n, 2) == [48 + n / 10, 48 + n % 10]
  {
    assert Fixed(n / 10 / 10, 0) == [];
    assert Fixed(n / 10, 1) == [48 + n / 10 % 10];
  }

  lemma FourWritten(n: nat)
    requires n < 10000
    ensures Fixed(n, 4) == [48 + n / 1000, 48 + n / 100 % 10, 48 + n / 10 % 10, 48 + n % 10]
  {
    var h := n / 100;
    TwoWritten(h);
    assert n / 10 / 10 == h && n / 1000 == h / 10;
    assert Fixed(n / 10, 3) == Fixed(h, 2) + [48 + n / 10 % 10];
  }

  lemma TwoPlaced(s: Bytes, p: nat, n: nat)
    requires p + 2 <= |s| && n < 100 && s[p..p + 2] == Fixed(n, 2)
    ensures Digits(s, p, 2) && Two(s, p) == n
  {
    TwoWritten(n);
    hide Fixed;
    assert s[p] == s[p..p + 2][0] && s[p + 1] == s[p..p + 2][1];
  }

  lemma FourPlaces(n: nat)
    requires n < 10000
    ensures (n / 1000 * 10 + n / 100 % 10) * 100 + (n / 10 % 10 * 10 + n % 10) == n
  {
    var (h, l) := (n / 100, n % 100);
    assert n / 1000 == h / 10 && n / 10 % 10 == l / 10 && n % 10 == l % 10;
  }

  lemma FourPlaced(s: Bytes, n: nat)
    requires 4 <= |s| && n < 10000 && s[0..4] == Fixed(n, 4)
    ensures Digits(s, 0, 4) && Four(s, 0) == n
  {
    FourWritten(n);
    FourPlaces(n);
    hide Fixed;
    assert s[0] == s[0..4][0] && s[1] == s[0..4][1] && s[2] == s[0..4][2] && s[3] == s[0..4][3];
  }

  lemma FieldsPlaced(y: nat, m: nat, d: nat, hh: nat, mm: nat)
    requires y < 10000 && m < 100 && d < 100 && hh < 100 && mm < 100
    ensures var b := FixedFields(y, m, d, hh, mm);
      && Shaped(b)
      && Four(b, 0) == y && Two(b, 5) == m && Two(b, 8) == d && Two(b, 11) == hh && Two(b, 14) == mm
  {
    FieldSlices(y, m, d, hh, mm);
    var b := FixedFields(y, m, d, hh, mm);
    hide FixedFields, Fixed, Four, Two, Digits;
    FourPlaced(b, y);
    TwoPlaced(b, 5, m);
    TwoPlaced(b, 8, d);
    TwoPlaced(b, 11, hh);
    TwoPlaced(b, 14, mm);
  }

  /** In the four-digit years a time is written with its calendar date, its hour and its minute in their places. */
  lemma WrittenText(unix: int)
    requires 0 <= YearOf(unix) <= 9999
    ensures var (date, secs, b) := (CivilFromDays(unix / 86400), unix % 86400, WriteQuoteTime(unix));
      && Shaped(b)
      && Four(b, 0) == date.year && Two(b, 5) == date.month && Two(b, 8) == date.day
      && Two(b, 11) == secs / 3600 && Two(b, 14) == secs % 3600 / 60
  {
    var (date, secs) := (CivilFromDays(unix / 86400), unix % 86400);
    CivilIsReal(unix / 86400);
    assert 1 <= date.month <= 12 && 1 <= date.day <= 31;
    hide CivilFromDays, Real, FixedFields, WriteFields, Shaped, Two, Four;
    var (hh, mm) := (secs / 3600, secs % 3600 / 60);
    FieldsAreFixed(date, hh, mm);
    FieldsPlaced(date.year, date.month, date.day, hh, mm);
  }

  /** A year before zero shows a minus sign and three digits at least; one past 9999 shows all its digits. */
  lemma OtherYears(y: int)
    ensures -1000 < y < 0 ==> Padded(y, 4) == [45] + Fixed(-y, 3)
    ensures y <= -1000 ==> Padded(y, 4) == [45] + Decimal(-y)
    ensures y >= 10000 ==> Padded(y, 4) == Decimal(y)
    ensures y != 0 ==> var n := if y < 0 then -y else y; NumValue(Decimal(n)) == Some(n) && Decimal(n)[0] != 48
  {
    SmallPowers();
    if -1000 < y < 0 {
      PaddedIsFixed(-y, 3);
      DecimalLength(-y, 3);
    } else if y < 0 {
      DecimalLength(-y, 3);
    } else if y >= 10000 {
      DecimalLength(y, 4);
    }
    if y != 0 { DecimalShows(if y < 0 then -y else y); }
  }

  lemma {:induction false} DecimalShows(n: nat)
    requires n > 0
    ensures NumValue(Decimal(n)) == Some(n) && Decimal(n)[0] != 48
  {
    if n < 10 {
      assert [48 + n][..0] == [];
    } else {
      DecimalShows(n / 10);
      assert Decimal(n)[..|Decimal(n)| - 1] == Decimal(n / 10);
    }
  }
}
