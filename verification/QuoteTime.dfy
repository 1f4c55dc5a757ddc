/**
 The quote-time text `YYYY-MM-DDTHH:MMZ`: the writer, the parser with its digit
 loop, and the laws that tie them to each other and to the clock.
 */
module QuoteTime {
  import opened Prelude
  import opened Calendar

  const DASH: Byte := 45
  const ZERO: Byte := 48
  const LETTER_T: Byte := 84
  const LETTER_Z: Byte := 90
  const QUOTE_TIME_LEN: nat := 17

  // ---- integers as text ----------------------------------------------------

  function Pow10(width: nat): (p: nat)
    ensures p > 0
  {
    if width == 0 then 1 else 10 * Pow10(width - 1)
  }

  function Decimal(n: nat): (s: Bytes)
    ensures |s| > 0 && forall i :: 0 <= i < |s| ==> IsDigit(s[i])
  {
    if n < 10 then [ZERO + n] else Decimal(n / 10) + [ZERO + n % 10]
  }

  predicate IsDigit(c: Byte) {
    48 <= c <= 57
  }

  function Zeros(k: nat): (s: Bytes)
    ensures |s| == k
  {
    if k == 0 then [] else [ZERO] + Zeros(k - 1)
  }

  /** Zero padding to a minimum width; a minus sign counts towards the width. */
  function Padded(n: int, width: nat): Bytes {
    if n < 0 then
      var digits := Decimal(-n);
      [DASH] + Zeros(if |digits| + 1 < width then width - 1 - |digits| else 0) + digits
    else
      var digits := Decimal(n);
      Zeros(if |digits| < width then width - |digits| else 0) + digits
  }

  /** Exactly `width` digits of the low decimal places of `n`. */
  function Fixed(n: nat, width: nat): (s: Bytes)
    ensures |s| == width
  {
    if width == 0 then [] else Fixed(n / 10, width - 1) + [ZERO + n % 10]
  }

  lemma {:induction false} FixedZero(width: nat)
    ensures Fixed(0, width) == Zeros(width)
  {
    if width > 0 {
      FixedZero(width - 1);
      ZerosSnoc(width - 1);
    }
  }

  lemma {:induction false} ZerosSnoc(k: nat)
    ensures Zeros(k) + [ZERO] == Zeros(k + 1)
  {
    if k > 0 {
      ZerosSnoc(k - 1);
      assert Zeros(k) + [ZERO] == [ZERO] + (Zeros(k - 1) + [ZERO]);
    }
  }

  lemma {:induction false} DecimalLength(n: nat, width: nat)
    requires width > 0
    ensures |Decimal(n)| <= width <==> n < Pow10(width)
  {
    if width == 1 {
      assert Pow10(1) == 10;
    } else if n >= 10 {
      DecimalLength(n / 10, width - 1);
    } else {
      TenOrMore(width - 1);
    }
  }

  lemma {:induction false} TenOrMore(width: nat)
    requires width > 0
    ensures Pow10(width) >= 10
  {
    if width > 1 { TenOrMore(width - 1); }
  }

  lemma {:induction false} PaddedIsFixed(n: nat, width: nat)
    requires width > 0 && n < Pow10(width)
    ensures Padded(n, width) == Fixed(n, width)
  {
    DecimalLength(n, width);
    if n < 10 {
      FixedZero(width - 1);
      assert n / 10 == 0;
    } else {
      assert width > 1 by { assert Pow10(1) == 10; }
      PaddedIsFixed(n / 10, width - 1);
      DecimalLength(n / 10, width - 1);
      var k := width - |Decimal(n)|;
      assert Zeros(k) + (Decimal(n / 10) + [ZERO + n % 10]) == (Zeros(k) + Decimal(n / 10)) + [ZERO + n % 10];
    }
  }

  // ---- the parser's digit loop ---------------------------------------------

  function NumValue(s: Bytes): Option<nat> {
    if s == [] then Some(0)
    else
      var c := s[|s| - 1];
      match NumValue(s[..|s| - 1])
      case Some(v) => if IsDigit(c) then Some(v * 10 + (c - ZERO)) else None
      case None => None
  }

  lemma {:induction false} NumValueStops(s: Bytes, i: nat)
    requires i <= |s| && NumValue(s[..i]).None?
    ensures NumValue(s).None?
    decreases |s|
  {
    if i < |s| {
      assert s[..|s| - 1][..i] == s[..i];
      NumValueStops(s[..|s| - 1], i);
    } else {
      assert s[..i] == s;
    }
  }

  method ParseNum(s: Bytes) returns (r: Option<nat>)
    ensures r == NumValue(s)
  {
    var v := 0;
    for i := 0 to |s|
      invariant NumValue(s[..i]) == Some(v)
    {
      assert s[..i + 1][..i] == s[..i];
      if !IsDigit(s[i]) {
        NumValueStops(s, i + 1);
        return None;
      }
      v := v * 10 + (s[i] - ZERO);
    }
    assert s[..|s|] == s;
    return Some(v);
  }

  lemma {:induction false} NumOfFixed(n: nat, width: nat)
    requires n < Pow10(width)
    ensures NumValue(Fixed(n, width)) == Some(n)
  {
    if width > 0 {
      NumOfFixed(n / 10, width - 1);
      assert Fixed(n, width)[..width - 1] == Fixed(n / 10, width - 1);
    }
  }

  lemma {:induction false} FixedOfNum(s: Bytes)
    requires NumValue(s).Some?
    ensures NumValue(s).value < Pow10(|s|) && Fixed(NumValue(s).value, |s|) == s
  {
    if s != [] {
      FixedOfNum(s[..|s| - 1]);
    }
  }

  // ---- the writer and the parser -------------------------------------------

  function WriteFields(date: Date, hour: int, minute: int): Bytes {
    Padded(date.year, 4) + [DASH] + Padded(date.month, 2) + [DASH] + Padded(date.day, 2)
    + [LETTER_T] + Padded(hour, 2) + [COLON] + Padded(minute, 2) + [LETTER_Z]
  }

  function WriteQuoteTime(unix: int): Bytes {
    var days, secs := unix / 86400, unix % 86400;
    WriteFields(CivilFromDays(days), secs / 3600, secs % 3600 / 60)
  }

  function ParseQuoteTime(b: Bytes): Option<int> {
    if |b| != QUOTE_TIME_LEN || b[4] != DASH || b[7] != DASH || b[10] != LETTER_T || b[13] != COLON || b[16] != LETTER_Z
    then None
    else Combine(NumValue(b[0..4]), NumValue(b[5..7]), NumValue(b[8..10]), NumValue(b[11..13]), NumValue(b[14..16]))
  }

  function Combine(y: Option<nat>, m: Option<nat>, d: Option<nat>, hh: Option<nat>, mm: Option<nat>): Option<int> {
    if y.None? || m.None? || d.None? || hh.None? || mm.None? then None
    else if !(1 <= m.value <= 12) || !(1 <= d.value <= 31) || hh.value > 23 || mm.value > 59 then None
    else Some(DaysFromCivil(Date(y.value, m.value, d.value)) * 86400 + hh.value * 3600 + mm.value * 60)
  }

  /** The parser as the source runs it: five digit loops, then the range checks. */
  method ParseQuoteTimeText(b: Bytes) returns (r: Option<int>)
    ensures r == ParseQuoteTime(b)
  {
    if |b| != QUOTE_TIME_LEN || b[4] != DASH || b[7] != DASH || b[10] != LETTER_T || b[13] != COLON ||
      b[16] != LETTER_Z {
      return None;
    }
    var y := ParseNum(b[0..4]);
    var m := ParseNum(b[5..7]);
    var d := ParseNum(b[8..10]);
    var hh := ParseNum(b[11..13]);
    var mm := ParseNum(b[14..16]);
    return Combine(y, m, d, hh, mm);
  }

  /** The text of a date whose year has at most four digits: every field at its fixed place. */
  function FixedFields(y: nat, m: nat, d: nat, hh: nat, mm: nat): (s: Bytes)
    ensures |s| == QUOTE_TIME_LEN
  {
    Fixed(y, 4) + [DASH] + Fixed(m, 2) + [DASH] + Fixed(d, 2)
    + [LETTER_T] + Fixed(hh, 2) + [COLON] + Fixed(mm, 2) + [LETTER_Z]
  }

  lemma SmallPowers()
    ensures Pow10(2) == 100 && Pow10(3) == 1000 && Pow10(4) == 10000
  {
    assert Pow10(1) == 10;
    assert Pow10(2) == 10 * Pow10(1);
    assert Pow10(3) == 10 * Pow10(2);
    assert Pow10(4) == 10 * Pow10(3);
  }

  lemma FieldsAreFixed(date: Date, hh: nat, mm: nat)
    requires 0 <= date.year < 10000 && 0 <= date.month < 100 && 0 <= date.day < 100 && hh < 100 && mm < 100
    ensures WriteFields(date, hh, mm) == FixedFields(date.year, date.month, date.day, hh, mm)
  {
    SmallPowers();
    PaddedIsFixed(date.year, 4);
    PaddedIsFixed(date.month, 2);
    PaddedIsFixed(date.day, 2);
    PaddedIsFixed(hh, 2);
    PaddedIsFixed(mm, 2);
  }

  lemma FieldSlices(y: nat, m: nat, d: nat, hh: nat, mm: nat)
    ensures var s := FixedFields(y, m, d, hh, mm);
      && s[0..4] == Fixed(y, 4) && s[5..7] == Fixed(m, 2) && s[8..10] == Fixed(d, 2)
      && s[11..13] == Fixed(hh, 2) && s[14..16] == Fixed(mm, 2)
      && s[4] == DASH && s[7] == DASH && s[10] == LETTER_T && s[13] == COLON && s[16] == LETTER_Z
  {
  }

  lemma ParseFixedFields(y: nat, m: nat, d: nat, hh: nat, mm: nat)
    requires y < 10000 && m < 100 && d < 100 && hh < 100 && mm < 100
    ensures ParseQuoteTime(FixedFields(y, m, d, hh, mm)) == Combine(Some(y), Some(m), Some(d), Some(hh), Some(mm))
  {
    FieldSlices(y, m, d, hh, mm);
    SmallPowers();
    NumOfFixed(y, 4);
    NumOfFixed(m, 2);
    NumOfFixed(d, 2);
    NumOfFixed(hh, 2);
    NumOfFixed(mm, 2);
  }

  /** A year outside 0..9999 makes a text the parser refuses. */
  lemma WideYearRefused(date: Date, hh: nat, mm: nat)
    requires date.year < 0 || date.year >= 10000
    requires 0 <= date.month < 100 && 0 <= date.day < 100 && hh < 100 && mm < 100
    ensures ParseQuoteTime(WriteFields(date, hh, mm)) == None
  {
    hide Fixed;
    var s := WriteFields(date, hh, mm);
    var year := Padded(date.year, 4);
    SmallPowers();
    PaddedIsFixed(date.month, 2);
    PaddedIsFixed(date.day, 2);
    PaddedIsFixed(hh, 2);
    PaddedIsFixed(mm, 2);
    assert |s| == |year| + 13;
    if date.year >= 10000 {
      DecimalLength(date.year, 4);
    } else if |year| == 4 {
      assert s[0..4] == year;
      assert year[..1] == [DASH];
      NumValueStops(year, 1);
    }
  }

  function YearOf(unix: int): int {
    CivilFromDays(unix / 86400).year
  }

  /**
   For every time whatsoever: the written text parses exactly when the year has at
   most four digits, and it then parses to the time rounded down to its minute.
   */
  lemma ParseOfWrite(unix: int)
    ensures ParseQuoteTime(WriteQuoteTime(unix))
         == if 0 <= YearOf(unix) <= 9999 then Some(unix - unix % 60) else None
  {
    hide CivilFromDays, DaysFromCivil, ParseQuoteTime, WriteFields;
    var days, secs := unix / 86400, unix % 86400;
    var date := CivilFromDays(days);
    var hh, mm := secs / 3600, secs % 3600 / 60;
    CivilIsReal(days);
    if 0 <= date.year <= 9999 {
      FieldsAreFixed(date, hh, mm);
      ParseFixedFields(date.year, date.month, date.day, hh, mm);
      MinuteFloor(unix);
    } else {
      WideYearRefused(date, hh, mm);
    }
  }

  lemma MinuteFloor(unix: int)
    ensures var secs := unix % 86400;
      unix / 86400 * 86400 + secs / 3600 * 3600 + secs % 3600 / 60 * 60 == unix - unix % 60
  {
    var q, h, u := unix / 86400, unix % 86400 / 3600, unix % 86400 % 3600;
    assert unix == 86400 * q + 3600 * h + u;
    DivModUnique(unix, 60, 1440 * q + 60 * h + u / 60, u % 60);
  }

  /** The accepted year range is the time range from 0000-01-01 up to 10000-01-01. */
  lemma YearRange(unix: int)
    ensures 0 <= YearOf(unix) <= 9999 <==> -62167219200 <= unix < 253402300800
  {
    CivilIsReal(unix / 86400);
    YearRangeOfDays(CivilFromDays(unix / 86400), unix / 86400);
  }

  lemma YearRangeOfDays(date: Date, days: int)
    requires Real(date) && DaysFromCivil(date) == days
    ensures 0 <= date.year <= 9999 <==> YEAR_ZERO <= days < 2932897
  {
    DaysOrder(date, Date(0, 1, 1));
    DaysOrder(date, Date(10000, 1, 1));
    YearBounds();
  }

  lemma YearBounds()
    ensures DaysFromCivil(Date(0, 1, 1)) == YEAR_ZERO && DaysFromCivil(Date(10000, 1, 1)) == 2932897
  {
    hide DaysFromCivil;
    hide MarchStart;
    DaysFromMarch(Date(0, 1, 1));
    DaysFromMarch(Date(10000, 1, 1));
    MarchStartClosed(-1);
    MarchStartClosed(9999);
    assert MonthStart(10) == 306;
  }

  /** The written date is the day-by-day calendar's date, on every day from year zero on. */
  lemma WriteIsCalendar(unix: int, n: nat)
    requires unix / 86400 == n + YEAR_ZERO
    ensures var secs := unix % 86400;
      WriteQuoteTime(unix) == WriteFields(CalendarDay(n), secs / 3600, secs % 3600 / 60)
  {
    CivilIsCalendar(n);
  }

  /**
   The other way round: a text the parser accepts is reproduced exactly when its day
   exists in its month. (The parser takes 31 February and means a day in March.)
   */
  lemma WriteOfParse(b: Bytes)
    requires ParseQuoteTime(b).Some?
    ensures NumValue(b[0..4]).Some? && NumValue(b[5..7]).Some? && NumValue(b[8..10]).Some?
    ensures WriteQuoteTime(ParseQuoteTime(b).value) == b
       <==> NumValue(b[8..10]).value <= DaysInMonth(NumValue(b[0..4]).value, NumValue(b[5..7]).value)
  {
    TextIsFields(b);
    var y, m, d := NumValue(b[0..4]).value, NumValue(b[5..7]).value, NumValue(b[8..10]).value;
    var hh, mm := NumValue(b[11..13]).value, NumValue(b[14..16]).value;
    WriteOfFields(y, m, d, hh, mm, DaysFromCivil(Date(y, m, d)), ParseQuoteTime(b).value);
  }

  lemma WriteOfFields(y: nat, m: nat, d: nat, hh: nat, mm: nat, days: int, unix: int)
    requires y < 10000 && 1 <= m <= 12 && 1 <= d <= 31 && hh <= 23 && mm <= 59
    requires days == DaysFromCivil(Date(y, m, d)) && unix == days * 86400 + hh * 3600 + mm * 60
    ensures WriteQuoteTime(unix) == FixedFields(y, m, d, hh, mm) <==> Real(Date(y, m, d))
  {
    SplitTime(days, hh, mm, unix);
    if Real(Date(y, m, d)) {
      CivilInverts(Date(y, m, d));
      FieldsAreFixed(Date(y, m, d), hh, mm);
    } else {
      CivilIsReal(days);
      DifferentDateDiffers(CivilFromDays(days), y, m, d, hh, mm);
    }
  }

  lemma SplitTime(days: int, hh: nat, mm: nat, unix: int)
    requires hh <= 23 && mm <= 59 && unix == days * 86400 + hh * 3600 + mm * 60
    ensures unix / 86400 == days && unix % 86400 / 3600 == hh && unix % 86400 % 3600 / 60 == mm
  {
    DivModUnique(unix, 86400, days, hh * 3600 + mm * 60);
  }

  lemma TextIsFields(b: Bytes)
    requires ParseQuoteTime(b).Some?
    ensures var y, m, d := NumValue(b[0..4]), NumValue(b[5..7]), NumValue(b[8..10]);
      var hh, mm := NumValue(b[11..13]), NumValue(b[14..16]);
      && y.Some? && m.Some? && d.Some? && hh.Some? && mm.Some?
      && y.value < 10000
      && b == FixedFields(y.value, m.value, d.value, hh.value, mm.value)
  {
    SmallPowers();
    FixedOfNum(b[0..4]);
    FixedOfNum(b[5..7]);
    FixedOfNum(b[8..10]);
    FixedOfNum(b[11..13]);
    FixedOfNum(b[14..16]);
    assert b == b[0..4] + [b[4]] + b[5..7] + [b[7]] + b[8..10] + [b[10]] + b[11..13] + [b[13]] + b[14..16] + [b[16]];
  }

  /** Texts of different dates differ, because each parses back to its own date. */
  lemma DifferentDateDiffers(date: Date, y: nat, m: nat, d: nat, hh: nat, mm: nat)
    requires Real(date) && !Real(Date(y, m, d))
    requires y < 10000 && m < 100 && d < 100 && hh < 100 && mm < 100
    ensures WriteFields(date, hh, mm) != FixedFields(y, m, d, hh, mm)
  {
    SmallPowers();
    FieldSlices(y, m, d, hh, mm);
    NumOfFixed(y, 4);
    NumOfFixed(m, 2);
    NumOfFixed(d, 2);
    if 0 <= date.year < 10000 {
      FieldsAreFixed(date, hh, mm);
      FieldSlices(date.year, date.month, date.day, hh, mm);
      NumOfFixed(date.year, 4);
      NumOfFixed(date.month, 2);
      NumOfFixed(date.day, 2);
    } else if date.year >= 10000 {
      DecimalLength(date.year, 4);
      assert |WriteFields(date, hh, mm)| > QUOTE_TIME_LEN;
    } else {
      assert WriteFields(date, hh, mm)[0] == DASH;
      assert FixedFields(y, m, d, hh, mm)[0] == Fixed(y, 4)[0];
      FixedDigits(y, 4);
    }
  }

  lemma {:induction false} FixedDigits(n: nat, width: nat)
    ensures forall i :: 0 <= i < width ==> IsDigit(Fixed(n, width)[i])
  {
    if width > 0 { FixedDigits(n / 10, width - 1); }
  }

  // ---- text order is time order --------------------------------------------

  predicate LexLess(a: Bytes, b: Bytes) {
    if a == [] then b != []
    else b != [] && (a[0] < b[0] || (a[0] == b[0] && LexLess(a[1..], b[1..])))
  }

  lemma {:induction false} LexConcat(a: Bytes, b: Bytes, x: Bytes, y: Bytes)
    requires |a| == |b|
    ensures LexLess(a + x, b + y) <==> LexLess(a, b) || (a == b && LexLess(x, y))
  {
    if a == [] {
      assert a + x == x && b + y == y;
    } else {
      LexConcat(a[1..], b[1..], x, y);
      assert (a + x)[1..] == a[1..] + x && (b + y)[1..] == b[1..] + y;
      assert a == [a[0]] + a[1..] && b == [b[0]] + b[1..];
    }
  }

  lemma {:induction false} LexFixed(n: nat, m: nat, width: nat)
    requires n < Pow10(width) && m < Pow10(width)
    ensures LexLess(Fixed(n, width), Fixed(m, width)) <==> n < m
    ensures Fixed(n, width) == Fixed(m, width) <==> n == m
  {
    NumOfFixed(n, width);
    NumOfFixed(m, width);
    if width > 0 {
      LexFixed(n / 10, m / 10, width - 1);
      LexConcat(Fixed(n / 10, width - 1), Fixed(m / 10, width - 1), [ZERO + n % 10], [ZERO + m % 10]);
    }
  }

  /** One field and its separator, then the rest of the text. */
  lemma LexField(n: nat, m: nat, width: nat, sep: Byte, x: Bytes, y: Bytes)
    requires n < Pow10(width) && m < Pow10(width)
    ensures LexLess(Fixed(n, width) + [sep] + x, Fixed(m, width) + [sep] + y)
       <==> n < m || (n == m && LexLess(x, y))
  {
    LexFixed(n, m, width);
    LexConcat(Fixed(n, width), Fixed(m, width), [sep] + x, [sep] + y);
    LexConcat([sep], [sep], x, y);
    assert Fixed(n, width) + [sep] + x == Fixed(n, width) + ([sep] + x);
    assert Fixed(m, width) + [sep] + y == Fixed(m, width) + ([sep] + y);
  }

  function MinuteText(mm: nat): Bytes { Fixed(mm, 2) + [LETTER_Z] + [] }
  function HourText(hh: nat, mm: nat): Bytes { Fixed(hh, 2) + [COLON] + MinuteText(mm) }
  function DayText(d: nat, hh: nat, mm: nat): Bytes { Fixed(d, 2) + [LETTER_T] + HourText(hh, mm) }
  function MonthText(m: nat, d: nat, hh: nat, mm: nat): Bytes { Fixed(m, 2) + [DASH] + DayText(d, hh, mm) }

  lemma FieldsNest(y: nat, m: nat, d: nat, hh: nat, mm: nat)
    ensures FixedFields(y, m, d, hh, mm) == Fixed(y, 4) + [DASH] + MonthText(m, d, hh, mm)
  {
  }

  lemma LexMonthText(m: nat, d: nat, hh: nat, mm: nat, m': nat, d': nat, hh': nat, mm': nat)
    requires m < 100 && d < 100 && hh < 100 && mm < 100 && m' < 100 && d' < 100 && hh' < 100 && mm' < 100
    ensures LexLess(MonthText(m, d, hh, mm), MonthText(m', d', hh', mm'))
       <==> m < m' || (m == m' && (d < d' || (d == d' && (hh < hh' || (hh == hh' && mm < mm')))))
  {
    SmallPowers();
    LexField(m, m', 2, DASH, DayText(d, hh, mm), DayText(d', hh', mm'));
    LexField(d, d', 2, LETTER_T, HourText(hh, mm), HourText(hh', mm'));
    LexField(hh, hh', 2, COLON, MinuteText(mm), MinuteText(mm'));
    LexField(mm, mm', 2, LETTER_Z, [], []);
  }

  /** Comparing two written times as text compares their minutes. */
  lemma TextOrderIsTimeOrder(s: int, t: int)
    requires 0 <= YearOf(s) <= 9999 && 0 <= YearOf(t) <= 9999
    ensures LexLess(WriteQuoteTime(s), WriteQuoteTime(t)) <==> s / 60 < t / 60
  {
    var a, b := CivilFromDays(s / 86400), CivilFromDays(t / 86400);
    var ha, ma, hb, mb := s % 86400 / 3600, s % 86400 % 3600 / 60, t % 86400 / 3600, t % 86400 % 3600 / 60;
    CivilIsReal(s / 86400);
    CivilIsReal(t / 86400);
    DaysOrder(a, b);
    DaysOrder(b, a);
    FieldsAreFixed(a, ha, ma);
    FieldsAreFixed(b, hb, mb);
    FieldsNest(a.year, a.month, a.day, ha, ma);
    FieldsNest(b.year, b.month, b.day, hb, mb);
    SmallPowers();
    LexField(a.year, b.year, 4, DASH, MonthText(a.month, a.day, ha, ma), MonthText(b.month, b.day, hb, mb));
    LexMonthText(a.month, a.day, ha, ma, b.month, b.day, hb, mb);
    MinuteIndex(s);
    MinuteIndex(t);
  }

  lemma MinuteIndex(t: int)
    ensures t / 60 == 1440 * (t / 86400) + 60 * (t % 86400 / 3600) + t % 86400 % 3600 / 60
  {
    MinuteFloor(t);
  }
}
