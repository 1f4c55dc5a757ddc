/**
 The minute-precision quote time of an attestation response: the closed-form
 civil-date conversion of the formatter, its inverse in the parser, and a
 day-by-day Gregorian calendar that neither of them mentions.
 */
module Calendar {
  import opened Prelude

  datatype Date = Date(year: int, month: int, day: int)

  // ---- the closed forms used by the formatter and the parser ---------------

  /** Day number (0 is 1970-01-01) to civil date, as the formatter computes it. */
  function CivilFromDays(days: int): Date {
    var z := days + 719468;
    var era := z / 146097;
    CivilInEra(era, z - era * 146097)
  }

  /** The date on a day of a 400-year era that starts in March. */
  function CivilInEra(era: int, doe: int): Date {
    var yoe := YearOfEra(doe);
    var y := yoe + era * 400;
    var doy := doe - (365 * yoe + yoe / 4 - yoe / 100);
    var mp := (5 * doy + 2) / 153;
    var d := doy - (153 * mp + 2) / 5 + 1;
    var m := if mp < 10 then mp + 3 else mp - 9;
    Date(if m <= 2 then y + 1 else y, m, d)
  }

  function YearOfEra(doe: int): int {
    (doe - doe / 1460 + doe / 36524 - doe / 146096) / 365
  }

  /** Civil date to day number, as the parser computes it. */
  function DaysFromCivil(date: Date): int {
    var y2 := if date.month <= 2 then date.year - 1 else date.year;
    var era := y2 / 400;
    var yoe := y2 - era * 400;
    var mp := (date.month + 9) % 12;
    var doy := (153 * mp + 2) / 5 + date.day - 1;
    var doe := yoe * 365 + yoe / 4 - yoe / 100 + doy;
    era * 146097 + doe - 719468
  }

  // ---- the reference calendar ----------------------------------------------

  predicate IsLeap(year: int) {
    year % 4 == 0 && (year % 100 != 0 || year % 400 == 0)
  }

  function DaysInMonth(year: int, month: int): int {
    if month == 2 then (if IsLeap(year) then 29 else 28)
    else if month == 4 || month == 6 || month == 9 || month == 11 then 30
    else 31
  }

  predicate Real(date: Date) {
    1 <= date.month <= 12 && 1 <= date.day <= DaysInMonth(date.year, date.month)
  }

  function NextDay(date: Date): Date {
    if date.day < DaysInMonth(date.year, date.month) then date.(day := date.day + 1)
    else if date.month < 12 then Date(date.year, date.month + 1, 1)
    else Date(date.year + 1, 1, 1)
  }

  /** The date `n` days after 0000-01-01, found by counting days one at a time. */
  function CalendarDay(n: nat): Date {
    if n == 0 then Date(0, 1, 1) else NextDay(CalendarDay(n - 1))
  }

  /** The day number of 0000-01-01. */
  const YEAR_ZERO: int := -719528

  // ---- the two agree -------------------------------------------------------

  /** Within a 400-year era, split into centuries, four-year cycles and years. */
  lemma YearOfEraExact(c: int, q: int, r: int, doy: int)
    requires 0 <= c <= 3 && 0 <= q <= 24 && 0 <= r <= 3
    requires 0 <= doy <= 364 || (doy == 365 && r == 3 && (q < 24 || c == 3))
    ensures YearOfEra(36524 * c + 1461 * q + 365 * r + doy) == 100 * c + 4 * q + r
  {
    var doe := 36524 * c + 1461 * q + 365 * r + doy;
    var late := if 24 * c + q + 365 * r + doy >= 1460 then 1 else 0;
    assert doe / 1460 == 25 * c + q + late;
    assert doe / 36524 - doe / 146096 == c by {
      var last := doe == 146096;
      assert doe / 146096 == if last then 1 else 0;
      assert doe / 36524 == if last then 4 else c;
    }
    assert 0 <= doy - late <= 364;
  }

  lemma MonthExact(mp: int, d: int)
    requires 0 <= mp <= 11 && 1 <= d <= 31
    requires d == 31 ==> mp != 1 && mp != 3 && mp != 6 && mp != 8 && mp != 11
    ensures (5 * ((153 * mp + 2) / 5 + d - 1) + 2) / 153 == mp
  {
  }

  /** Days before March of `year`, counted from March of year zero. */
  function MarchStart(year: int): int {
    year / 400 * 146097 + year % 400 * 365 + year % 400 / 4 - year % 400 / 100
  }

  function MarchYear(date: Date): int {
    if date.month <= 2 then date.year - 1 else date.year
  }

  /** Days of the March-based year before the first of the month `mp` months after March. */
  function MonthStart(mp: int): int {
    (153 * mp + 2) / 5
  }

  lemma DaysFromMarch(date: Date)
    ensures DaysFromCivil(date)
         == MarchStart(MarchYear(date)) + MonthStart((date.month + 9) % 12) + date.day - 1 - 719468
  {
    var y := MarchYear(date);
    assert y - y / 400 * 400 == y % 400;
  }

  lemma NextQuotient(y: int, c: nat)
    requires c > 1
    ensures (y + 1) / c == y / c + if (y + 1) % c == 0 then 1 else 0
  {
    var q, r := y / c, y % c;
    if r + 1 < c {
      DivModUnique(y + 1, c, q, r + 1);
    } else {
      DivModUnique(y + 1, c, q + 1, 0);
    }
  }

  lemma MarchStartStep(y: int)
    ensures MarchStart(y + 1) == MarchStart(y) + if IsLeap(y + 1) then 366 else 365
  {
    hide MarchStart;
    MarchStartClosed(y);
    MarchStartClosed(y + 1);
    NextQuotient(y, 4);
    NextQuotient(y, 100);
    NextQuotient(y, 400);
    LeapCount(y + 1);
  }

  function Divides(c: nat, n: int): int
    requires c > 0
  {
    if n % c == 0 then 1 else 0
  }

  /** Every fourth year, less every hundredth, plus every four-hundredth. */
  lemma LeapCount(n: int)
    ensures Divides(4, n) - Divides(100, n) + Divides(400, n) == if IsLeap(n) then 1 else 0
  {
    var q, r := n / 400, n / 100;
    if n % 400 == 0 { DivModUnique(n, 100, 4 * q, 0); }
    if n % 100 == 0 { DivModUnique(n, 4, 25 * r, 0); }
  }

  lemma MarchStartClosed(y: int)
    ensures MarchStart(y) == 365 * y + y / 4 - y / 100 + y / 400
  {
    var era, yoe := y / 400, y % 400;
    assert y == 400 * era + yoe;
    assert y / 4 == 100 * era + yoe / 4;
    assert y / 100 == 4 * era + yoe / 100;
  }

  /** The closed form, once its year and month subterms are known. */
  lemma CivilOfEra(era: int, yoe: int, mp: int, d: int, doe: int)
    requires doe == 365 * yoe + yoe / 4 - yoe / 100 + (MonthStart(mp) + d - 1)
    requires 0 <= doe < 146097 && YearOfEra(doe) == yoe && 0 <= mp <= 11
    requires (5 * (MonthStart(mp) + d - 1) + 2) / 153 == mp
    ensures var y := 400 * era + yoe;
      CivilFromDays(146097 * era + doe - 719468)
      == Date(if mp < 10 then y else y + 1, if mp < 10 then mp + 3 else mp - 9, d)
  {
    assert (146097 * era + doe) / 146097 == era;
  }

  lemma CivilOfParts(y: int, mp: int, d: int)
    requires 0 <= mp <= 11 && 1 <= d <= 31
    requires d == 31 ==> mp != 1 && mp != 3 && mp != 6 && mp != 8 && mp != 11
    requires mp == 11 ==> d <= if IsLeap(y + 1) then 29 else 28
    ensures CivilFromDays(MarchStart(y) + MonthStart(mp) + d - 1 - 719468)
         == Date(if mp < 10 then y else y + 1, if mp < 10 then mp + 3 else mp - 9, d)
  {
    hide CivilFromDays, YearOfEra, IsLeap;
    var era, yoe := y / 400, y % 400;
    var doy := MonthStart(mp) + d - 1;
    var doe := 365 * yoe + yoe / 4 - yoe / 100 + doy;
    assert doy <= 364 || (doy == 365 && IsLeap(y + 1));
    LeapInEra(era, yoe);
    YearOfEraAt(yoe, doy);
    MonthExact(mp, d);
    CivilOfEra(era, yoe, mp, d, doe);
  }

  lemma YearOfEraAt(yoe: int, doy: int)
    requires 0 <= yoe < 400
    requires 0 <= doy <= 364 || (doy == 365 && yoe % 4 == 3 && (yoe % 100 / 4 < 24 || yoe / 100 == 3))
    ensures var doe := 365 * yoe + yoe / 4 - yoe / 100 + doy;
      0 <= doe < 146097 && YearOfEra(doe) == yoe
  {
    var c, q, r := yoe / 100, yoe % 100 / 4, yoe % 4;
    assert yoe == 100 * c + 4 * q + r && yoe / 4 == 25 * c + q;
    YearOfEraExact(c, q, r, doy);
  }

  lemma LeapInEra(era: int, yoe: int)
    requires 0 <= yoe < 400
    ensures IsLeap(400 * era + yoe + 1) ==> yoe % 4 == 3 && (yoe % 100 / 4 < 24 || yoe / 100 == 3)
  {
    var year := 400 * era + yoe + 1;
    ModShift(yoe + 1, 100 * era, 4);
    ModShift(yoe + 1, 4 * era, 100);
    ModShift(yoe + 1, era, 400);
  }

  lemma CivilInverts(date: Date)
    requires Real(date)
    ensures CivilFromDays(DaysFromCivil(date)) == date
  {
    MonthBack(date);
    var mp := MarchMonth(date);
    assert DaysFromCivil(date) == MarchStart(MarchYear(date)) + MonthStart(mp) + date.day - 1 - 719468 by {
      DaysFromMarch(date);
    }
    CivilOfParts(MarchYear(date), mp, date.day);
  }

  function MarchMonth(date: Date): int {
    if date.month <= 2 then date.month + 9 else date.month - 3
  }

  /** The March-based year and month of a date give its own year and month back. */
  lemma MonthBack(date: Date)
    requires Real(date)
    ensures var (y, mp) := (MarchYear(date), MarchMonth(date));
      && mp == (date.month + 9) % 12 && 0 <= mp <= 11
      && (date.day == 31 ==> mp != 1 && mp != 3 && mp != 6 && mp != 8 && mp != 11)
      && (mp == 11 ==> date.day <= if IsLeap(y + 1) then 29 else 28)
      && Date(if mp < 10 then y else y + 1, if mp < 10 then mp + 3 else mp - 9, date.day) == date
  {
  }

  /** Every month but February ends where the next one starts, within one March-based year. */
  lemma MonthStep(month: int)
    requires 1 <= month <= 12 && month != 2
    ensures MonthStart((month % 12 + 10) % 12)
         == MonthStart((month + 9) % 12) + DaysInMonth(0, month)
  {
  }

  lemma NextDayIsReal(date: Date)
    requires Real(date)
    ensures Real(NextDay(date))
  {
  }

  lemma NextDayAdvances(date: Date)
    requires Real(date)
    ensures DaysFromCivil(NextDay(date)) == DaysFromCivil(date) + 1
  {
    if date.day == DaysInMonth(date.year, date.month) {
      if date.month == 2 {
        MarchFollows(date.year);
      } else {
        MonthFollows(date);
      }
    }
  }

  lemma MarchFollows(year: int)
    ensures DaysFromCivil(Date(year, 3, 1))
         == DaysFromCivil(Date(year, 2, DaysInMonth(year, 2))) + 1
  {
    var last := Date(year, 2, DaysInMonth(year, 2));
    DaysFromMarch(last);
    DaysFromMarch(Date(year, 3, 1));
    MarchStartStep(year - 1);
    assert MonthStart((2 + 9) % 12) == 337 && MonthStart((3 + 9) % 12) == 0;
  }

  lemma MonthFollows(date: Date)
    requires 1 <= date.month <= 12 && date.month != 2
    requires date.day == DaysInMonth(date.year, date.month)
    ensures DaysFromCivil(NextDay(date)) == DaysFromCivil(date) + 1
  {
    var next := NextDay(date);
    assert MarchYear(next) == MarchYear(date) && next.month == date.month % 12 + 1 && next.day == 1;
    MonthsFollow(date, next);
  }

  lemma MonthsFollow(date: Date, next: Date)
    requires 1 <= date.month <= 12 && date.month != 2 && date.day == DaysInMonth(0, date.month)
    requires MarchYear(next) == MarchYear(date) && next.month == date.month % 12 + 1 && next.day == 1
    ensures DaysFromCivil(next) == DaysFromCivil(date) + 1
  {
    DaysFromMarch(date);
    DaysFromMarch(next);
    MonthStep(date.month);
  }

  lemma {:induction false} CalendarDayNumber(n: nat)
    ensures Real(CalendarDay(n)) && DaysFromCivil(CalendarDay(n)) == n + YEAR_ZERO
  {
    if n > 0 {
      CalendarDayNumber(n - 1);
      NextDayIsReal(CalendarDay(n - 1));
      NextDayAdvances(CalendarDay(n - 1));
    }
  }

  /** The formatter's closed form is the day-by-day calendar, for every day from year zero on. */
  lemma CivilIsCalendar(n: nat)
    ensures CivilFromDays(n + YEAR_ZERO) == CalendarDay(n)
  {
    CalendarDayNumber(n);
    CivilInverts(CalendarDay(n));
  }

  // ---- before year zero: the 400-year cycle --------------------------------

  lemma CivilShift(days: int, k: nat)
    ensures CivilFromDays(days + 146097 * k)
         == var date := CivilFromDays(days); date.(year := date.year + 400 * k)
  {
    hide CivilInEra;
    var z := days + 719468;
    var era, doe := z / 146097, z % 146097;
    DivModUnique(z + 146097 * k, 146097, era + k, doe);
    EraShift(era, doe, k);
  }

  lemma EraShift(era: int, doe: int, k: nat)
    ensures CivilInEra(era + k, doe) == var date := CivilInEra(era, doe); date.(year := date.year + 400 * k)
  {
    hide YearOfEra;
  }

  lemma DaysShift(date: Date, k: nat)
    ensures DaysFromCivil(date.(year := date.year + 400 * k)) == DaysFromCivil(date) + 146097 * k
  {
    var y := MarchYear(date);
    assert (y + 400 * k) / 400 == y / 400 + k;
  }

  lemma RealShift(date: Date, k: nat)
    ensures Real(date.(year := date.year + 400 * k)) <==> Real(date)
  {
    ModShift(date.year, 100 * k, 4);
    ModShift(date.year, 4 * k, 100);
    ModShift(date.year, k, 400);
  }

  lemma ShiftBack(date: Date, days: int, k: nat)
    requires var later := date.(year := date.year + 400 * k);
      Real(later) && DaysFromCivil(later) == days + 146097 * k
    ensures Real(date) && DaysFromCivil(date) == days
  {
    DaysShift(date, k);
    RealShift(date, k);
  }

  lemma CivilIsRealFromYearZero(n: nat)
    ensures Real(CivilFromDays(n + YEAR_ZERO)) && DaysFromCivil(CivilFromDays(n + YEAR_ZERO)) == n + YEAR_ZERO
  {
    CivilIsCalendar(n);
    CalendarDayNumber(n);
  }

  lemma CivilIsRealShifted(days: int, k: nat, n: nat)
    requires days + 146097 * k == n + YEAR_ZERO
    ensures Real(CivilFromDays(days)) && DaysFromCivil(CivilFromDays(days)) == days
  {
    var date := CivilFromDays(days);
    assert Real(date.(year := date.year + 400 * k))
        && DaysFromCivil(date.(year := date.year + 400 * k)) == days + 146097 * k by {
      CivilShift(days, k);
      CivilIsRealFromYearZero(n);
    }
    ShiftBack(date, days, k);
  }

  /** Every day number denotes a real date, and that date denotes it back. */
  lemma CivilIsReal(days: int)
    ensures Real(CivilFromDays(days)) && DaysFromCivil(CivilFromDays(days)) == days
  {
    var k := if days < 0 then -days else 0;
    CivilIsRealShifted(days, k, days + 146097 * k - YEAR_ZERO);
  }

  // ---- date order is day order ---------------------------------------------

  predicate DateLess(a: Date, b: Date) {
    a.year < b.year || (a.year == b.year && (a.month < b.month || (a.month == b.month && a.day < b.day)))
  }

  lemma {:induction false} MarchStartGrows(y: int, k: nat)
    ensures MarchStart(y + k) >= MarchStart(y) + 365 * k
    decreases k
  {
    if k > 0 {
      MarchStartGrows(y, k - 1);
      MarchStartStep(y + k - 1);
    }
  }

  /** Offset of a date inside its March-based year. */
  function DayOfMarchYear(date: Date): int {
    MonthStart((date.month + 9) % 12) + date.day - 1
  }

  lemma DayOfMarchYearRange(date: Date)
    requires Real(date)
    ensures 0 <= DayOfMarchYear(date) < MarchStart(MarchYear(date) + 1) - MarchStart(MarchYear(date))
  {
    MarchStartStep(MarchYear(date));
  }

  lemma DayOfMarchYearOrder(a: Date, b: Date)
    requires Real(a) && Real(b) && DateLess(a, b) && MarchYear(a) == MarchYear(b)
    ensures DayOfMarchYear(a) < DayOfMarchYear(b)
  {
    hide Real, MonthStart;
    MonthBack(a);
    MonthBack(b);
    FirstOfMonth(a);
    FirstOfMonth(b);
    if MarchMonth(a) < MarchMonth(b) { MonthEnds(MarchMonth(a), a.day, MarchMonth(b)); }
  }

  lemma FirstOfMonth(date: Date)
    requires Real(date)
    ensures date.day >= 1 && date.day <= 31
  {
  }

  /** A month of the March-based year ends before any later month starts. */
  lemma MonthEnds(mp: int, d: int, later: int)
    requires 0 <= mp < later <= 11 && 1 <= d <= 31
    requires d == 31 ==> mp != 1 && mp != 3 && mp != 6 && mp != 8 && mp != 11
    ensures MonthStart(mp) + d - 1 < MonthStart(later)
  {
    assert MonthStart(mp + 1) <= MonthStart(later);
    assert MonthStart(mp) + d - 1 < MonthStart(mp + 1);
  }

  lemma DaysIncrease(a: Date, b: Date)
    requires Real(a) && Real(b) && DateLess(a, b)
    ensures DaysFromCivil(a) < DaysFromCivil(b)
  {
    DaysFromMarch(a);
    DaysFromMarch(b);
    DayOfMarchYearRange(a);
    DayOfMarchYearRange(b);
    if MarchYear(a) == MarchYear(b) {
      DayOfMarchYearOrder(a, b);
    } else {
      MarchStartGrows(MarchYear(a) + 1, MarchYear(b) - MarchYear(a) - 1);
    }
  }

  lemma DaysOrder(a: Date, b: Date)
    requires Real(a) && Real(b)
    ensures DateLess(a, b) <==> DaysFromCivil(a) < DaysFromCivil(b)
  {
    if DateLess(a, b) {
      DaysIncrease(a, b);
    } else if a != b {
      DaysIncrease(b, a);
    }
  }
}
