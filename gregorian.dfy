/**
 * The proleptic Gregorian side of the converter (ethiopian_date_converter.py:44-83, 98-117).
 *
 * Days are counted from Julian Day Number GregorianOffset, the JDN of 0001-01-01.
 * Encoding counts leap days with floor divisions; decoding splits the day count
 * into 2000-, 400-, 100-, 4- and 1-year cycle positions, computes the month from
 * the day of the year with one formula and the day of the month with a walk over
 * a table of month lengths.
 */
module Gregorian {
  import opened Arith
  import opened Calendar

  /** The leap-year rule: divisible by 4, centuries only when divisible by 400. */
  predicate IsLeapYear(y: int) {
    y % 4 == 0 && (y % 100 != 0 || y % 400 == 0)
  }

  function YearLength(leap: bool): int {
    if leap then 366 else 365
  }

  function MonthLength(leap: bool, m: int): int
    requires 1 <= m <= 12
  {
    if m == 2 then (if leap then 29 else 28)
    else if m == 4 || m == 6 || m == 9 || m == 11 then 30
    else 31
  }

  /** A date that exists in the proleptic Gregorian calendar, counted from year 1. */
  predicate IsValidDate(date: Date) {
    date.year >= 1 && 1 <= date.month <= 12 && 1 <= date.day <= MonthLength(IsLeapYear(date.year), date.month)
  }

  /** Reference count: the days of months 1..m-1, summed one month at a time. */
  function DaysBeforeMonth(leap: bool, m: int): int
    requires 1 <= m <= 13
    decreases m
  {
    if m == 1 then 0 else DaysBeforeMonth(leap, m - 1) + MonthLength(leap, m - 1)
  }

  /** Reference count: the days of years 1..y-1, summed one year at a time. */
  function DaysBeforeYear(y: int): int
    requires y >= 1
    decreases y
  {
    if y == 1 then 0 else DaysBeforeYear(y - 1) + YearLength(IsLeapYear(y - 1))
  }

  /** The day after `date`. */
  function NextDate(date: Date): Date
    requires IsValidDate(date)
  {
    if date.day < MonthLength(IsLeapYear(date.year), date.month) then Date(date.year, date.month, date.day + 1)
    else if date.month < 12 then Date(date.year, date.month + 1, 1)
    else Date(date.year + 1, 1, 1)
  }

  // ---------------------------------------------------------------------------
  // gregorian_to_julian_day_number

  /** The term `s` of lines 110-111: leap days up to year y minus leap days up to year y - 1. */
  function LeapTerm(y: int): int {
    y / 4 - (y - 1) / 4 - y / 100 + (y - 1) / 100 + y / 400 - (y - 1) / 400
  }

  /** The term `n` of lines 112-114: the 0-based day of the year, with `t` == 1 for January and February. */
  function DayOfYearTerm(s: int, m: int, d: int): int {
    var t := (14 - m) / 12;
    31 * t * (m - 1) + (1 - t) * (59 + s + 30 * (m - 3) + (3 * m - 7) / 5) + d - 1
  }

  /** Days from 0001-01-01 to 1 January of year y (lines 115-116 without `n`). */
  function YearTerm(y: int): int {
    365 * (y - 1) + (y - 1) / 4 - (y - 1) / 100 + (y - 1) / 400
  }

  /** gregorian_to_julian_day_number (lines 98-117). */
  function ToJdn(date: Date): int {
    GregorianOffset + YearTerm(date.year) + DayOfYearTerm(LeapTerm(date.year), date.month, date.day)
  }

  // ---------------------------------------------------------------------------
  // julian_day_number_to_gregorian

  /** The month of lines 68-69 from the 0-based day of the year n and the 4-year-block flag s. */
  function MonthOfDayOfYear(n: int, s: int): int {
    var t := (364 + s - n) / 306;
    t * (n / 31 + 1) + (1 - t) * ((5 * (n - s) + 13) / 153 + 1)
  }

  /** The month-length table of lines 56 and 77, indexed 1..12. */
  function MonthTable(leap: bool): seq<int> {
    [0, 31, if leap then 29 else 28, 31, 30, 31, 30, 31, 31, 30, 31, 30, 31]
  }

  /**
   * The loop of lines 78-82 from index i on: subtract month lengths from n until
   * n fits the current month; if no month fits, the day stays at `fallback`.
   */
  function DayWalk(n: int, table: seq<int>, i: nat, fallback: int): int
    decreases |table| - i
  {
    if i >= |table| then fallback
    else if n <= table[i] then n
    else DayWalk(n - table[i], table, i + 1, fallback)
  }

  /** julian_day_number_to_gregorian (lines 44-83) as one expression. */
  function DecodeJdn(jdn: int): Date {
    var r2000 := (jdn - GregorianOffset) % 730485;
    var r400 := (jdn - GregorianOffset) % 146097;
    var r100 := r400 % 36524;
    var r4 := r100 % 1461;
    var n := r4 % 365 + 365 * (r4 / 1460);
    var s := r4 / 1095;
    var aprime := 400 * ((jdn - GregorianOffset) / 146097) + 100 * (r400 / 36524) + 4 * (r100 / 1461)
                  + r4 / 365 - r4 / 1460 - r2000 / 730484;
    var year := aprime + 1;
    var month := MonthOfDayOfYear(n, s);
    var n' := n + 1 - r2000 / 730484;
    if r100 == 0 && n' == 0 && r400 != 0 then Date(year, 12, 31)
    else Date(year, month, DayWalk(n', MonthTable(IsLeapYear(year)), 1, n'))
  }

  // ---------------------------------------------------------------------------
  // Encoding: the floor-division formulas agree with counting days

  /** Going from y - 1 to y, the quotient by k grows exactly when k divides y. */
  lemma StepDiv(y: int, k: int)
    requires 0 < k
    ensures y / k - (y - 1) / k == if y % k == 0 then 1 else 0
  {
    var q, r := y / k, y % k;
    if r == 0 {
      DivModUnique(y - 1, k, q - 1, k - 1);
    } else {
      DivModUnique(y - 1, k, q, r - 1);
    }
  }

  /** The leap term of lines 110-111 is 1 in leap years and 0 otherwise. */
  lemma LeapTermIsLeapIndicator(y: int)
    ensures LeapTerm(y) == if IsLeapYear(y) then 1 else 0
  {
    StepDiv(y, 4);
    StepDiv(y, 100);
    StepDiv(y, 400);
    if y % 100 == 0 {
      DivModUnique(y, 4, 25 * (y / 100), 0);
    }
    if y % 400 == 0 {
      DivModUnique(y, 100, 4 * (y / 400), 0);
    }
  }

  /** The cumulative month table, written out. */
  lemma DaysBeforeMonthValues(leap: bool, m: int)
    requires 1 <= m <= 13
    ensures var l := if leap then 1 else 0;
      DaysBeforeMonth(leap, m)
      == if m == 1 then 0 else if m == 2 then 31 else if m == 3 then 59 + l
         else if m == 4 then 90 + l else if m == 5 then 120 + l else if m == 6 then 151 + l
         else if m == 7 then 181 + l else if m == 8 then 212 + l else if m == 9 then 243 + l
         else if m == 10 then 273 + l else if m == 11 then 304 + l else if m == 12 then 334 + l
         else 365 + l
    decreases m
  {
    if m > 1 {
      DaysBeforeMonthValues(leap, m - 1);
    }
  }

  /** The month-offset formula of lines 112-114 is the 0-based day of the year. */
  lemma DayOfYearTermCounts(leap: bool, m: int, d: int)
    requires 1 <= m <= 12
    ensures DayOfYearTerm(if leap then 1 else 0, m, d) == DaysBeforeMonth(leap, m) + d - 1
  {
    DaysBeforeMonthValues(leap, m);
    MonthOffsetTerm(if leap then 1 else 0, m);
  }

  /** The month part of the term `n` of lines 112-114, month by month. */
  lemma MonthOffsetTerm(s: int, m: int)
    requires 1 <= m <= 12
    ensures DayOfYearTerm(s, m, 1)
      == if m == 1 then 0 else if m == 2 then 31 else if m == 3 then 59 + s
         else if m == 4 then 90 + s else if m == 5 then 120 + s else if m == 6 then 151 + s
         else if m == 7 then 181 + s else if m == 8 then 212 + s else if m == 9 then 243 + s
         else if m == 10 then 273 + s else if m == 11 then 304 + s else 334 + s
  {
    if m <= 2 {
      assert (14 - m) / 12 == 1;
    } else {
      assert (14 - m) / 12 == 0;
      if m <= 3 { assert (3 * m - 7) / 5 == 0; }
      else if m <= 5 { DivModUnique(3 * m - 7, 5, 1, 3 * m - 12); }
      else if m <= 7 { DivModUnique(3 * m - 7, 5, 2, 3 * m - 17); }
      else if m <= 8 { assert (3 * m - 7) / 5 == 3; }
      else if m <= 10 { DivModUnique(3 * m - 7, 5, 4, 3 * m - 27); }
      else { DivModUnique(3 * m - 7, 5, 5, 3 * m - 32); }
    }
  }

  /** The year terms of lines 115-116 count the days of the years before y. */
  lemma {:induction false} YearTermCounts(y: int)
    requires y >= 1
    ensures YearTerm(y) == DaysBeforeYear(y)
    decreases y
  {
    if y > 1 {
      YearTermCounts(y - 1);
      LeapTermIsLeapIndicator(y - 1);
    }
  }

  /** gregorian_to_julian_day_number counts the days since 0001-01-01 (so 0001-01-01 is GregorianOffset). */
  lemma ToJdnCountsDays(date: Date)
    requires IsValidDate(date)
    ensures ToJdn(date) == GregorianOffset + DaysBeforeYear(date.year)
                           + DaysBeforeMonth(IsLeapYear(date.year), date.month) + date.day - 1
  {
    YearTermCounts(date.year);
    LeapTermIsLeapIndicator(date.year);
    DayOfYearTermCounts(IsLeapYear(date.year), date.month, date.day);
  }

  /** 1 January of y + 1 is 365 days after 1 January of y, plus the leap term s of y. */
  lemma YearStartsApart(y: int)
    requires y >= 1
    ensures ToJdn(Date(y + 1, 1, 1)) - ToJdn(Date(y, 1, 1)) == 365 + LeapTerm(y)
  {
    ToJdnCountsDays(Date(y, 1, 1));
    ToJdnCountsDays(Date(y + 1, 1, 1));
    LeapTermIsLeapIndicator(y);
  }

  /** Consecutive days get consecutive JDNs, across month and year ends. */
  lemma ToJdnNextDate(date: Date)
    requires IsValidDate(date)
    ensures IsValidDate(NextDate(date))
    ensures ToJdn(NextDate(date)) == ToJdn(date) + 1
  {
    DayCountNext(date);
    ToJdnCountsDays(date);
    ToJdnCountsDays(NextDate(date));
  }

  /** The day after a valid date is one further in the count of ToJdnCountsDays. */
  lemma DayCountNext(date: Date)
    requires IsValidDate(date)
    ensures IsValidDate(NextDate(date))
    ensures var next := NextDate(date);
      DaysBeforeYear(next.year) + DaysBeforeMonth(IsLeapYear(next.year), next.month) + next.day
      == DaysBeforeYear(date.year) + DaysBeforeMonth(IsLeapYear(date.year), date.month) + date.day + 1
  {
    var leap := IsLeapYear(date.year);
    if date.day < MonthLength(leap, date.month) {
    } else if date.month < 12 {
      assert DaysBeforeMonth(leap, date.month + 1) == DaysBeforeMonth(leap, date.month) + MonthLength(leap, date.month);
    } else {
      DaysBeforeMonthValues(leap, 12);
      assert DaysBeforeYear(date.year + 1) == DaysBeforeYear(date.year) + YearLength(leap);
    }
  }

  // ---------------------------------------------------------------------------
  // Decoding: the pieces of julian_day_number_to_gregorian

  /** The month table holds the month lengths of the year. */
  lemma MonthTableLengths(leap: bool, i: int)
    requires 1 <= i <= 12
    ensures |MonthTable(leap)| == 13 && MonthTable(leap)[i] == MonthLength(leap, i)
  {
  }

  /** The walk of lines 78-82, started in month i <= m, ends on day d of month m. */
  lemma {:induction false} DayWalkFrom(leap: bool, m: int, d: int, i: int, fallback: int)
    requires 1 <= i <= m <= 12 && 1 <= d <= MonthLength(leap, m)
    ensures DayWalk(DaysBeforeMonth(leap, m) - DaysBeforeMonth(leap, i) + d, MonthTable(leap), i, fallback) == d
    decreases m - i
  {
    MonthTableLengths(leap, i);
    if i < m {
      DaysBeforeMonthValues(leap, i);
      DaysBeforeMonthValues(leap, i + 1);
      DaysBeforeMonthValues(leap, m);
      DayWalkFrom(leap, m, d, i + 1, fallback);
    }
  }

  /** Given the 1-based day of the year, the walk of lines 78-82 finds the day of the month. */
  lemma DayWalkFindsDay(leap: bool, m: int, d: int, fallback: int)
    requires 1 <= m <= 12 && 1 <= d <= MonthLength(leap, m)
    ensures DayWalk(DaysBeforeMonth(leap, m) + d, MonthTable(leap), 1, fallback) == d
  {
    DayWalkFrom(leap, m, d, 1, fallback);
  }

  /** The flag t of line 68 picks the January/February formula exactly up to day 58 + s. */
  lemma MonthFormulaBranch(n: int, s: int)
    requires 0 <= s <= 1 && 0 <= n <= 364 + s
    ensures MonthOfDayOfYear(n, s) == if n <= 58 + s then n / 31 + 1 else (5 * (n - s) + 13) / 153 + 1
  {
    var t := (364 + s - n) / 306;
    if n <= 58 + s {
      DivModUnique(364 + s - n, 306, 1, 58 + s - n);
    } else {
      DivModUnique(364 + s - n, 306, 0, 364 + s - n);
    }
  }

  /** The March-based formula of line 69: x is the 0-based day of a common year from March 1 on. */
  lemma MarchBasedMonth(x: int, m: int)
    requires 3 <= m <= 12 && DaysBeforeMonth(false, m) <= x < DaysBeforeMonth(false, m + 1)
    ensures (5 * x + 13) / 153 + 1 == m
  {
    DaysBeforeMonthValues(false, m);
    DaysBeforeMonthValues(false, m + 1);
    DivModUnique(5 * x + 13, 153, m - 1, 5 * x + 13 - 153 * (m - 1));
  }

  /** In a leap year every day from March 1 on is one day later in the year than in a common year. */
  lemma {:induction false} DaysBeforeMonthLeapShift(m: int)
    requires 1 <= m <= 13
    ensures DaysBeforeMonth(true, m) == DaysBeforeMonth(false, m) + (if m >= 3 then 1 else 0)
    decreases m
  {
    if m > 1 {
      DaysBeforeMonthLeapShift(m - 1);
    }
  }

  /** January and February: the first branch of line 69. */
  lemma JanuaryFebruaryMonth(n: int, s: int, m: int)
    requires 0 <= s <= 1 && 1 <= m <= 2 && 31 * (m - 1) <= n < 31 * m && n <= 58 + s
    ensures MonthOfDayOfYear(n, s) == m
  {
    MonthFormulaBranch(n, s);
    DivModUnique(n, 31, m - 1, n - 31 * (m - 1));
  }

  /** March to December: the second branch of line 69, on the day counted as in a common year. */
  lemma MarchToDecemberMonth(n: int, s: int, m: int)
    requires 0 <= s <= 1 && 3 <= m <= 12 && 58 + s < n <= 364 + s
    requires DaysBeforeMonth(false, m) <= n - s < DaysBeforeMonth(false, m + 1)
    ensures MonthOfDayOfYear(n, s) == m
  {
    MonthFormulaBranch(n, s);
    MarchBasedMonth(n - s, m);
  }

  /** With the right leap flag, the month formula of lines 68-69 finds the month of a day of the year. */
  lemma MonthOfDayOfYearFindsMonth(leap: bool, m: int, d: int)
    requires 1 <= m <= 12 && 1 <= d <= MonthLength(leap, m)
    ensures MonthOfDayOfYear(DaysBeforeMonth(leap, m) + d - 1, if leap then 1 else 0) == m
  {
    if leap {
      LeapYearMonth(leap, m, d);
    } else {
      CommonYearMonth(leap, m, d);
    }
  }

  lemma CommonYearMonth(leap: bool, m: int, d: int)
    requires !leap && 1 <= m <= 12 && 1 <= d <= MonthLength(leap, m)
    ensures MonthOfDayOfYear(DaysBeforeMonth(leap, m) + d - 1, if leap then 1 else 0) == m
  {
    var n := DaysBeforeMonth(false, m) + d - 1;
    DaysBeforeMonthValues(false, m);
    if m <= 2 {
      JanuaryFebruaryMonth(n, 0, m);
    } else {
      DaysBeforeMonthValues(false, m + 1);
      MarchToDecemberMonth(n, 0, m);
    }
  }

  lemma LeapYearMonth(leap: bool, m: int, d: int)
    requires leap && 1 <= m <= 12 && 1 <= d <= MonthLength(leap, m)
    ensures MonthOfDayOfYear(DaysBeforeMonth(leap, m) + d - 1, if leap then 1 else 0) == m
  {
    var n := DaysBeforeMonth(true, m) + d - 1;
    DaysBeforeMonthLeapShift(m);
    DaysBeforeMonthValues(false, m);
    if m <= 2 {
      JanuaryFebruaryMonth(n, 1, m);
    } else {
      DaysBeforeMonthLeapShift(m + 1);
      DaysBeforeMonthValues(false, m + 1);
      MarchToDecemberMonth(n, 1, m);
    }
  }

  /**
   * In a common year decoded with the leap flag set, the month formula puts the
   * first day of each month from March on into the month before.
   */
  lemma MonthOfDayOfYearFlagMismatch(m: int, d: int)
    requires 1 <= m <= 12 && 1 <= d <= MonthLength(false, m)
    ensures MonthOfDayOfYear(DaysBeforeMonth(false, m) + d - 1, 1) == if 3 <= m && d == 1 then m - 1 else m
  {
    var n := DaysBeforeMonth(false, m) + d - 1;
    DaysBeforeMonthValues(false, m);
    if m <= 2 {
      JanuaryFebruaryMonth(n, 1, m);
    } else if m == 3 && d == 1 {
      JanuaryFebruaryMonth(n, 1, 2);
    } else if d == 1 {
      DaysBeforeMonthValues(false, m - 1);
      MarchToDecemberMonth(n, 1, m - 1);
    } else {
      DaysBeforeMonthValues(false, m + 1);
      MarchToDecemberMonth(n, 1, m);
    }
  }

  /**
   * Year y - 1 as q 400-year cycles, c centuries, b 4-year blocks and a years: the
   * year terms of ToJdn become whole cycle lengths, and the leap rule reads off the digits.
   */
  lemma CycleDigits(y: int) returns (q: int, c: int, b: int, a: int)
    ensures y - 1 == 400 * q + 100 * c + 4 * b + a
    ensures 0 <= c < 4 && 0 <= b < 25 && 0 <= a < 4
    ensures YearTerm(y) == 146097 * q + 36524 * c + 1461 * b + 365 * a
    ensures y % 4 == 0 <==> a == 3
    ensures y % 100 == 0 <==> a == 3 && b == 24
    ensures y % 400 == 0 <==> a == 3 && b == 24 && c == 3
    ensures y % 2000 == 0 <==> a == 3 && b == 24 && c == 3 && q % 5 == 4
  {
    var x := y - 1;
    q, c, b, a := x / 400, (x % 400) / 100, (x % 400 % 100) / 4, x % 400 % 100 % 4;
    YearTermOfDigits(y, q, c, b, a);
    DivisibilityOfDigits(y, q, c, b, a);
  }

  /** The year terms of ToJdn on the cycle digits of y - 1. */
  lemma YearTermOfDigits(y: int, q: int, c: int, b: int, a: int)
    requires y - 1 == 400 * q + 100 * c + 4 * b + a
    requires 0 <= c < 4 && 0 <= b < 25 && 0 <= a < 4
    ensures YearTerm(y) == 146097 * q + 36524 * c + 1461 * b + 365 * a
  {
    var x := y - 1;
    DivModUnique(x, 4, 100 * q + 25 * c + b, a);
    DivModUnique(x, 100, 4 * q + c, 4 * b + a);
    DivModUnique(x, 400, q, 100 * c + 4 * b + a);
  }

  /** The leap rule's divisibility tests on y, read off the cycle digits of y - 1. */
  lemma DivisibilityOfDigits(y: int, q: int, c: int, b: int, a: int)
    requires y - 1 == 400 * q + 100 * c + 4 * b + a
    requires 0 <= c < 4 && 0 <= b < 25 && 0 <= a < 4
    ensures y % 4 == 0 <==> a == 3
    ensures y % 100 == 0 <==> a == 3 && b == 24
    ensures y % 400 == 0 <==> a == 3 && b == 24 && c == 3
    ensures y % 2000 == 0 <==> a == 3 && b == 24 && c == 3 && q % 5 == 4
  {
    if a == 3 {
      DivModUnique(y, 4, 100 * q + 25 * c + b + 1, 0);
    } else {
      DivModUnique(y, 4, 100 * q + 25 * c + b, a + 1);
    }
    if a == 3 && b == 24 {
      DivModUnique(y, 100, 4 * q + c + 1, 0);
    } else {
      DivModUnique(y, 100, 4 * q + c, 4 * b + a + 1);
    }
    var inner := 100 * c + 4 * b + a + 1;
    var k, j := q / 5, q % 5;
    if inner == 400 {
      DivModUnique(y, 400, q + 1, 0);
      if j == 4 {
        DivModUnique(y, 2000, k + 1, 0);
      } else {
        DivModUnique(y, 2000, k, 400 * (j + 1));
      }
    } else {
      DivModUnique(y, 400, q, inner);
      DivModUnique(y, 2000, k, 400 * j + inner);
    }
  }

  /** The last day of a 2000-year cycle is the last day of a 400-year cycle. */
  lemma TwoThousandYearEnd(x: int)
    requires x % 730485 == 730484
    ensures x % 146097 == 146096
  {
    DivModUnique(x, 146097, 5 * (x / 730485) + 4, 146096);
  }

  /** The cycle residues of lines 58-64 for a day count that stays inside its century. */
  lemma ResiduesInsideCentury(x: int, q: int, c: int, b: int, a: int, doy: int)
    requires 0 <= c < 4 && 0 <= b < 25 && 0 <= a < 4
    requires 0 <= doy <= 365 && (a < 3 ==> doy <= 364)
    requires 1461 * b + 365 * a + doy < 36524
    requires x == 146097 * q + 36524 * c + 1461 * b + 365 * a + doy
    ensures x / 146097 == q && x % 146097 == 36524 * c + 1461 * b + 365 * a + doy
    ensures (x % 146097) / 36524 == c && x % 146097 % 36524 == 1461 * b + 365 * a + doy
    ensures (x % 146097 % 36524) / 1461 == b && x % 146097 % 36524 % 1461 == 365 * a + doy
    ensures x % 730485 / 730484 == 0
  {
    var inner := 1461 * b + 365 * a + doy;
    DivModUnique(x, 146097, q, 36524 * c + inner);
    DivModUnique(36524 * c + inner, 36524, c, inner);
    DivModUnique(inner, 1461, b, 365 * a + doy);
    if x % 730485 == 730484 {
      TwoThousandYearEnd(x);
    }
    DivModUnique(x % 730485, 730484, 0, x % 730485);
  }

  /** Lines 63-64 on the residue of a 4-year block: the day of the year and the leap flag. */
  lemma BlockResidue(a: int, doy: int)
    requires 0 <= a < 4 && 0 <= doy <= 365 && (a < 3 ==> doy <= 364)
    ensures var r4 := 365 * a + doy;
      && r4 % 365 + 365 * (r4 / 1460) == doy
      && r4 / 365 - r4 / 1460 == a
      && r4 / 1095 == if a == 3 then 1 else 0
  {
    var r4 := 365 * a + doy;
    if doy < 365 {
      DivModUnique(r4, 365, a, doy);
      DivModUnique(r4, 1460, 0, r4);
      if a == 3 {
        DivModUnique(r4, 1095, 1, doy);
      } else {
        DivModUnique(r4, 1095, 0, r4);
      }
    } else {
      assert r4 == 1460;
    }
  }

  /**
   * Decoding a day count that stays inside its century's 36524 days: the cycle
   * residues of lines 58-66 give back the digits of the year and the day of the year.
   */
  lemma DecodeInsideCentury(jdn: int, q: int, c: int, b: int, a: int, doy: int)
    requires 0 <= c < 4 && 0 <= b < 25 && 0 <= a < 4
    requires 0 <= doy <= 365 && (a < 3 ==> doy <= 364)
    requires 1461 * b + 365 * a + doy < 36524
    requires jdn == GregorianOffset + 146097 * q + 36524 * c + 1461 * b + 365 * a + doy
    ensures var date := DecodeJdn(jdn);
      && date.year == 400 * q + 100 * c + 4 * b + a + 1
      && date.month == MonthOfDayOfYear(doy, if a == 3 then 1 else 0)
      && date.day == DayWalk(doy + 1, MonthTable(IsLeapYear(date.year)), 1, doy + 1)
  {
    ResiduesInsideCentury(jdn - GregorianOffset, q, c, b, a, doy);
    BlockResidue(a, doy);
  }

  /**
   * Decoding the last day of a 400-year cycle: the century residue wraps to 0,
   * and only at the end of a 2000-year cycle does the guard of line 73 catch it.
   */
  lemma DecodeCycleEnd(jdn: int, q: int)
    requires jdn == GregorianOffset + 146097 * q + 146096
    ensures DecodeJdn(jdn)
         == if q % 5 == 4 then Date(400 * q + 400, 12, 31) else Date(400 * q + 401, 1, 1)
  {
    var D := 146097 * q + 146096;
    DivModUnique(D, 146097, q, 146096);
    var k, j := q / 5, q % 5;
    var r2000 := 146097 * j + 146096;
    assert r2000 < 730485 by {
      assert 0 <= j <= 4;
    }
    DivModUnique(D, 730485, k, r2000);
    assert 146096 % 36524 == 0 && 146096 / 36524 == 4;
    assert MonthOfDayOfYear(0, 0) == 1;
    if j == 4 {
      assert r2000 / 730484 == 1;
    } else {
      DivModUnique(r2000, 730484, 0, r2000);
      assert DayWalk(1, MonthTable(IsLeapYear(400 * q + 401)), 1, 1) == 1;
    }
  }

  // ---------------------------------------------------------------------------
  // Properties of julian_day_number_to_gregorian

  /** The first day of a month from March on, in a century year that is not a leap year. */
  predicate IsCommonCenturyMonthStart(date: Date) {
    date.year % 100 == 0 && date.year % 400 != 0 && 3 <= date.month && date.day == 1
  }

  /** 31 December of a year divisible by 400 but not by 2000. */
  predicate IsShortCycleYearEnd(date: Date) {
    date.year % 400 == 0 && date.year % 2000 != 0 && date.month == 12 && date.day == 31
  }

  /** The dates that julian_day_number_to_gregorian does not give back. */
  predicate IsMisdecoded(date: Date) {
    IsCommonCenturyMonthStart(date) || IsShortCycleYearEnd(date)
  }

  /** The JDN of a valid date, written as cycle digits of its year and its 0-based day of the year. */
  lemma ToJdnAsCycles(date: Date) returns (q: int, c: int, b: int, a: int, doy: int)
    requires IsValidDate(date)
    ensures ToJdn(date) == GregorianOffset + 146097 * q + 36524 * c + 1461 * b + 365 * a + doy
    ensures 0 <= c < 4 && 0 <= b < 25 && 0 <= a < 4
    ensures doy == DaysBeforeMonth(IsLeapYear(date.year), date.month) + date.day - 1
    ensures 0 <= doy < YearLength(IsLeapYear(date.year))
    ensures date.year == 400 * q + 100 * c + 4 * b + a + 1
    ensures date.year % 4 == 0 <==> a == 3
    ensures IsLeapYear(date.year) <==> a == 3 && (b != 24 || c == 3)
    ensures date.year % 100 == 0 && date.year % 400 != 0 <==> a == 3 && b == 24 && c != 3
    ensures date.year % 400 == 0 <==> a == 3 && b == 24 && c == 3
    ensures date.year % 2000 == 0 <==> a == 3 && b == 24 && c == 3 && q % 5 == 4
    ensures date.year % 400 == 0 && date.year % 2000 != 0 <==> a == 3 && b == 24 && c == 3 && q % 5 != 4
    ensures 1461 * b + 365 * a + doy < 36524 || (date.year % 400 == 0 && date.month == 12 && date.day == 31)
    ensures date.month == 12 && date.day == 31 ==> doy == YearLength(IsLeapYear(date.year)) - 1
  {
    var leap := IsLeapYear(date.year);
    q, c, b, a := CycleDigits(date.year);
    LeapTermIsLeapIndicator(date.year);
    DayOfYearTermCounts(leap, date.month, date.day);
    DaysBeforeMonthValues(leap, date.month);
    doy := DaysBeforeMonth(leap, date.month) + date.day - 1;
  }

  /** A year divisible by 100 is divisible by 4. */
  lemma CenturyDividesByFour(y: int)
    ensures y % 100 == 0 ==> y % 4 == 0
  {
    if y % 100 == 0 {
      DivModUnique(y, 4, 25 * (y / 100), 0);
    }
  }

  /** The month and day that lines 68-82 compute from the day of the year of a valid date. */
  lemma MonthAndDayOfDate(date: Date, s: int, doy: int)
    requires IsValidDate(date)
    requires doy == DaysBeforeMonth(IsLeapYear(date.year), date.month) + date.day - 1
    requires s == if date.year % 4 == 0 then 1 else 0
    ensures DayWalk(doy + 1, MonthTable(IsLeapYear(date.year)), 1, doy + 1) == date.day
    ensures MonthOfDayOfYear(doy, s) == if IsCommonCenturyMonthStart(date) then date.month - 1 else date.month
  {
    var leap := IsLeapYear(date.year);
    DayWalkFindsDay(leap, date.month, date.day, doy + 1);
    CenturyDividesByFour(date.year);
    if leap == (s == 1) {
      MonthOfDayOfYearFindsMonth(leap, date.month, date.day);
    } else {
      MonthOfDayOfYearFlagMismatch(date.month, date.day);
    }
  }

  /** Decoding a day count inside its century, given the cycle digits of the date. */
  lemma DecodeDigitsInsideCentury(date: Date, jdn: int, q: int, c: int, b: int, a: int, doy: int)
    requires IsValidDate(date)
    requires jdn == GregorianOffset + 146097 * q + 36524 * c + 1461 * b + 365 * a + doy
    requires 0 <= c < 4 && 0 <= b < 25 && 0 <= a < 4
    requires doy == DaysBeforeMonth(IsLeapYear(date.year), date.month) + date.day - 1
    requires 0 <= doy < YearLength(IsLeapYear(date.year))
    requires date.year == 400 * q + 100 * c + 4 * b + a + 1
    requires date.year % 4 == 0 <==> a == 3
    requires 1461 * b + 365 * a + doy < 36524
    ensures DecodeJdn(jdn)
         == if IsCommonCenturyMonthStart(date) then Date(date.year, date.month - 1, 1) else date
  {
    DecodeInsideCentury(jdn, q, c, b, a, doy);
    MonthAndDayOfDate(date, if a == 3 then 1 else 0, doy);
  }

  /** Decoding any day but the last of a 400-year cycle. */
  lemma DecodeJdnInsideCentury(date: Date)
    requires IsValidDate(date) && !(date.year % 400 == 0 && date.month == 12 && date.day == 31)
    ensures DecodeJdn(ToJdn(date))
         == if IsCommonCenturyMonthStart(date) then Date(date.year, date.month - 1, 1) else date
  {
    var q, c, b, a, doy := ToJdnAsCycles(date);
    DecodeDigitsInsideCentury(date, ToJdn(date), q, c, b, a, doy);
  }

  /** Decoding the last day of a 400-year cycle. */
  lemma DecodeJdnCycleEnd(date: Date)
    requires IsValidDate(date) && date.year % 400 == 0 && date.month == 12 && date.day == 31
    ensures DecodeJdn(ToJdn(date)) == if date.year % 2000 == 0 then date else Date(date.year + 1, 1, 1)
  {
    var q, c, b, a, doy := ToJdnAsCycles(date);
    DecodeCycleEnd(ToJdn(date), q);
  }

  /**
   * Decoding the JDN of a valid date gives the date back, except on two sets of days:
   * in a century year that is not a leap year the first of each month from March on
   * comes back as the first of the month before (the 4-year-block flag s claims a leap
   * year), and 31 December of a year divisible by 400 but not by 2000 comes back as
   * 1 January of the next year (the guard of line 73 only catches 2000-year cycle ends).
   */
  lemma DecodeJdnOfToJdn(date: Date)
    requires IsValidDate(date)
    ensures !IsMisdecoded(date) ==> DecodeJdn(ToJdn(date)) == date
    ensures IsCommonCenturyMonthStart(date) ==> DecodeJdn(ToJdn(date)) == Date(date.year, date.month - 1, 1)
    ensures IsShortCycleYearEnd(date) ==> DecodeJdn(ToJdn(date)) == Date(date.year + 1, 1, 1)
  {
    if date.year % 400 == 0 && date.month == 12 && date.day == 31 {
      DecodeJdnCycleEnd(date);
    } else {
      DecodeJdnInsideCentury(date);
    }
  }

  /** The month formula of lines 68-69 stays in 1..12 on every day of the year. */
  lemma MonthOfDayOfYearRange(n: int, s: int)
    requires 0 <= s <= 1 && 0 <= n <= 364 + s
    ensures 1 <= MonthOfDayOfYear(n, s) <= 12
  {
    MonthFormulaBranch(n, s);
    if n <= 58 + s {
      DivModUnique(n, 31, n / 31, n % 31);
    } else {
      DivModUnique(5 * (n - s) + 13, 153, (5 * (n - s) + 13) / 153, (5 * (n - s) + 13) % 153);
    }
  }

  /** From month i on, the walk of lines 78-82 ends inside a month when n is inside the rest of the year. */
  lemma {:induction false} DayWalkRange(leap: bool, n: int, i: int, fallback: int)
    requires 1 <= i <= 12 && 1 <= n <= DaysBeforeMonth(leap, 13) - DaysBeforeMonth(leap, i)
    ensures 1 <= DayWalk(n, MonthTable(leap), i, fallback) <= 31
    decreases 13 - i
  {
    MonthTableLengths(leap, i);
    if n > MonthTable(leap)[i] {
      DayWalkRange(leap, n - MonthTable(leap)[i], i + 1, fallback) by {
        DaysBeforeMonthValues(leap, i);
        DaysBeforeMonthValues(leap, i + 1);
        DaysBeforeMonthValues(leap, 13);
      }
    }
  }

  /** The residue of a 4-year block reaches its last value 1460 only in a leap year. */
  lemma LastBlockDayIsLeap(x: int)
    requires x % 146097 % 36524 % 1461 == 1460
    ensures IsLeapYear(400 * (x / 146097) + 100 * (x % 146097 / 36524) + 4 * (x % 146097 % 36524 / 1461) + 4)
  {
    var Q, C, B := x / 146097, x % 146097 / 36524, x % 146097 % 36524 / 1461;
    var y := 400 * Q + 100 * C + 4 * B + 4;
    assert B <= 23;
    DivModUnique(y, 4, 100 * Q + 25 * C + B + 1, 0);
    DivModUnique(y, 100, 4 * Q + C, 4 * B + 4);
  }

  /** Bounds on the residues of lines 58-64 for any day count x. */
  lemma ResidueBounds(x: int)
    ensures var r400 := x % 146097; var r100 := r400 % 36524; var r4 := r100 % 1461;
      var n := r4 % 365 + 365 * (r4 / 1460); var s := r4 / 1095;
      && 0 <= s <= 1 && 0 <= n <= 364 + s
      && (x % 730485 == 730484 ==> r400 == 146096 && r100 == 0 && n == 0)
      && x % 730485 / 730484 == (if x % 730485 == 730484 then 1 else 0)
      && (n == 365 ==> IsLeapYear(400 * (x / 146097) + 100 * (r400 / 36524) + 4 * (r100 / 1461) + r4 / 365 - r4 / 1460 + 1))
  {
    var r2000, r400 := x % 730485, x % 146097;
    var r100 := r400 % 36524;
    var r4 := r100 % 1461;
    if r2000 == 730484 {
      TwoThousandYearEnd(x);
    }
    DivModUnique(r2000, 730484, r2000 / 730484, r2000 % 730484);
    if r4 == 1460 {
      LastBlockDayIsLeap(x);
    } else {
      DivModUnique(r4, 1460, 0, r4);
    }
  }

  /**
   * For every JDN, julian_day_number_to_gregorian returns a month in 1..12 and a day in
   * 1..31: the day walk always stops inside a month, or the guard of line 73 fires.
   */
  lemma DecodeJdnRange(jdn: int)
    ensures 1 <= DecodeJdn(jdn).month <= 12 && 1 <= DecodeJdn(jdn).day <= 31
  {
    var x := jdn - GregorianOffset;
    ResidueBounds(x);
    var r4 := x % 146097 % 36524 % 1461;
    var n := r4 % 365 + 365 * (r4 / 1460);
    var s := r4 / 1095;
    MonthOfDayOfYearRange(n, s);
    var leap := IsLeapYear(DecodeJdn(jdn).year);
    if x % 730485 != 730484 {
      DaysBeforeMonthValues(leap, 1);
      DaysBeforeMonthValues(leap, 13);
      DayWalkRange(leap, n + 1, 1, n + 1);
    }
  }

  /** 0001-01-01 is the day of GregorianOffset, both ways. */
  lemma EpochDay()
    ensures ToJdn(Date(1, 1, 1)) == GregorianOffset
    ensures DecodeJdn(GregorianOffset) == Date(1, 1, 1)
  {
    DecodeJdnOfToJdn(Date(1, 1, 1));
  }

  /** Valid dates lie on or after the epoch: the JDN of 0001-01-01. */
  lemma ToJdnAfterEpoch(date: Date)
    requires IsValidDate(date)
    ensures ToJdn(date) >= GregorianOffset
  {
    var q, c, b, a, doy := ToJdnAsCycles(date);
  }

  /** Reference calendar: the date k days after 0001-01-01, reached one NextDate at a time. */
  function DateOfDayCount(k: nat): (date: Date)
    ensures IsValidDate(date)
    ensures ToJdn(date) == GregorianOffset + k
    decreases k
  {
    if k == 0 then Date(1, 1, 1)
    else
      var before := DateOfDayCount(k - 1);
      ToJdnNextDate(before);
      NextDate(before)
  }

  /**
   * Decoding agrees with counting days forward from 0001-01-01, except on the days of
   * DecodeJdnOfToJdn; on every other JDN from the epoch on, ToJdn undoes DecodeJdn.
   */
  lemma DecodeJdnMatchesDayCount(jdn: int)
    requires jdn >= GregorianOffset
    ensures !IsMisdecoded(DateOfDayCount(jdn - GregorianOffset)) ==> DecodeJdn(jdn) == DateOfDayCount(jdn - GregorianOffset)
    ensures !IsMisdecoded(DateOfDayCount(jdn - GregorianOffset)) ==> ToJdn(DecodeJdn(jdn)) == jdn
  {
    var date := DateOfDayCount(jdn - GregorianOffset);
    if !IsMisdecoded(date) {
      DecodeJdnAt(date, jdn);
    }
  }

  /** DecodeJdnOfToJdn for a JDN given by name. */
  lemma DecodeJdnAt(date: Date, jdn: int)
    requires IsValidDate(date) && !IsMisdecoded(date) && ToJdn(date) == jdn
    ensures DecodeJdn(jdn) == date
    ensures ToJdn(DecodeJdn(jdn)) == jdn
  {
    DecodeJdnOfToJdn(date);
  }

  /** DecodeJdn in terms of the intermediate values the source computes. */
  lemma DecodeJdnSteps(jdn: int, r2000: int, r400: int, r100: int, day: int, year: int)
    requires r2000 == (jdn - GregorianOffset) % 730485 && r400 == (jdn - GregorianOffset) % 146097
    requires r100 == r400 % 36524
    requires year == DecodeJdn(jdn).year
    requires var r4 := r100 % 1461; day == r4 % 365 + 365 * (r4 / 1460) + 1 - r2000 / 730484
    ensures DecodeJdn(jdn)
         == if r100 == 0 && day == 0 && r400 != 0 then Date(year, 12, 31)
            else Date(year, DecodeJdn(jdn).month, DayWalk(day, MonthTable(IsLeapYear(year)), 1, day))
  {
  }

  // ---------------------------------------------------------------------------
  // julian_day_number_to_gregorian, step by step

  /**
   * julian_day_number_to_gregorian as the source runs it (lines 44-83): the month
   * lengths sit in a fresh array whose February entry is set for the decoded year,
   * and a loop subtracts month lengths from the day of the year until the rest fits.
   * The month comes from the formula of line 69 alone; the loop never changes it.
   */
  method FromJdn(jdn: int) returns (year: int, month: int, day: int)
    ensures Date(year, month, day) == DecodeJdn(jdn)
    ensures 1 <= month <= 12 && 1 <= day <= 31
  {
    var nMonths := 12;
    var monthDays := new int[13] [0, 31, 28, 31, 30, 31, 30, 31, 31, 30, 31, 30, 31];

    var r2000 := (jdn - GregorianOffset) % 730485;
    var r400 := (jdn - GregorianOffset) % 146097;
    var r100 := r400 % 36524;
    var r4 := r100 % 1461;

    var n := r4 % 365 + 365 * (r4 / 1460);
    var s := r4 / 1095;
    var aprime := 400 * ((jdn - GregorianOffset) / 146097) + 100 * (r400 / 36524) + 4 * (r100 / 1461)
                  + r4 / 365 - r4 / 1460 - r2000 / 730484;
    year := aprime + 1;
    month := MonthOfDayOfYear(n, s);
    n := n + 1 - r2000 / 730484;
    day := n;
    DecodeJdnSteps(jdn, r2000, r400, r100, n, year);

    if r100 == 0 && n == 0 && r400 != 0 {
      month := 12;
      day := 31;
    } else {
      monthDays[2] := if IsLeapYear(year) then 29 else 28;
      assert monthDays[..] == MonthTable(IsLeapYear(year));
      day := WalkMonths(monthDays, nMonths, n);
    }
    DecodeJdnRange(jdn);
  }

  /**
   * The loop of lines 78-82: subtract the lengths in monthDays[1..nMonths] from the
   * day of the year n until the rest fits the current month; the rest is the day.
   * When no month fits, the day stays at n.
   */
  method WalkMonths(monthDays: array<int>, nMonths: int, n: int) returns (day: int)
    requires monthDays.Length == nMonths + 1 && nMonths >= 0
    ensures day == DayWalk(n, monthDays[..], 1, n)
  {
    ghost var table := monthDays[..];
    var rest := n;
    day := n;
    for i := 1 to nMonths + 1
      invariant day == n
      invariant DayWalk(rest, table, i, n) == DayWalk(n, table, 1, n)
    {
      if rest <= monthDays[i] {
        day := rest;
        break;
      }
      rest := rest - monthDays[i];
    }
  }
}
