/**
 * The Ethiopic side of the converter (ethiopian_date_converter.py:27-41, 86-95, 120-133).
 *
 * An Ethiopic year has twelve months of 30 days and a thirteenth month, Pagume,
 * of 5 days, or 6 in a leap year. Year y is a leap year when y % 4 == 3, so the
 * calendar repeats every 1461 days. A day is identified by a Julian Day Number
 * (JDN) measured against one of two era offsets.
 */
module Ethiopic {
  import opened Arith
  import opened Calendar

  /** Year y ends with a sixth day of Pagume. */
  predicate IsLeapYear(y: int) {
    y % 4 == 3
  }

  function YearLength(y: int): int {
    if IsLeapYear(y) then 366 else 365
  }

  /** Days in month m (1..13) of year y. */
  function MonthLength(y: int, m: int): int
    requires 1 <= m <= 13
  {
    if m <= 12 then 30 else if IsLeapYear(y) then 6 else 5
  }

  /** A date that exists in the Ethiopic calendar, counted from year 1. */
  predicate IsValidDate(date: Date) {
    date.year >= 1 && 1 <= date.month <= 13 && 1 <= date.day <= MonthLength(date.year, date.month)
  }

  /** Reference count: the days of years 1..y-1, summed one year at a time. */
  function DaysBeforeYear(y: int): int
    requires y >= 1
    decreases y
  {
    if y == 1 then 0 else DaysBeforeYear(y - 1) + YearLength(y - 1)
  }

  /** The day after `date`, stepping through Pagume into the next year. */
  function NextDate(date: Date): Date
    requires IsValidDate(date)
  {
    if date.day < MonthLength(date.year, date.month) then Date(date.year, date.month, date.day + 1)
    else if date.month < 13 then Date(date.year, date.month + 1, 1)
    else Date(date.year + 1, 1, 1)
  }

  /** ethiopian_coptic_to_julian_day_number: the closed formula of line 41. */
  function ToJdn(date: Date, era: int): int {
    (era + 365) + 365 * (date.year - 1) + date.year / 4 + 30 * date.month + date.day - 31
  }

  /**
   * julian_day_number_to_ethiopic: split the day count since the era into whole
   * 1461-day cycles and a residue r; r / 365 is the year within the cycle, except
   * that r == 1460 is the last day (Pagume 6) of the cycle's fourth, leap year.
   */
  function FromJdn(jdn: int, era: int): (date: Date)
    ensures 1 <= date.month <= 13 && 1 <= date.day <= 30
    ensures date.month == 13 ==> date.day <= 6
  {
    var r := (jdn - era) % 1461;
    var n := r % 365 + 365 * (r / 1460);
    Date(4 * ((jdn - era) / 1461) + r / 365 - r / 1460, n / 30 + 1, n % 30 + 1)
  }

  /** guessEra: Amete Mihret from the JDN of its year 1, Amete Alem before it. */
  function GuessEra(jdn: int): (era: int)
    ensures era == AmeteMihretOffset || era == AmeteAlemOffset
    ensures era == AmeteMihretOffset <==> FromJdn(jdn, AmeteMihretOffset).year >= 1
  {
    MihretYearSign(jdn);
    if jdn >= AmeteMihretOffset + 365 then AmeteMihretOffset else AmeteAlemOffset
  }

  /** In the Mihret era the year is positive from the JDN of 1-01-01 on. */
  lemma MihretYearSign(jdn: int)
    ensures FromJdn(jdn, AmeteMihretOffset).year >= 1 <==> jdn >= AmeteMihretOffset + 365
  {
  }

  /** From the Gregorian epoch on, both eras give a positive year. */
  lemma YearPositiveAfter(jdn: int, era: int)
    requires jdn >= GregorianOffset && (era == AmeteMihretOffset || era == AmeteAlemOffset)
    requires era == AmeteMihretOffset ==> jdn >= AmeteMihretOffset + 365
    ensures FromJdn(jdn, era).year >= 1
  {
    MihretYearSign(jdn);
    DivModUnique(jdn - era, 1461, (jdn - era) / 1461, (jdn - era) % 1461);
  }

  /** Splitting y - 1 into 4-year blocks turns the year terms of ToJdn into whole cycles. */
  lemma YearTerms(y: int) returns (q: int, k: int)
    ensures y == 4 * q + k && 0 <= k < 4
    ensures 365 * (y - 1) + y / 4 + 365 == 1461 * q + 365 * k
    ensures IsLeapYear(y) <==> k == 3
  {
    q, k := y / 4, y % 4;
    DivModUnique(y, 4, q, k);
  }

  // ---------------------------------------------------------------------------
  // Properties

  /** FromJdn undoes ToJdn on every valid date of either era. */
  lemma {:induction false} FromJdnToJdn(date: Date, era: int)
    requires IsValidDate(date)
    ensures FromJdn(ToJdn(date, era), era) == date
  {
    var q, k := YearTerms(date.year);
    var doy := 30 * (date.month - 1) + date.day - 1;
    var r := 365 * k + doy;
    assert ToJdn(date, era) - era == 1461 * q + r;
    FromJdnByCycle(ToJdn(date, era), era, q, r);
    if doy < 365 {
      DivModUnique(r, 365, k, doy);
      DivModUnique(doy, 30, date.month - 1, date.day - 1);
      assert r / 1460 == 0;
    } else {
      assert k == 3 && r == 1460 && date.month == 13 && date.day == 6;
    }
  }

  /** FromJdn on a day count written as whole 1461-day cycles and a residue. */
  lemma FromJdnByCycle(jdn: int, era: int, q: int, r: int)
    requires jdn - era == 1461 * q + r && 0 <= r < 1461
    ensures var n := r % 365 + 365 * (r / 1460);
            FromJdn(jdn, era) == Date(4 * q + r / 365 - r / 1460, n / 30 + 1, n % 30 + 1)
  {
    DivModUnique(jdn - era, 1461, q, r);
  }

  /** Pagume 6 of a common year, accepted by the validator, comes back as 1-01 of the next year. */
  lemma {:induction false} CommonPagumeSix(y: int, era: int)
    requires y >= 1 && !IsLeapYear(y)
    ensures ToJdn(Date(y, 13, 6), era) == ToJdn(Date(y + 1, 1, 1), era)
    ensures FromJdn(ToJdn(Date(y, 13, 6), era), era) == Date(y + 1, 1, 1)
  {
    var q, k := YearTerms(y);
    var q', k' := YearTerms(y + 1);
    assert q' == q && k' == k + 1;
    FromJdnToJdn(Date(y + 1, 1, 1), era);
  }

  /** ToJdn undoes FromJdn on every JDN: each day has exactly one Ethiopic name per era. */
  lemma {:induction false} ToJdnFromJdn(jdn: int, era: int)
    ensures IsValidDate(FromJdn(jdn, era)) || FromJdn(jdn, era).year < 1
    ensures FromJdn(jdn, era).month == 13 && FromJdn(jdn, era).day == 6 ==> IsLeapYear(FromJdn(jdn, era).year)
    ensures ToJdn(FromJdn(jdn, era), era) == jdn
  {
    var x := jdn - era;
    var Q, r := x / 1461, x % 1461;
    var date := FromJdn(jdn, era);
    var n := r % 365 + 365 * (r / 1460);
    if r < 1460 {
      DivModUnique(r, 365, r / 365, r % 365);
      var q, k := YearTerms(date.year);
      assert date.year == 4 * Q + r / 365;
      DivModUnique(date.year, 4, Q, r / 365);
    } else {
      var q, k := YearTerms(date.year);
      assert date.year == 4 * Q + 3;
      DivModUnique(date.year, 4, Q, 3);
    }
    DivModUnique(n, 30, n / 30, n % 30);
  }

  /** ToJdn counts days: the era's epoch year plus whole years plus the position in the year. */
  lemma {:induction false} ToJdnCountsDays(date: Date, era: int)
    requires IsValidDate(date)
    ensures ToJdn(date, era) == era + 365 + DaysBeforeYear(date.year) + 30 * (date.month - 1) + date.day - 1
  {
    YearStart(date.year, era);
  }

  lemma {:induction false} YearStart(y: int, era: int)
    requires y >= 1
    ensures ToJdn(Date(y, 1, 1), era) == era + 365 + DaysBeforeYear(y)
    decreases y
  {
    if y > 1 {
      YearStart(y - 1, era);
      var q, k := YearTerms(y - 1);
      var q', k' := YearTerms(y);
      if k == 3 { assert q' == q + 1 && k' == 0; } else { assert q' == q && k' == k + 1; }
    }
  }

  /** Consecutive New Years are a year length apart: 366 days exactly when y % 4 == 3. */
  lemma YearStartsApart(y: int, era: int)
    requires y >= 1
    ensures ToJdn(Date(y + 1, 1, 1), era) - ToJdn(Date(y, 1, 1), era) == if y % 4 == 3 then 366 else 365
  {
    YearStart(y, era);
    YearStart(y + 1, era);
  }

  /** Consecutive days get consecutive JDNs, across month ends, Pagume and year ends. */
  lemma {:induction false} ToJdnNextDate(date: Date, era: int)
    requires IsValidDate(date)
    ensures IsValidDate(NextDate(date))
    ensures ToJdn(NextDate(date), era) == ToJdn(date, era) + 1
  {
    ToJdnCountsDays(date, era);
    ToJdnCountsDays(NextDate(date), era);
  }

  /** The two eras name the same day with the same month and day, 5500 years apart. */
  lemma {:induction false} EraDifference(jdn: int)
    ensures FromJdn(jdn, AmeteAlemOffset)
         == Date(FromJdn(jdn, AmeteMihretOffset).year + 5500, FromJdn(jdn, AmeteMihretOffset).month,
                 FromJdn(jdn, AmeteMihretOffset).day)
  {
    var x := jdn - AmeteMihretOffset;
    assert jdn - AmeteAlemOffset == x + 1461 * 1375;
    DivModUnique(x + 1461 * 1375, 1461, x / 1461 + 1375, x % 1461);
  }
}
