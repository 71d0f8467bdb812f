# Ethiopian date converter, modelled in Dafny

A model of the Python module `ethiopian_date_converter`, which converts dates
between the Ethiopic calendar (two eras: Amete Mihret, "AM", and Amete Alem,
"AA") and the proleptic Gregorian calendar by way of Julian Day Numbers (JDN),
together with proofs about it.

- `arith.dfy` (`Arith`): uniqueness of floor quotient and remainder. Python 2's
  `/` and `%` on integers floor, which is what Dafny's `/` and `%` do for a
  positive divisor, and every divisor in the source is positive.
- `calendar.dfy` (`Calendar`): the three epoch offsets, the era table, the
  `Date` triple, and the errors the module raises, as a `Result` datatype.
- `ethiopic.dfy` (`Ethiopic`): the Ethiopic JDN encoding and decoding and
  `guessEra`, with a day-by-day reference calendar to measure them against.
- `gregorian.dfy` (`Gregorian`): the Gregorian encoding and decoding. The
  decoder appears twice. `DecodeJdn` is the whole of
  `julian_day_number_to_gregorian` as one expression. The method `FromJdn` is
  the same code as it is written, with the month table as an array that is
  patched in place and the `for`/`break` walk as a loop. It is proved to compute
  `DecodeJdn`.
- `converter.dfy` (`Converter`): `ethiopian_to_gregorian`,
  `gregorian_to_ethiopic` and `converter` on (year, month, day) triples, with
  round trips between the two calendars.

What is proved, in short:

- The Ethiopic encoding counts days exactly. For every valid Ethiopic date, it
  is the era offset plus 365 plus the days of the earlier years and months.
- The Ethiopic decoder inverts the encoding on every valid date. Encoding what
  it decodes gives back every JDN.
- The two eras always differ by exactly 5500 years.
- `guessEra` chooses Amete Mihret exactly when that era gives a positive year.
- The Gregorian encoding counts days exactly. Its leap-day term is 1 in leap
  years and 0 otherwise.
- The Gregorian decoder always answers a month in 1..12 and a day in 1..31.
  It inverts the encoding on every valid date except two families of days:
  - In a century year that is not a leap year (1900, 2100, ...), the first day
    of each month from March to December decodes as the first of the previous
    month. Example: 1900-03-01 comes back as 1900-02-01. The month formula
    is fed the 4-year leap flag `s`, which is 1 in such a year, instead of the
    year's real leap status.
  - 31 December of a year divisible by 400 but not by 2000 (400, 800, 1200, 1600, 2400, ...)
    decodes as 1 January of the next year.
- On these days the source does not give back the date it was given. The model
  keeps that behaviour as written, and the round-trip lemmas state the
  exceptions exactly.
- `ethiopian_to_gregorian`, in any era, converts every Ethiopic date that passes
  validation and whose day falls in Gregorian year 1 or later to the Gregorian
  date with the same JDN, apart from the days above. Earlier days (Amete Alem
  dates before 8 Tir 5493, that is before 5493-05-08) have no valid Gregorian date. For them the model proves only
  the month and day ranges.
- Through `converter`, a Gregorian date accepted by `datetime.date` converts
  to an Ethiopic date and back to itself when converted back in the era
  `guessEra` picks (apart from the days above). So does a
  valid Ethiopic date whose Gregorian day falls in years 1..9999, when its era
  is the one `guessEra` would choose. Past year 9999 the trip back fails,
  because `datetime.date` rejects the Gregorian date.
- In a common year, Pagume 6 passes validation. It converts like 1 Meskerem of
  the next year.
- 1 Meskerem 2000 AM (JDN 2454356) converts to 2007-09-12, and back.

## Model

| member | source | states |
|---|---|---|
| Ethiopic.ToJdn | ethiopian_date_converter/ethiopian_date_converter.py:41 | no contract of its own: the closed formula of line 41, transcribed; its meaning is stated by Ethiopic.ToJdnCountsDays, Ethiopic.YearStart and Ethiopic.ToJdnNextDate |
| Ethiopic.ToJdnCountsDays | ethiopian_date_converter/ethiopian_date_converter.py:41 | the JDN of a valid Ethiopic date is the era offset + 365 + days of all earlier years (summed year by year) + 30 per earlier month + day - 1 |
| Ethiopic.YearStart | ethiopian_date_converter/ethiopian_date_converter.py:41 | 1 Meskerem of year y has JDN era + 365 + the days of years 1..y-1, so 1 Meskerem of year 1 is era + 365 |
| Ethiopic.YearStartsApart | ethiopian_date_converter/ethiopian_date_converter.py:41 | consecutive New Years are 366 days apart exactly when y % 4 == 3, and 365 otherwise |
| Ethiopic.ToJdnNextDate | ethiopian_date_converter/ethiopian_date_converter.py:41 | the day after a valid date is valid and its JDN is one more, across month, Pagume and year ends |
| Ethiopic.CommonPagumeSix | ethiopian_date_converter/ethiopian_date_converter.py:41 | in a common year, Pagume 6 has the JDN of 1 Meskerem of the next year, and decodes as that date |
| Ethiopic.FromJdn | ethiopian_date_converter/ethiopian_date_converter.py:128-133 | the decoded month is in 1..13 and the day in 1..30, at most 6 in Pagume |
| Ethiopic.FromJdnToJdn | ethiopian_date_converter/ethiopian_date_converter.py:128-133 | decoding the JDN of any valid Ethiopic date in the same era gives that date back |
| Ethiopic.ToJdnFromJdn | ethiopian_date_converter/ethiopian_date_converter.py:128-133 | every JDN decodes to a valid date or a year below 1; Pagume 6 only in a leap year; encoding it gives the JDN back |
| Ethiopic.EraDifference | ethiopian_date_converter/ethiopian_date_converter.py:7-8 | the same JDN read in Amete Alem has the Amete Mihret month and day and a year 5500 greater |
| Ethiopic.GuessEra | ethiopian_date_converter/ethiopian_date_converter.py:86-95 | the guess is one of the two era offsets, and it is Amete Mihret exactly when that era gives the JDN a year of at least 1 |
| Gregorian.LeapTerm | ethiopian_date_converter/ethiopian_date_converter.py:110-111 | no contract of its own: the term s, transcribed; Gregorian.LeapTermIsLeapIndicator states its meaning |
| Gregorian.DayOfYearTerm | ethiopian_date_converter/ethiopian_date_converter.py:112-114 | no contract of its own: the terms t and n, transcribed; Gregorian.DayOfYearTermCounts states its meaning |
| Gregorian.YearTerm | ethiopian_date_converter/ethiopian_date_converter.py:115-116 | no contract of its own: the year terms of j, transcribed; Gregorian.YearTermCounts states its meaning |
| Gregorian.ToJdn | ethiopian_date_converter/ethiopian_date_converter.py:98-117 | no contract of its own: gregorian_to_julian_day_number assembled from the three terms; Gregorian.ToJdnCountsDays, Gregorian.YearStartsApart and Gregorian.ToJdnNextDate state its meaning |
| Gregorian.LeapTermIsLeapIndicator | ethiopian_date_converter/ethiopian_date_converter.py:110-111 | the leap term `s` is 1 in a Gregorian leap year and 0 in any other year |
| Gregorian.DayOfYearTermCounts | ethiopian_date_converter/ethiopian_date_converter.py:112-114 | the term `n` is the 0-based day of the year: days of the earlier months, summed month by month, plus day - 1 |
| Gregorian.YearTermCounts | ethiopian_date_converter/ethiopian_date_converter.py:115-116 | the year terms equal the days of years 1..y-1 summed year by year |
| Gregorian.ToJdnCountsDays | ethiopian_date_converter/ethiopian_date_converter.py:98-117 | the JDN of a valid Gregorian date is the epoch offset plus the days before its year and month, plus day - 1 |
| Gregorian.YearStartsApart | ethiopian_date_converter/ethiopian_date_converter.py:110-116 | 1 January of y + 1 is 365 + s days after 1 January of y, s being the leap term of y |
| Gregorian.ToJdnNextDate | ethiopian_date_converter/ethiopian_date_converter.py:98-117 | the day after a valid date is valid and its JDN is one more, across month and year ends |
| Gregorian.MonthOfDayOfYear | ethiopian_date_converter/ethiopian_date_converter.py:68-69 | no contract of its own: the month formula, transcribed; Gregorian.MonthOfDayOfYearFindsMonth and Gregorian.MonthOfDayOfYearFlagMismatch state its meaning |
| Gregorian.MonthOfDayOfYearFindsMonth | ethiopian_date_converter/ethiopian_date_converter.py:68-69 | given the year's own leap flag, the month formula returns the month that contains the day of the year |
| Gregorian.MonthOfDayOfYearFlagMismatch | ethiopian_date_converter/ethiopian_date_converter.py:64-69 | in a common year with the leap flag set to 1, the formula answers m-1 on the first day of a month m from March on, and m otherwise |
| Gregorian.DayWalk | ethiopian_date_converter/ethiopian_date_converter.py:78-82 | no contract of its own: the walk of the loop as a recursive function; Gregorian.DayWalkFindsDay and Gregorian.WalkMonths state its meaning |
| Gregorian.DayWalkFindsDay | ethiopian_date_converter/ethiopian_date_converter.py:78-82 | the walk over the month table turns the 1-based day of the year into the day of the month |
| Gregorian.EpochDay | ethiopian_date_converter/ethiopian_date_converter.py:44-117 | 0001-01-01 encodes to the Gregorian epoch offset, and the epoch offset decodes to 0001-01-01 |
| Gregorian.DecodeJdn | ethiopian_date_converter/ethiopian_date_converter.py:44-83 | no contract of its own: julian_day_number_to_gregorian as one expression; Gregorian.DecodeJdnOfToJdn, Gregorian.DecodeJdnRange, Gregorian.DecodeJdnMatchesDayCount and Gregorian.FromJdn state its meaning |
| Gregorian.DecodeJdnCycleEnd | ethiopian_date_converter/ethiopian_date_converter.py:73-75 | the last day of a 400-year cycle decodes to 31 December in a year divisible by 2000, else to 1 January of the next year |
| Gregorian.DecodeJdnOfToJdn | ethiopian_date_converter/ethiopian_date_converter.py:44-83 | decoding the JDN of a valid date gives it back, except the first of a month from March on in a common century year (answered as the first of the previous month) and 31 December of a year divisible by 400, not 2000 (answered as 1 January of the next year) |
| Gregorian.DecodeJdnRange | ethiopian_date_converter/ethiopian_date_converter.py:44-83 | for every JDN, the decoded month is in 1..12 and the day in 1..31 |
| Gregorian.DecodeJdnMatchesDayCount | ethiopian_date_converter/ethiopian_date_converter.py:44-83 | from the epoch on, the decoder agrees with the reference calendar reached by stepping day by day from 0001-01-01, except on the days above |
| Gregorian.WalkMonths | ethiopian_date_converter/ethiopian_date_converter.py:78-82 | the loop over the month-length array ends on the day the month walk reaches: what is left of the day of the year once it fits a month, or the day of the year itself when no month fits |
| Gregorian.FromJdn | ethiopian_date_converter/ethiopian_date_converter.py:44-83 | the in-place month table and the `for`/`break` walk compute exactly `DecodeJdn`, with month in 1..12 and day in 1..31 |
| Converter.EthiopianDateError | ethiopian_date_converter/ethiopian_date_converter.py:141-148 | validation passes exactly for valid Ethiopic dates and Pagume 6 of any positive year; bad month is reported first, then a year of 0 or below, then a bad day |
| Converter.EthiopianToGregorian | ethiopian_date_converter/ethiopian_date_converter.py:136-151 | it fails exactly when validation does, with validation's error; otherwise month in 1..12 and day in 1..31 |
| Converter.GregorianToEthiopic | ethiopian_date_converter/ethiopian_date_converter.py:154-158 | it succeeds exactly on dates `datetime.date` accepts (years 1..9999); the result is a valid Ethiopic date naming the same JDN in the guessed era |
| Converter.Convert | ethiopian_date_converter/ethiopian_date_converter.py:161-165 | there is no answer exactly when the direction is neither "gregorian" nor "ethiopian"; the unknown-era error is raised exactly for "gregorian" with an era other than "AM" or "AA" |
| Converter.EthiopianToGregorianNamesSameDay | ethiopian_date_converter/ethiopian_date_converter.py:136-151 | every date that passes validation, in any era, converts to the Gregorian date with the same JDN, whenever that day falls in Gregorian year 1 or later and the decoder is right about that date; no era condition |
| Converter.EthiopianThroughGregorian | ethiopian_date_converter/ethiopian_date_converter.py:136-158 | a valid Ethiopic date converts to the Gregorian date naming the same day, which converts back to it, when that Gregorian day falls in years 1..9999, the era is the one that day would be guessed in, and the decoder is right about that Gregorian date |
| Converter.GregorianThroughEthiopic | ethiopian_date_converter/ethiopian_date_converter.py:154-158 | every accepted Gregorian date the decoder is right about converts to an Ethiopic date that converts back to it in the guessed era |
| Converter.CommonPagumeSixConverts | ethiopian_date_converter/ethiopian_date_converter.py:147-151 | Pagume 6 of a common year passes validation and converts like 1 Meskerem of the next year |
| Converter.MillenniumNewYear | ethiopian_date_converter/ethiopian_date_converter.py:161-165 | 2000-01-01 AM converts to 2007-09-12 and 2007-09-12 converts to 2000-01-01 |
| Converter.CenturyMarchFirst | ethiopian_date_converter/ethiopian_date_converter.py:58-83 | 1892-06-22 AM names the same day as 1900-03-01 but converts to 1900-02-01 |

## Left out

- The `string_dates` decorator (lines 17-24) is not modelled. It parses
  "YYYY-MM-DD" with `split` and `int` and formats the answer back into that
  form. The model works on the integer triples directly.
- `datetime.date` (line 156) is replaced by its rule: years 1..9999 and real
  Gregorian month and day. Its `ValueError` is the model's
  `InvalidGregorianDate`.
- `calendar.isleap` (line 46) is replaced by its rule, `Gregorian.IsLeapYear`.
- The `KeyError` of the era lookup (line 163) is the model's `UnknownEra`.
- Each raised `ValueError` is an `Err` value. The model does not keep the
  message text.
- Default parameter values are not modelled.
  - These defaults are fixed to their values: `JD_OFFSET` and `leapYear` of
    `julian_day_number_to_gregorian` (lines 45-46), `JD_OFFSET` of
    `gregorian_to_julian_day_number` (line 100), and `JD_AM` and `JD_AA` of
    `guessEra` (lines 87-88). No caller in the module overrides them.
  - These become explicit arguments with no default: the year, month and day
    defaults of `gregorian_to_julian_day_number` (lines 99-100), `ethiopian_to_gregorian`
    (lines 137-139) and `gregorian_to_ethiopic` (line 155), and the `era` defaults
    of `julian_day_number_to_ethiopic` (line 120) and `ethiopian_to_gregorian`
    (line 140).
  - Likewise `era="AM"` and `to='gregorian'` of `converter` (line 161) become
    explicit arguments. Calling with defaults is calling with those values.
- The era argument of `ethiopian_to_gregorian` can be any integer, and so it is
  in the model. `Converter.EthiopianToGregorianNamesSameDay` holds for every
  era. The round trips back through `gregorian_to_ethiopic` hold only for the
  two named eras, since `guessEra` returns one of them.
- The module relies on Python 2 integer division. Under Python 3, `/` is true
  division and the code computes with floats. That reading is not modelled.
- Non-integer arguments and the `int` parsing failures of the decorator are
  out of scope, because the model's dates are integer triples.
