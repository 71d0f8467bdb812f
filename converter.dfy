/**
 * The public conversions of the converter (ethiopian_date_converter.py:136-165),
 * on (year, month, day) triples: the string wrapper that parses and formats
 * "YYYY-MM-DD" is not part of this model.
 */
module Converter {
  import opened Calendar
  import Gregorian
  import Ethiopic

  /** What `converter` hands back: a converted date, a raised error, or Python's None. */
  datatype Answer = Converted(date: Date) | Raised(error: Error) | NoneReturned

  /**
   * The checks at the head of ethiopian_to_gregorian (lines 141-148), in the order the
   * source makes them; None when all pass. Pagume 6 passes in every year, leap or not.
   */
  function EthiopianDateError(date: Date): (e: Option<Error>)
    ensures e.None? <==> Ethiopic.IsValidDate(date) || (date.year >= 1 && date.month == 13 && date.day == 6)
    ensures e == Some(InvalidMonth) <==> !(1 <= date.month <= 13)
    ensures e == Some(InvalidYear) <==> 1 <= date.month <= 13 && date.year <= 0
    ensures e == Some(InvalidDay) <==> 1 <= date.month <= 13 && date.year >= 1
                                       && !(1 <= date.day <= (if date.month == 13 then 6 else 30))
  {
    if !(1 <= date.month <= 13) then Some(InvalidMonth)
    else if date.year <= 0 then Some(InvalidYear)
    else if !(1 <= date.day <= 30) then Some(InvalidDay)
    else if date.month == 13 && !(1 <= date.day <= 6) then Some(InvalidDay)
    else None
  }

  /**
   * ethiopian_to_gregorian (lines 136-151): validate, then decode the JDN of the
   * Ethiopic date in the given era. The decoding is Gregorian.DecodeJdn, the
   * function that Gregorian.FromJdn is proved to compute.
   */
  function EthiopianToGregorian(date: Date, era: int): (r: Result<Date>)
    ensures r.Err? <==> EthiopianDateError(date).Some?
    ensures r.Err? ==> r.error == EthiopianDateError(date).value
    ensures r.Ok? ==> 1 <= r.value.month <= 12 && 1 <= r.value.day <= 31
  {
    match EthiopianDateError(date)
    case Some(e) => Err(e)
    case None =>
      var jdn := Ethiopic.ToJdn(date, era);
      Gregorian.DecodeJdnRange(jdn);
      Ok(Gregorian.DecodeJdn(jdn))
  }

  /** The year range of Python's datetime.date, which validates Gregorian input. */
  const MinYear: int := 1
  const MaxYear: int := 9999

  /**
   * gregorian_to_ethiopic (lines 154-158): the date must be one datetime.date accepts;
   * its JDN is named in the era guessed from the JDN. The answer is a real Ethiopic
   * date of that era, with a positive year, naming the same day.
   */
  function GregorianToEthiopic(date: Date): (r: Result<Date>)
    ensures r.Ok? <==> Gregorian.IsValidDate(date) && date.year <= MaxYear
    ensures r.Err? ==> r.error == InvalidGregorianDate
    ensures r.Ok? ==> Ethiopic.IsValidDate(r.value)
    ensures r.Ok? ==> Ethiopic.ToJdn(r.value, Ethiopic.GuessEra(Gregorian.ToJdn(date))) == Gregorian.ToJdn(date)
  {
    if !(Gregorian.IsValidDate(date) && MinYear <= date.year <= MaxYear) then Err(InvalidGregorianDate)
    else
      var jdn := Gregorian.ToJdn(date);
      Gregorian.ToJdnAfterEpoch(date);
      Ethiopic.ToJdnFromJdn(jdn, Ethiopic.GuessEra(jdn));
      Ethiopic.YearPositiveAfter(jdn, Ethiopic.GuessEra(jdn));
      Ok(Ethiopic.FromJdn(jdn, Ethiopic.GuessEra(jdn)))
  }

  function AsAnswer(r: Result<Date>): Answer {
    match r
    case Ok(date) => Converted(date)
    case Err(e) => Raised(e)
  }

  /**
   * converter (lines 161-165): "gregorian" looks the era label up first and fails on an
   * unknown one; "ethiopian" ignores the label; any other direction falls off the end.
   */
  function Convert(date: Date, era: string, to: string): (a: Answer)
    ensures a == NoneReturned <==> to != "gregorian" && to != "ethiopian"
    ensures a == Raised(UnknownEra) <==> to == "gregorian" && era != "AM" && era != "AA"
  {
    if to == "gregorian" then
      if era in EraOffsets then AsAnswer(EthiopianToGregorian(date, EraOffsets[era])) else Raised(UnknownEra)
    else if to == "ethiopian" then AsAnswer(GregorianToEthiopic(date))
    else NoneReturned
  }

  /** The label `converter` accepts for an era offset. */
  function EraLabel(era: int): string {
    if era == AmeteMihretOffset then "AM" else "AA"
  }

  /**
   * Every date that passes validation, in any era, converts to the Gregorian date
   * naming the same day, as long as the decoder is right about that Gregorian date.
   */
  lemma EthiopianToGregorianNamesSameDay(date: Date, era: int, g: Date)
    requires EthiopianDateError(date).None?
    requires Gregorian.IsValidDate(g) && !Gregorian.IsMisdecoded(g)
    requires Gregorian.ToJdn(g) == Ethiopic.ToJdn(date, era)
    ensures EthiopianToGregorian(date, era) == Ok(g)
  {
    Gregorian.DecodeJdnOfToJdn(g);
  }

  /**
   * Ethiopic to Gregorian and back. Given the Gregorian date g naming the same day as a
   * valid Ethiopic date in the era its own JDN would be guessed in, converting the
   * Ethiopic date gives g, and converting g gives the Ethiopic date back, as long as
   * the Gregorian decoder is right about g.
   */
  lemma EthiopianThroughGregorian(date: Date, eraName: string, g: Date)
    requires Ethiopic.IsValidDate(date) && eraName in EraOffsets
    requires Gregorian.IsValidDate(g) && g.year <= MaxYear && !Gregorian.IsMisdecoded(g)
    requires Gregorian.ToJdn(g) == Ethiopic.ToJdn(date, EraOffsets[eraName])
    requires Ethiopic.GuessEra(Gregorian.ToJdn(g)) == EraOffsets[eraName]
    ensures Convert(date, eraName, "gregorian") == Converted(g)
    ensures Convert(g, eraName, "ethiopian") == Converted(date)
  {
    Gregorian.DecodeJdnOfToJdn(g);
    Ethiopic.FromJdnToJdn(date, EraOffsets[eraName]);
  }

  /**
   * Gregorian to Ethiopic and back: every date datetime.date accepts, apart from the
   * days the decoder gets wrong, comes back from the Ethiopic date it converts to,
   * read in the era that date was given in.
   */
  lemma GregorianThroughEthiopic(g: Date)
    requires Gregorian.IsValidDate(g) && g.year <= MaxYear && !Gregorian.IsMisdecoded(g)
    ensures Convert(g, "AM", "ethiopian").Converted?
    ensures var e := Convert(g, "AM", "ethiopian").date;
            Convert(e, EraLabel(Ethiopic.GuessEra(Gregorian.ToJdn(g))), "gregorian") == Converted(g)
  {
    Gregorian.DecodeJdnOfToJdn(g);
  }

  /** The Ethiopian millennium: 1 Meskerem 2000 AM is 12 September 2007. */
  lemma MillenniumNewYear()
    ensures Convert(Date(2000, 1, 1), "AM", "gregorian") == Converted(Date(2007, 9, 12))
    ensures Convert(Date(2007, 9, 12), "AM", "ethiopian") == Converted(Date(2000, 1, 1))
  {
    assert Ethiopic.ToJdn(Date(2000, 1, 1), AmeteMihretOffset) == 2454356;
    assert Gregorian.ToJdn(Date(2007, 9, 12)) == 2454356;
    EthiopianThroughGregorian(Date(2000, 1, 1), "AM", Date(2007, 9, 12));
  }

  /**
   * Pagume 6 passes validation in a common year too, where it is the same day as
   * 1 Meskerem of the next year, and converts to the same Gregorian date.
   */
  lemma CommonPagumeSixConverts(year: int, era: int)
    requires year >= 1 && !Ethiopic.IsLeapYear(year)
    ensures EthiopianDateError(Date(year, 13, 6)).None?
    ensures EthiopianToGregorian(Date(year, 13, 6), era) == EthiopianToGregorian(Date(year + 1, 1, 1), era)
  {
    Ethiopic.CommonPagumeSix(year, era);
  }

  /**
   * 22 Yekatit 1892 AM is 1 March 1900, but the decoder answers 1 February 1900:
   * 1900 is a common century year and this is the first day of a month.
   */
  lemma CenturyMarchFirst()
    ensures Ethiopic.ToJdn(Date(1892, 6, 22), AmeteMihretOffset) == Gregorian.ToJdn(Date(1900, 3, 1))
    ensures Convert(Date(1892, 6, 22), "AM", "gregorian") == Converted(Date(1900, 2, 1))
  {
    Gregorian.DecodeJdnOfToJdn(Date(1900, 3, 1));
  }
}
