/**
 * Shared vocabulary of the converter: the three epoch constants, a calendar date
 * as a (year, month, day) triple, and the outcome of a conversion that may fail.
 */
module Calendar {

  /** Julian Day Number anchoring the Amete Alem era (ethiopian_date_converter.py:7). */
  const AmeteAlemOffset: int := -285019

  /** Julian Day Number anchoring the Amete Mihret era (ethiopian_date_converter.py:8). */
  const AmeteMihretOffset: int := 1723856

  /** Julian Day Number of proleptic Gregorian 0001-01-01 (ethiopian_date_converter.py:9). */
  const GregorianOffset: int := 1721426

  /** The era labels understood by the dispatcher (ethiopian_date_converter.py:11-14). */
  const EraOffsets: map<string, int> := map["AM" := AmeteMihretOffset, "AA" := AmeteAlemOffset]

  /** A date of either calendar; which one is clear from the function that made it. */
  datatype Date = Date(year: int, month: int, day: int)

  /** The ways a conversion fails. */
  datatype Error =
    | InvalidMonth          // Ethiopic month outside 1..13
    | InvalidYear           // Ethiopic year <= 0
    | InvalidDay            // Ethiopic day outside 1..30, or outside 1..6 in month 13
    | InvalidGregorianDate  // rejected by the Gregorian date constructor
    | UnknownEra            // era label missing from EraOffsets

  datatype Result<T> = Ok(value: T) | Err(error: Error)

  datatype Option<T> = None | Some(value: T)
}
