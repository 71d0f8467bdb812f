/**
 * Facts about integer division used by the calendar modules.
 *
 * Every `/` and `%` of the converter divides by a positive constant. For a positive
 * divisor Dafny's `/` is floor division and `%` leaves a remainder in [0, k), which
 * is exactly Python 2's integer `/` and `%`, so the formulas are written as they stand.
 */
module Arith {

  /** A quotient and remainder pair that fits the division identity is THE pair. */
  lemma DivModUnique(x: int, k: int, q: int, r: int)
    requires 0 < k && 0 <= r < k && x == k * q + r
    ensures x / k == q && x % k == r
  {
    var q', r' := x / k, x % k;
    assert x == k * q' + r';
    if q' < q {
      MulAtLeast(k, q - q');
    } else if q < q' {
      MulAtLeast(k, q' - q);
    }
  }

  lemma MulAtLeast(k: int, z: int)
    requires 0 < k && 1 <= z
    ensures k * z >= k
  {
  }
}
