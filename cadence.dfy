/**
 * The cooperative-yield rule shared by both generators: right after the
 * counter `i` is incremented, the loop calls `gevent.sleep(0)` exactly when
 * `i % piswitch == 0`.  With `piswitch == 0` Python's `%` raises
 * ZeroDivisionError, which ends the generator's greenlet.
 */
module Cadence {
  import PyInt

  /** What the loop does after incrementing its counter. */
  datatype Switch = Yield | Continue | ZeroDivisionError

  /** The decision taken with post-increment counter `i`. */
  function AfterIncrement(i: int, piswitch: int): (r: Switch)
    ensures r == ZeroDivisionError <==> piswitch == 0
    ensures piswitch == 1 ==> r == Yield
  {
    if piswitch == 0 then ZeroDivisionError
    else if PyInt.Mod(i, piswitch) == 0 then Yield
    else Continue
  }

  /** Every counter that is a multiple of a non-zero `piswitch` yields. */
  lemma YieldsAtMultiples(q: int, piswitch: int)
    requires piswitch != 0
    ensures AfterIncrement(q * piswitch, piswitch) == Yield
  {
    PyInt.ModOfMultiple(q, piswitch);
  }

  /** Every counter strictly between two consecutive multiples of `piswitch` does not yield. */
  lemma ContinuesBetweenMultiples(q: int, r: int, piswitch: int)
    requires piswitch != 0
    requires 0 < r < PyInt.Abs(piswitch)
    ensures AfterIncrement(q * piswitch + r, piswitch) == Continue
  {
    PyInt.ModBetweenMultiples(q, r, piswitch);
  }
}
