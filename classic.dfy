/**
 * The Madhava–Leibniz generator (`pi_approx_classic`).
 *
 * The running sum `S` is a `Decimal` divided with the context's rounding in
 * the program; here it is a `real`, an exact-rational idealisation with no
 * rounding at any precision.
 */
module Classic {
  import Cadence

  /** The loop's local accumulators `S`, `i` and `sign`. */
  datatype State = State(s: real, i: int, sign: int)

  /** The value handed to `evt.set`: `{'pi': ..., 'i': ...}`. */
  datatype Record = Record(pi: real, i: int)

  /** `S, i, sign = 0, 0, 1`. */
  const Start: State := State(0.0, 0, 1)

  /** The inner helper `pi(ppi)`: four times the partial sum. */
  function Estimate(s: real): real
  {
    4.0 * s
  }

  /**
   * One pass of the loop body up to the yield check: add `sign / (2i + 1)`
   * to `S`, publish the estimate with the counter as it was, then increment
   * the counter and flip the sign.
   */
  function Step(st: State): (State, Record)
  {
    var s := st.s + st.sign as real / (2 * st.i + 1) as real;
    (State(s, st.i + 1, -st.sign), Record(Estimate(s), st.i))
  }

  /** `(-1)^j`, the sign of the `j`-th term. */
  function SignAt(j: nat): int
  {
    if j % 2 == 0 then 1 else -1
  }

  /** The exact partial sum `Σ_{j < n} (-1)^j / (2j + 1)`. */
  function LeibnizSum(n: nat): real
  {
    if n == 0 then 0.0 else LeibnizSum(n - 1) + SignAt(n - 1) as real / (2 * (n - 1) + 1) as real
  }

  /** The state after `n` iterations, in closed form. */
  function At(n: nat): State
  {
    State(LeibnizSum(n), n, SignAt(n))
  }

  /** The record published on iteration `k` (counting from 0). */
  function RecordAt(k: nat): Record
  {
    Record(Estimate(LeibnizSum(k + 1)), k)
  }

  /** The loop starts in the closed form for zero iterations. */
  lemma StartIsAt()
    ensures Start == At(0)
  {
  }

  /** One step takes the closed form for `n` iterations to the one for `n + 1` and publishes record `n`. */
  lemma StepAt(n: nat)
    ensures Step(At(n)) == (At(n + 1), RecordAt(n))
  {
    assert SignAt(n + 1) == -SignAt(n);
  }

  /**
   * Runs the generator for at most `n` iterations, as the scheduler would let
   * it, and returns the final state, every record it published in order, and
   * the yield decision taken after each increment.  With `piswitch == 0` the
   * first yield check raises ZeroDivisionError and the generator stops after
   * publishing one record.
   */
  method Run(n: nat, piswitch: int) returns (st: State, published: seq<Record>, switches: seq<Cadence.Switch>)
    ensures |published| == |switches| == (if piswitch == 0 && n > 0 then 1 else n)
    ensures st == At(|published|)
    ensures st.i == |published| && st.sign == SignAt(|published|)
    ensures forall k :: 0 <= k < |published| ==> published[k] == RecordAt(k)
    ensures forall k :: 0 <= k < |switches| ==> switches[k] == Cadence.AfterIncrement(k + 1, piswitch)
  {
    st, published, switches := Start, [], [];
    StartIsAt();
    while st.i < n
      invariant 0 <= st.i <= n
      invariant piswitch == 0 ==> st.i == 0
      invariant st == At(st.i)
      invariant |published| == |switches| == st.i
      invariant forall k :: 0 <= k < |published| ==> published[k] == RecordAt(k)
      invariant forall k :: 0 <= k < |switches| ==> switches[k] == Cadence.AfterIncrement(k + 1, piswitch)
    {
      StepAt(st.i);
      var next := Step(st);
      st, published := next.0, published + [next.1];
      var sw := Cadence.AfterIncrement(st.i, piswitch);
      switches := switches + [sw];
      if sw == Cadence.ZeroDivisionError {
        break;
      }
    }
  }

  /**
   * Each estimate from the third on lies strictly between the two before it:
   * the partial sums alternate around their limit with shrinking gaps.
   */
  lemma {:induction false} BetweenPrevious(n: nat)
    requires n >= 2
    ensures SignAt(n) == 1 ==> LeibnizSum(n - 2) < LeibnizSum(n) < LeibnizSum(n - 1)
    ensures SignAt(n) == -1 ==> LeibnizSum(n - 1) < LeibnizSum(n) < LeibnizSum(n - 2)
  {
    var a, b := (2 * (n - 2) + 1) as real, (2 * (n - 1) + 1) as real;
    var l0 := LeibnizSum(n - 2);
    assert LeibnizSum(n - 1) == l0 + SignAt(n - 2) as real / a;
    assert LeibnizSum(n) == LeibnizSum(n - 1) + SignAt(n - 1) as real / b;
    Shrinking(a, b);
    if SignAt(n) == 1 {
      assert SignAt(n - 2) == 1 && SignAt(n - 1) == -1;
    } else {
      assert SignAt(n - 2) == -1 && SignAt(n - 1) == 1;
    }
  }

  /** Two consecutive terms of opposite sign: the second is smaller than the first. */
  lemma Shrinking(a: real, b: real)
    requires 1.0 <= a < b
    ensures 0.0 < 1.0 / b < 1.0 / a
    ensures -1.0 / a < -1.0 / b < 0.0
    ensures 1.0 / a == -(-1.0 / a) && 1.0 / b == -(-1.0 / b)
  {
  }
}
