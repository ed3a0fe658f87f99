/**
 * The Chudnovsky generator (`pi_approx_ng`).
 *
 * `K`, `M`, `L`, `X` and `i` are exact Python integers.  `S` is a `Decimal`
 * in the program, divided with the context's rounding; here it is a `real`,
 * an exact-rational idealisation.  The published estimate
 * `426880 * sqrt(10005) / S` needs a square root and is not modelled: a
 * record carries `S` itself.
 */
module Chudnovsky {
  import PyInt
  import Cadence

  /** `L += 545140134`. */
  const LStep: int := 545140134
  /** `X *= -262537412640768000`, that is `-(640320^3)`. */
  const XFactor: int := -262537412640768000

  /** The loop's local accumulators `K, M, L, X, S, i`. */
  datatype State = State(k: int, m: int, l: int, x: int, s: real, i: int)

  /** The value handed to `evt.set`, with the series sum in place of the estimate computed from it. */
  datatype Record = Record(s: real, i: int)

  /** `K, M, L, X, S, i = 6, 1, 13591409, 1, 13591409, 1`. */
  const Start: State := State(6, 1, 13591409, 1, 13591409.0, 1)

  /**
   * One pass of the loop body up to the yield check: update `M`, `L` and `X`,
   * add `M * L / X` to `S`, publish with the counter as it was, then advance
   * `K` and `i`.  The two divisors, `i ** 3` and the new `X`, must be non-zero
   * (Python would raise ZeroDivisionError, Decimal DivisionByZero).
   */
  function Step(st: State): (State, Record)
    requires st.i != 0 && st.x != 0
  {
    assert PyInt.Cube(st.i) != 0 by { CubeNonZero(st.i); }
    var m := PyInt.FloorDiv((PyInt.Cube(st.k) - 16 * st.k) * st.m, PyInt.Cube(st.i));
    var l := st.l + LStep;
    var x := st.x * XFactor;
    var s := st.s + (m * l) as real / x as real;
    (State(st.k + 12, m, l, x, s, st.i + 1), Record(s, st.i))
  }

  lemma CubeNonZero(a: int)
    requires a != 0
    ensures PyInt.Cube(a) != 0
  {
    assert a * a > 0;
    if a > 0 { assert a * a * a > 0; } else { assert a * a * a < 0; }
  }

  // ---------------------------------------------------------------------
  // Closed forms

  function Fact(n: nat): (r: nat)
    ensures r >= 1
  {
    if n == 0 then 1 else n * Fact(n - 1)
  }

  /** Binomial coefficient by Pascal's rule. */
  function Binom(n: nat, k: nat): nat
  {
    if k == 0 then 1 else if n == 0 then 0 else Binom(n - 1, k - 1) + Binom(n - 1, k)
  }

  /** `M` after `n` iterations: `(6n)! / ((3n)! (n!)^3)`, written as a product of binomials so that it is an integer by construction. */
  function MAt(n: nat): nat
  {
    Binom(6 * n, 3 * n) * Binom(3 * n, n) * Binom(2 * n, n)
  }

  function KAt(n: nat): int { 6 + 12 * n }
  function LAt(n: nat): int { 13591409 + LStep * n }
  function XAt(n: nat): int { PyInt.Pow(XFactor, n) }

  /** The `j`-th term `M_j * L_j / X_j` of the Chudnovsky series. */
  function Term(j: nat): real
  {
    PyInt.PowSign(XFactor, j);
    (MAt(j) * LAt(j)) as real / XAt(j) as real
  }

  /** `Σ_{j = 0}^{n} M_j * L_j / X_j`. */
  function Series(n: nat): real
  {
    if n == 0 then Term(0) else Series(n - 1) + Term(n)
  }

  /** The state after `n` iterations, in closed form. */
  function At(n: nat): State
  {
    State(KAt(n), MAt(n), LAt(n), XAt(n), Series(n), n + 1)
  }

  /** The record published on iteration `k` (counting from 0): it carries the counter `k + 1`. */
  function RecordAt(k: nat): Record
  {
    Record(Series(k + 1), k + 1)
  }

  // ---------------------------------------------------------------------
  // Binomials and factorials

  lemma {:induction false} BinomAbove(n: nat, k: nat)
    requires k > n
    ensures Binom(n, k) == 0
  {
    if n > 0 {
      BinomAbove(n - 1, k - 1);
      BinomAbove(n - 1, k);
    }
  }

  lemma {:induction false} BinomDiagonal(n: nat)
    ensures Binom(n, n) == 1
  {
    if n > 0 {
      BinomDiagonal(n - 1);
      BinomAbove(n - 1, n);
    }
  }

  /** `C(n, k) * k! * (n - k)! == n!`. */
  lemma {:induction false} BinomFact(n: nat, k: nat)
    requires k <= n
    ensures Binom(n, k) * Fact(k) * Fact(n - k) == Fact(n)
  {
    if k == 0 {
    } else if k == n {
      BinomDiagonal(n);
    } else {
      BinomFact(n - 1, k - 1);
      BinomFact(n - 1, k);
      PascalStep(Binom(n - 1, k - 1), Binom(n - 1, k), k, n - k,
                 Fact(k - 1), Fact(n - k - 1), Fact(n - 1));
    }
  }

  /** The arithmetic of Pascal's rule: `(a + b) * k! * m!` with `a`, `b` the two smaller binomials. */
  lemma PascalStep(a: int, b: int, k: int, m: int, fk1: int, fm1: int, f: int)
    requires a * fk1 * (m * fm1) == f
    requires b * (k * fk1) * fm1 == f
    ensures (a + b) * (k * fk1) * (m * fm1) == (k + m) * f
  {
    calc {
      (a + b) * (k * fk1) * (m * fm1);
      a * (k * fk1) * (m * fm1) + b * (k * fk1) * (m * fm1);
      { assert a * (k * fk1) * (m * fm1) == k * (a * fk1 * (m * fm1)); }
      k * f + b * (k * fk1) * (m * fm1);
      { assert b * (k * fk1) * (m * fm1) == m * (b * (k * fk1) * fm1); }
      k * f + m * f;
    }
  }

  /** `M_n * (3n)! * (n!)^3 == (6n)!`. */
  lemma MAtFact(n: nat)
    ensures MAt(n) * Fact(3 * n) * Fact(n) * Fact(n) * Fact(n) == Fact(6 * n)
  {
    BinomFact(2 * n, n);
    BinomFact(3 * n, n);
    BinomFact(6 * n, 3 * n);
    MultinomialArith(Binom(6 * n, 3 * n), Binom(3 * n, n), Binom(2 * n, n),
                     Fact(n), Fact(2 * n), Fact(3 * n), Fact(6 * n));
  }

  /** `(6n)! / ((3n)! (n!)^3) == C(6n, 3n) * C(3n, n) * C(2n, n)`, as arithmetic on the factorials. */
  lemma MultinomialArith(b6: int, b3: int, b2: int, f1: int, f2: int, f3: int, f6: int)
    requires b2 * f1 * f1 == f2
    requires b3 * f1 * f2 == f3
    requires b6 * f3 * f3 == f6
    ensures b6 * b3 * b2 * f3 * f1 * f1 * f1 == f6
  {
    calc {
      b6 * b3 * b2 * f3 * f1 * f1 * f1;
      b6 * f3 * (b3 * f1 * (b2 * f1 * f1));
      b6 * f3 * (b3 * f1 * f2);
    }
  }

  lemma FactStep(n: nat)
    ensures Fact(n + 1) == Fact(n) * (n + 1)
  {
  }

  lemma MulCancel(a: int, b: int, c: int)
    requires c > 0 && a * c == b * c
    ensures a == b
  {
    if a < b {
      PyInt.MulMonotone(a + 1, b, c);
    } else if a > b {
      PyInt.MulMonotone(b + 1, a, c);
    }
  }

  /** `(3n + 3)! == (3n)! * (3n + 1)(3n + 2)(3n + 3)`. */
  lemma Fact3Step(n: nat)
    ensures Fact(3 * n + 3) == Fact(3 * n) * ((3 * n + 1) * (3 * n + 2) * (3 * n + 3))
  {
    FactStep(3 * n); FactStep(3 * n + 1); FactStep(3 * n + 2);
    Assoc4(Fact(3 * n), 3 * n + 1, 3 * n + 2, 3 * n + 3);
  }

  lemma Assoc4(a: int, b: int, c: int, d: int)
    ensures a * b * c * d == a * (b * c * d)
  {
  }

  /** `(6n + 6)! == (6n)! * (6n + 1)(6n + 3)(6n + 5) * 8 (3n + 1)(3n + 2)(3n + 3)`. */
  lemma Fact6Step(n: nat)
    ensures Fact(6 * n + 6) == Fact(6 * n) * (((6 * n + 1) * (6 * n + 3) * (6 * n + 5)) * (8 * ((3 * n + 1) * (3 * n + 2) * (3 * n + 3))))
  {
    FactStep(6 * n); FactStep(6 * n + 1); FactStep(6 * n + 2);
    FactStep(6 * n + 3); FactStep(6 * n + 4); FactStep(6 * n + 5);
    EvenFactors(Fact(6 * n), 6 * n + 1, 6 * n + 3, 6 * n + 5, 3 * n + 1, 3 * n + 2, 3 * n + 3);
  }

  lemma EvenFactors(f: int, u1: int, u3: int, u5: int, v1: int, v2: int, v3: int)
    ensures f * u1 * (2 * v1) * u3 * (2 * v2) * u5 * (2 * v3) == f * ((u1 * u3 * u5) * (8 * (v1 * v2 * v3)))
  {
  }

  /** `K^3 - 16K == 8 (6n + 1)(6n + 3)(6n + 5)` for `K = 12n + 6`. */
  lemma KFactors(n: nat)
    ensures PyInt.Cube(KAt(n)) - 16 * KAt(n) == 8 * ((6 * n + 1) * (6 * n + 3) * (6 * n + 5))
  {
    var k := KAt(n);
    CubeMinus16(k);
    assert k == 2 * (6 * n + 3) && k - 4 == 2 * (6 * n + 1) && k + 4 == 2 * (6 * n + 5);
    EvenProduct(6 * n + 3, 6 * n + 1, 6 * n + 5);
  }

  lemma EvenProduct(x: int, y: int, z: int)
    ensures (2 * x) * (2 * y) * (2 * z) == 8 * (y * x * z)
  {
  }

  /** Cancelling `(3n)! (n!)^3` and `(3n+1)(3n+2)(3n+3)` from the two factorial identities. */
  lemma RecurrenceArith(a: int, b: int, f1: int, f3: int, f6: int, g1: int, g3: int, g6: int, c1: int, p3: int, q: int)
    requires f1 > 0 && f3 > 0 && p3 > 0
    requires a * f3 * f1 * f1 * f1 == f6
    requires b * g3 * g1 * g1 * g1 == g6
    requires g3 == f3 * p3 && g1 == f1 * c1 && g6 == f6 * (q * (8 * p3))
    ensures b * (c1 * c1 * c1) == 8 * q * a
  {
    var d := f3 * f1 * f1 * f1;
    var c := c1 * c1 * c1;
    assert d > 0;
    assert b * (f3 * p3) * (f1 * c1) * (f1 * c1) * (f1 * c1) == f6 * (q * (8 * p3));
    GroupLeft(b, f3, p3, f1, c1);
    GroupRight(a, f3, f1, q, p3);
    assert ((b * c) * p3) * d == ((8 * q * a) * p3) * d;
    MulCancel((b * c) * p3, (8 * q * a) * p3, d);
    MulCancel(b * c, 8 * q * a, p3);
  }

  lemma GroupLeft(b: int, f3: int, p3: int, f1: int, c1: int)
    ensures b * (f3 * p3) * (f1 * c1) * (f1 * c1) * (f1 * c1) == ((b * (c1 * c1 * c1)) * p3) * (f3 * f1 * f1 * f1)
  {
    var u, f, c := f1 * c1, f1 * f1 * f1, c1 * c1 * c1;
    assert u * u * u == f * c by { CubeOfProduct(f1, c1); }
    calc {
      b * (f3 * p3) * u * u * u;
      { Assoc4(b * (f3 * p3), u, u, u); }
      b * (f3 * p3) * (u * u * u);
      b * (f3 * p3) * (f * c);
      { Regroup5(b, f3, p3, f, c); }
      ((b * c) * p3) * (f3 * f);
      { assert f3 * f == f3 * f1 * f1 * f1; }
      ((b * c) * p3) * (f3 * f1 * f1 * f1);
    }
  }

  lemma CubeOfProduct(x: int, y: int)
    ensures (x * y) * (x * y) * (x * y) == (x * x * x) * (y * y * y)
  {
  }

  lemma Regroup5(b: int, f3: int, p3: int, f: int, c: int)
    ensures b * (f3 * p3) * (f * c) == ((b * c) * p3) * (f3 * f)
  {
  }

  lemma GroupRight(a: int, f3: int, f1: int, q: int, p3: int)
    ensures (a * f3 * f1 * f1 * f1) * (q * (8 * p3)) == ((8 * q * a) * p3) * (f3 * f1 * f1 * f1)
  {
  }

  /**
   * The recurrence on line 78 divides exactly:
   * `M_{n+1} * (n+1)^3 == (K^3 - 16K) * M_n` with `K = 12n + 6`.
   */
  lemma MRecurrenceExact(n: nat)
    ensures MAt(n + 1) * PyInt.Cube(n + 1) == (PyInt.Cube(KAt(n)) - 16 * KAt(n)) * MAt(n)
  {
    var q := (6 * n + 1) * (6 * n + 3) * (6 * n + 5);
    var p3 := (3 * n + 1) * (3 * n + 2) * (3 * n + 3);
    MAtFact(n);
    MAtFact(n + 1);
    Fact3Step(n);
    Fact6Step(n);
    FactStep(n);
    assert 3 * (n + 1) == 3 * n + 3 && 6 * (n + 1) == 6 * n + 6;
    var g1, g3, g6 := Fact(n + 1), Fact(3 * (n + 1)), Fact(6 * (n + 1));
    assert g3 == Fact(3 * n) * p3;
    assert g6 == Fact(6 * n) * (q * (8 * p3));
    RecurrenceArith(MAt(n), MAt(n + 1), Fact(n), Fact(3 * n), Fact(6 * n), g1, g3, g6, n + 1, p3, q);
    KFactors(n);
  }

  /** The floor division on line 78 returns exactly the next closed-form `M`. */
  lemma MStep(n: nat)
    ensures PyInt.FloorDiv((PyInt.Cube(KAt(n)) - 16 * KAt(n)) * MAt(n), PyInt.Cube(n + 1)) == MAt(n + 1)
  {
    MRecurrenceExact(n);
    CubePositive(n + 1);
    ExactQuotient((PyInt.Cube(KAt(n)) - 16 * KAt(n)) * MAt(n), PyInt.Cube(n + 1), MAt(n + 1));
  }

  lemma CubePositive(x: int)
    requires x > 0
    ensures PyInt.Cube(x) > 0
  {
    assert x * x > 0;
  }

  lemma ExactQuotient(num: int, c: int, m: int)
    requires c > 0 && m * c == num
    ensures PyInt.FloorDiv(num, c) == m
  {
    PyInt.FloorDivExact(m, c);
  }

  /** `M` never leaves the positive integers: every closed-form `M_n` is at least 1. */
  lemma MAtPositive(n: nat)
    ensures MAt(n) >= 1
  {
    MAtFact(n);
  }

  /**
   * Without appeal to exactness: with `K = 12i - 6`, `i >= 1` and `M >= 1`,
   * `(K^3 - 16K) * M >= i^3`, so the truncating division on line 78 yields
   * at least 1.
   */
  lemma MStaysPositive(k: int, m: int, i: int)
    requires i >= 1 && m >= 1 && k == 12 * i - 6
    ensures (PyInt.Cube(k) - 16 * k) * m >= PyInt.Cube(i)
    ensures PyInt.FloorDiv((PyInt.Cube(k) - 16 * k) * m, PyInt.Cube(i)) >= 1
  {
    CubeMinus16(k);
    var c, t := PyInt.Cube(i), PyInt.Cube(k) - 16 * k;
    assert t >= c by {
      ProductMonotone(i, i, k, k - 4);
      ProductMonotone(i * i, i, k * (k - 4), k + 4);
    }
    PyInt.MulMonotone(1, m, t);
    var q := PyInt.FloorDiv(t * m, c);
    if q <= 0 {
      PyInt.MulMonotone(q, 0, c);
    }
  }

  lemma CubeMinus16(k: int)
    ensures PyInt.Cube(k) - 16 * k == k * (k - 4) * (k + 4)
  {
  }

  lemma ProductMonotone(a: int, b: int, x: int, y: int)
    requires 0 <= a <= x && 0 <= b <= y
    ensures a * b <= x * y
  {
    PyInt.MulMonotone(a, x, b);
    assert x * b <= x * y by { assert x * y - x * b == x * (y - b); }
  }

  /** `X` after `n` iterations is `(-262537412640768000)^n`: never zero, positive exactly after an even number of iterations. */
  lemma XAtSign(n: nat)
    ensures XAt(n) != 0
    ensures XAt(n) > 0 <==> n % 2 == 0
  {
    PyInt.PowSign(XFactor, n);
  }

  /** The loop starts in the closed form for zero iterations. */
  lemma StartIsAt()
    ensures Start == At(0)
  {
    assert MAt(0) == 1;
  }

  /** Every state the loop reaches meets the step's requirements: both divisions on lines 78 and 82 are defined. */
  lemma AtCanStep(n: nat)
    ensures At(n).i != 0 && At(n).x != 0
  {
    XAtSign(n);
  }

  /**
   * One step takes the closed form for `n` iterations to the one for `n + 1`
   * (`K += 12`, `i += 1`, `L += 545140134`, `X *= -262537412640768000`,
   * `M` the next exact quotient, `S` one more series term) and publishes
   * record `n`, tagged with the counter `n + 1`.
   */
  lemma StepAt(n: nat)
    ensures At(n).i != 0 && At(n).x != 0
    ensures Step(At(n)) == (At(n + 1), RecordAt(n))
  {
    AtCanStep(n);
    MStep(n);
  }

  /**
   * Runs the generator for at most `n` iterations and returns the final
   * state, every record it published in order, and the yield decision taken
   * after each increment.  With `piswitch == 0` the first yield check raises
   * ZeroDivisionError and the generator stops after publishing one record.
   */
  method Run(n: nat, piswitch: int) returns (st: State, published: seq<Record>, switches: seq<Cadence.Switch>)
    ensures |published| == |switches| == (if piswitch == 0 && n > 0 then 1 else n)
    ensures st == At(|published|)
    ensures st.k == 6 + 12 * |published| && st.i == 1 + |published| && st.l == 13591409 + 545140134 * |published|
    ensures st.m >= 1 && st.x != 0
    ensures forall k :: 0 <= k < |published| ==> published[k] == RecordAt(k) && published[k].i == k + 1
    ensures forall k :: 0 <= k < |switches| ==> switches[k] == Cadence.AfterIncrement(k + 2, piswitch)
  {
    st, published, switches := Start, [], [];
    StartIsAt();
    var done: nat := 0;
    while done < n
      invariant done <= n
      invariant piswitch == 0 ==> done == 0
      invariant st == At(done)
      invariant |published| == |switches| == done
      invariant forall k :: 0 <= k < |published| ==> published[k] == RecordAt(k)
      invariant forall k :: 0 <= k < |switches| ==> switches[k] == Cadence.AfterIncrement(k + 2, piswitch)
    {
      StepAt(done);
      var next := Step(st);
      st, published := next.0, published + [next.1];
      done := done + 1;
      var sw := Cadence.AfterIncrement(st.i, piswitch);
      switches := switches + [sw];
      if sw == Cadence.ZeroDivisionError {
        break;
      }
    }
    MAtPositive(done);
    XAtSign(done);
  }

  // ---------------------------------------------------------------------
  // Bounds on S: the helper `pi(ppi)` divides by S, which stays near 13591409.

  /** `|X|` grows by this factor each step. */
  const XScale: int := 262537412640768000

  /** `2^-n`. */
  function Half(n: nat): (r: real)
    ensures 0.0 < r <= 1.0
  {
    if n == 0 then 1.0 else Half(n - 1) / 2.0
  }

  /** The magnitude `M_j * L_j` of a term's numerator. */
  function Numerator(j: nat): int
  {
    MAt(j) * LAt(j)
  }

  /** `X_j` is `XScale^j` with the sign `(-1)^j`. */
  lemma {:induction false} XAtMagnitude(j: nat)
    ensures XAt(j) == (if j % 2 == 0 then PyInt.Pow(XScale, j) else -PyInt.Pow(XScale, j))
  {
    if j > 0 {
      XAtMagnitude(j - 1);
    }
  }

  /** Consecutive numerators grow by at most `1728 * 42`. */
  lemma NumeratorRatio(j: nat)
    ensures 0 < Numerator(j) && Numerator(j + 1) <= 72576 * Numerator(j)
  {
    MAtPositive(j);
    MRatio(j);
    var a, b, l, l' := MAt(j), MAt(j + 1), LAt(j), LAt(j + 1);
    assert 0 < l' <= 42 * l;
    ProductMonotone(b, l', 1728 * a, 42 * l);
    assert (1728 * a) * (42 * l) == 72576 * (a * l);
    assert a * l > 0;
  }

  /** `M` grows by at most `8 * 6^3` per step. */
  lemma MRatio(j: nat)
    ensures MAt(j + 1) <= 1728 * MAt(j)
  {
    MAtPositive(j);
    MRecurrenceExact(j);
    KFactors(j);
    QBound(j);
    CubePositive(j + 1);
    RatioArith(MAt(j), MAt(j + 1), PyInt.Cube(j + 1), (6 * j + 1) * (6 * j + 3) * (6 * j + 5),
               PyInt.Cube(KAt(j)) - 16 * KAt(j));
  }

  lemma QBound(j: nat)
    ensures 0 <= (6 * j + 1) * (6 * j + 3) * (6 * j + 5) <= 216 * PyInt.Cube(j + 1)
  {
    ProductMonotone(0, 0, (6 * j + 1) * (6 * j + 3), 6 * j + 5);
    ProductMonotone(0, 0, 6 * j + 1, 6 * j + 3);
    ProductMonotone(6 * j + 1, 6 * j + 3, 6 * j + 6, 6 * j + 6);
    ProductMonotone((6 * j + 1) * (6 * j + 3), 6 * j + 5, (6 * j + 6) * (6 * j + 6), 6 * j + 6);
    SixCubed(j + 1);
  }

  lemma SixCubed(x: int)
    ensures (6 * x) * (6 * x) * (6 * x) == 216 * PyInt.Cube(x)
  {
  }

  lemma RatioArith(a: int, b: int, c: int, q: int, t: int)
    requires c > 0 && a >= 0 && 0 <= q <= 216 * c
    requires b * c == t * a && t == 8 * q
    ensures b <= 1728 * a
  {
    assert b * c == 8 * q * a;
    PyInt.MulMonotone(q, 216 * c, 8 * a);
    assert b * c <= (1728 * a) * c;
    if b > 1728 * a {
      PyInt.MulMonotone(1728 * a + 1, b, c);
    }
  }

  /** `M_j * L_j * 2^j <= XScale^j` from the first term on. */
  lemma {:induction false} NumeratorSmall(j: nat)
    requires j >= 1
    ensures Numerator(j) * PyInt.Pow(2, j) <= PyInt.Pow(XScale, j)
  {
    if j == 1 {
      assert MAt(1) == 120 by {
        MRecurrenceExact(0);
        PyInt.FloorDivExact(MAt(1), 1);
      }
    } else {
      NumeratorSmall(j - 1);
      NumeratorRatio(j - 1);
      PyInt.PowSign(2, j - 1);
      PyInt.PowSign(XScale, j - 1);
      GrowthArith(Numerator(j - 1), Numerator(j), PyInt.Pow(2, j - 1), PyInt.Pow(XScale, j - 1));
    }
  }

  lemma GrowthArith(a: int, b: int, p2: int, px: int)
    requires p2 > 0 && px > 0 && b <= 72576 * a && a * p2 <= px
    ensures b * (2 * p2) <= XScale * px
  {
    calc {
      b * (2 * p2);
    <= { PyInt.MulMonotone(b, 72576 * a, 2 * p2); }
      (72576 * a) * (2 * p2);
      145152 * (a * p2);
    <= { PyInt.MulMonotone(a * p2, px, 145152); }
      145152 * px;
    <= { PyInt.MulMonotone(145152, XScale, px); }
      XScale * px;
    }
  }

  /** From the first term on, every term of the series is at most `2^-j` in magnitude. */
  lemma TermSmall(j: nat)
    requires j >= 1
    ensures -Half(j) <= Term(j) <= Half(j)
  {
    NumeratorSmall(j);
    NumeratorRatio(j);
    XAtMagnitude(j);
    PyInt.PowSign(XScale, j);
    HalfIsPower(j);
    TermArith(Numerator(j), XAt(j), PyInt.Pow(XScale, j), PyInt.Pow(2, j), Half(j));
  }

  lemma TermArith(a: int, x: int, px: int, p2: int, h: real)
    requires a >= 0 && px > 0 && p2 > 0 && a * p2 <= px
    requires x == px || x == -px
    requires h == 1.0 / p2 as real
    ensures -h <= a as real / x as real <= h
  {
    var ar, pr, qr := a as real, px as real, p2 as real;
    assert (a * p2) as real == ar * qr;
    RealRatio(ar, pr, qr);
    if x == -px {
      NegDenominator(ar, pr);
    }
  }

  lemma RealRatio(a: real, px: real, p2: real)
    requires a >= 0.0 && px > 0.0 && p2 > 0.0 && a * p2 <= px
    ensures 0.0 <= a / px <= 1.0 / p2
  {
    var d := px * p2;
    assert d > 0.0;
    assert (a * p2) / d <= px / d;
    assert a / px == (a * p2) / d;
    assert 1.0 / p2 == px / d;
  }

  lemma NegDenominator(a: real, d: real)
    requires d > 0.0
    ensures a / (-d) == -(a / d)
  {
  }

  lemma {:induction false} HalfIsPower(n: nat)
    ensures PyInt.Pow(2, n) >= 1
    ensures Half(n) == 1.0 / PyInt.Pow(2, n) as real
  {
    PyInt.PowSign(2, n);
    if n > 0 {
      HalfIsPower(n - 1);
    }
  }

  /**
   * The sum `S` after `n` iterations stays within `13591409 ± (1 - 2^-n)`;
   * in particular it is never zero, so `pi(S)` on lines 74 and 77 is always
   * defined.
   */
  lemma {:induction false} SeriesBounds(n: nat)
    ensures 13591408.0 + Half(n) <= Series(n) <= 13591410.0 - Half(n)
    ensures Series(n) > 0.0
  {
    if n == 0 {
      assert Term(0) == 13591409.0;
    } else {
      SeriesBounds(n - 1);
      TermSmall(n);
    }
  }
}
