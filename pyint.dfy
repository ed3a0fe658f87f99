/**
 * Python's integer operators, as the generators use them.
 *
 * Dafny's `/` and `%` are Euclidean; Python's `//` and `%` round the quotient
 * toward negative infinity.  The two agree when the divisor is positive, and
 * differ for a negative divisor, so the Python forms are written out here.
 */
module PyInt {

  /** Python's `a // b`: the largest `q` with `q * b <= a` (for `b > 0`). */
  function FloorDiv(a: int, b: int): (q: int)
    requires b != 0
    ensures b > 0 ==> q * b <= a < q * b + b
    ensures b < 0 ==> q * b + b < a <= q * b
  {
    if b > 0 then a / b else (-a) / (-b)
  }

  /** Python's `a % b`: the remainder that has the sign of `b`. */
  function Mod(a: int, b: int): (r: int)
    requires b != 0
    ensures a == b * FloorDiv(a, b) + r
    ensures b > 0 ==> 0 <= r < b
    ensures b < 0 ==> b < r <= 0
  {
    a - b * FloorDiv(a, b)
  }

  /** The floor quotient is the only `q` that brackets `a` between `q * b` and `q * b + b`. */
  lemma FloorDivUnique(a: int, b: int, q: int)
    requires b > 0
    requires q * b <= a < q * b + b
    ensures FloorDiv(a, b) == q
  {
    var p := FloorDiv(a, b);
    if p < q {
      assert (p + 1) * b <= q * b by { MulMonotone(p + 1, q, b); }
    } else if p > q {
      assert (q + 1) * b <= p * b by { MulMonotone(q + 1, p, b); }
    }
  }

  /** Dividing an exact multiple of a positive `b` loses nothing. */
  lemma FloorDivExact(q: int, b: int)
    requires b > 0
    ensures FloorDiv(q * b, b) == q
  {
    FloorDivUnique(q * b, b, q);
  }

  lemma MulMonotone(x: int, y: int, b: int)
    requires x <= y && b >= 0
    ensures x * b <= y * b
  {
    assert y * b - x * b == (y - x) * b;
  }

  /** `a` divides evenly by `b` exactly when it is `q * b` for some `q`. */
  lemma ModOfMultiple(q: int, b: int)
    requires b != 0
    ensures Mod(q * b, b) == 0
  {
    if b > 0 {
      FloorDivExact(q, b);
    } else {
      calc {
        FloorDiv(q * b, b);
        (-(q * b)) / (-b);
        { assert -(q * b) == q * (-b); }
        (q * (-b)) / (-b);
        { FloorDivExact(q, -b); }
        q;
      }
    }
  }

  /** A number strictly between two consecutive multiples of `b` leaves a remainder. */
  lemma ModBetweenMultiples(q: int, r: int, b: int)
    requires b != 0
    requires 0 < r < Abs(b)
    ensures Mod(q * b + r, b) != 0
  {
    if Mod(q * b + r, b) == 0 {
      var p := FloorDiv(q * b + r, b);
      assert (p - q) * b == r;
      if p - q >= 1 || p - q <= -1 {
        assert Abs(p - q) * Abs(b) == Abs(r) by { AbsMul(p - q, b); }
        MulMonotone(1, Abs(p - q), Abs(b));
      }
    }
  }

  function Abs(a: int): (r: nat)
    ensures r == a || r == -a
  {
    if a < 0 then -a else a
  }

  lemma AbsMul(x: int, y: int)
    ensures Abs(x * y) == Abs(x) * Abs(y)
  {
    if x < 0 && y >= 0 { assert x * y == -((-x) * y); }
    else if x >= 0 && y < 0 { assert x * y == -(x * (-y)); }
    else if x < 0 && y < 0 { assert x * y == (-x) * (-y); }
  }

  /** Python's `i ** 3`. */
  function Cube(a: int): int
  {
    a * a * a
  }

  /** Python's `b ** n` for a natural exponent. */
  function Pow(b: int, n: nat): int
  {
    if n == 0 then 1 else b * Pow(b, n - 1)
  }

  /** A power of a non-zero base is never zero, and a power of a negative base is positive exactly for even exponents. */
  lemma {:induction false} PowSign(b: int, n: nat)
    requires b != 0
    ensures Pow(b, n) != 0
    ensures b < 0 ==> (Pow(b, n) > 0 <==> n % 2 == 0)
    ensures b > 0 ==> Pow(b, n) > 0
  {
    if n > 0 {
      PowSign(b, n - 1);
      var p := Pow(b, n - 1);
      if b > 0 {
        assert b * p > 0;
      } else if p > 0 {
        assert b * p < 0;
      } else {
        assert b * p > 0;
      }
    }
  }
}
