/**
  Exact integer ceiling division.

  The calculator rounds every quotient up with `ceil(a / b)`. This module gives
  that rounding as an exact integer operation and relates it to the
  mathematical ceiling of the real quotient, so the rest of the model never
  has to reason about rounding of floating-point quotients.
 */
module Ceiling {

  /** Ceiling of `a / b` for a positive divisor. Dafny's `/` on `int` rounds
      toward negative infinity when `b > 0`, so adding `b - 1` first rounds up. */
  function CeilDiv(a: int, b: int): (q: int)
    requires b > 0
    ensures (q - 1) * b < a <= q * b
  {
    (a + b - 1) / b
  }

  /** `q` is the ceiling of the real number `x`: the least integer not below it. */
  ghost predicate IsCeiling(q: int, x: real) {
    (q - 1) as real < x <= q as real
  }

  /** Multiplying by a positive factor keeps the order of integers. */
  lemma MulMonotone(x: int, y: int, b: int)
    requires b > 0 && x <= y
    ensures x * b <= y * b
  {
    assert y * b - x * b == (y - x) * b;
  }

  /** The two bounds in the contract of `CeilDiv` pin the quotient down: any
      `q` between them is the ceiling. */
  lemma CeilDivUnique(a: int, b: int, q: int)
    requires b > 0
    requires (q - 1) * b < a <= q * b
    ensures q == CeilDiv(a, b)
  {
    var c := CeilDiv(a, b);
    if q < c {
      MulMonotone(q, c - 1, b);
    } else if q > c {
      MulMonotone(c, q - 1, b);
    }
  }

  /** The ceiling is the LEAST multiplier whose multiple of `b` covers `a`. */
  lemma CeilDivLeast(a: int, b: int, k: int)
    requires b > 0 && a <= k * b
    ensures CeilDiv(a, b) <= k
  {
    var c := CeilDiv(a, b);
    if k < c {
      MulMonotone(k, c - 1, b);
    }
  }

  /** A positive dividend needs at least one multiple of the divisor. */
  lemma CeilDivPositive(a: int, b: int)
    requires a > 0 && b > 0
    ensures CeilDiv(a, b) >= 1
  {
    var c := CeilDiv(a, b);
    if c < 1 {
      MulMonotone(c, 0, b);
    }
  }

  /** The ceiling equals the exact quotient precisely when `b` divides `a`;
      otherwise the last multiple overshoots `a`. */
  lemma CeilDivExact(a: int, b: int)
    requires b > 0
    ensures CeilDiv(a, b) * b == a <==> a % b == 0
    ensures a % b == 0 ==> CeilDiv(a, b) == a / b
  {
    var c, q, r := CeilDiv(a, b), a / b, a % b;
    assert a == q * b + r && 0 <= r < b;
    if r == 0 {
      assert (q - 1) * b == a - b;
      CeilDivUnique(a, b, q);
    }
    if c * b == a {
      assert (c - q) * b == r;
      if c - q >= 1 {
        MulMonotone(1, c - q, b);
      } else if c - q <= -1 {
        MulMonotone(c - q, -1, b);
      }
    }
  }

  /** Integer ceiling division computes the mathematical ceiling of the exact
      real quotient, which is what `ceil(a / b)` denotes. */
  lemma CeilDivIsRealCeiling(a: int, b: int)
    requires b > 0
    ensures IsCeiling(CeilDiv(a, b), a as real / b as real)
  {
    var q := CeilDiv(a, b);
    assert (q - 1) * b < a <= q * b;
    var x := a as real / b as real;
    assert x * b as real == a as real;
    assert ((q - 1) * b) as real == (q - 1) as real * b as real;
    assert (q * b) as real == q as real * b as real;
    assert (q - 1) as real * b as real < x * b as real;
    assert x * b as real <= q as real * b as real;
  }

  /** Conversely, any integer that is the ceiling of the real quotient is the
      value `CeilDiv` returns. */
  lemma RealCeilingIsCeilDiv(a: int, b: int, q: int)
    requires b > 0
    requires IsCeiling(q, a as real / b as real)
    ensures q == CeilDiv(a, b)
  {
    var x := a as real / b as real;
    assert x * b as real == a as real;
    assert ((q - 1) * b) as real == (q - 1) as real * b as real;
    assert (q * b) as real == q as real * b as real;
    assert (q - 1) as real * b as real < x * b as real;
    assert x * b as real <= q as real * b as real;
    CeilDivUnique(a, b, q);
  }
}
