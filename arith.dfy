/**
 * Facts about integer multiplication and Euclidean division that the
 * row-major layouts of the grid mesh rest on.
 */
module Arith {

  /** Multiplying by a non-negative factor preserves the order of the other factor. */
  lemma {:induction false} MulLeq(a: int, b: int, m: int)
    requires a <= b && 0 <= m
    ensures a * m <= b * m
  {
    assert b * m - a * m == (b - a) * m;
    MulNonNegative(b - a, m);
  }

  /** The product of two non-negative numbers is non-negative. */
  lemma {:induction false} MulNonNegative(a: int, m: int)
    requires 0 <= a && 0 <= m
    ensures 0 <= a * m
    decreases a
  {
    if a > 0 {
      MulNonNegative(a - 1, m);
      assert a * m == (a - 1) * m + m;
    }
  }

  /**
   * Division by m recovers the quotient q and the remainder r of q * m + r:
   * the decomposition of a number into a quotient and a remainder in [0, m)
   * is unique.
   */
  lemma {:induction false} DivModOfSum(m: int, q: int, r: int)
    requires 0 < m && 0 <= r < m
    ensures (q * m + r) / m == q
    ensures (q * m + r) % m == r
  {
    var k := q * m + r;
    var d, e := k / m, k % m;
    assert k == d * m + e && 0 <= e < m;
    assert (q - d) * m == e - r;
    if q - d >= 1 {
      MulLeq(1, q - d, m);
      assert false;
    } else if d - q >= 1 {
      MulLeq(1, d - q, m);
      assert false;
    }
  }

  /** Dividing a non-negative number by a positive one gives a non-negative quotient and a remainder below the divisor. */
  lemma {:induction false} DivModBounds(k: int, m: int)
    requires 0 <= k && 0 < m
    ensures k == (k / m) * m + k % m
    ensures 0 <= k / m && 0 <= k % m < m
  {
    if k / m < 0 {
      MulLeq(k / m, -1, m);
      assert false;
    }
  }
}
