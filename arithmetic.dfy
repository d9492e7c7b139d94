/**
 * Small facts about integer squares and real quotients shared by the
 * Gaussian-integer and lattice-point norms and the divisions.
 */
module Arithmetic {
  /** A square is never negative, and is zero only for zero. */
  lemma SquareNonNegative(x: int)
    ensures x * x >= 0
    ensures x * x == 0 <==> x == 0
  {
    if x > 0 {
      assert x * x >= x;
    } else if x < 0 {
      assert x * x == (-x) * (-x);
      assert (-x) * (-x) >= -x;
    }
  }

  /** Dividing by a nonzero real and multiplying back is the identity. */
  lemma QuotientTimesDivisor(a: real, c: real)
    requires c != 0.0
    ensures (a / c) * c == a && c * (a / c) == a
  {
  }

  /** A product of two nonnegative integers is zero only when a factor is. */
  lemma ProductZero(x: int, y: int)
    requires x >= 0 && y >= 0
    ensures x * y == 0 <==> x == 0 || y == 0
  {
    if x > 0 && y > 0 {
      assert x * y >= y;
    }
  }
}
