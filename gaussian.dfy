/**
 * Gaussian integers `re + im·i`: ring arithmetic, the norm, division with
 * remainder by rounding the exact quotient to the nearest lattice point, the
 * Euclidean greatest common divisor and the least common multiple.
 *
 * The machine-width `isize` components are modelled as unbounded integers and
 * the `f64` quotient as an exact real number.
 */
module GaussianIntegers {
  import opened Orderings
  import opened Arithmetic

  datatype Gaussian = Gaussian(re: int, im: int)

  const ZERO: Gaussian := Gaussian(0, 0)

  /** The four units of ℤ[i]; the first one is the canonical unit. */
  const UNITS: seq<Gaussian> := [Gaussian(1, 0), Gaussian(-1, 0), Gaussian(0, 1), Gaussian(0, -1)]

  // ---------------------------------------------------------------------
  // Ring operations and the norm
  // ---------------------------------------------------------------------

  /** Component-wise sum; `ZERO` is its identity on either side. */
  function Add(a: Gaussian, b: Gaussian): (r: Gaussian)
    ensures b == ZERO ==> r == a
    ensures a == ZERO ==> r == b
  {
    Gaussian(a.re + b.re, a.im + b.im)
  }

  /** Subtraction undoes addition. */
  function Subtract(a: Gaussian, b: Gaussian): (r: Gaussian)
    ensures Add(r, b) == a && Add(b, r) == a
  {
    Gaussian(a.re - b.re, a.im - b.im)
  }

  /** The squared magnitude; it vanishes only at zero. */
  function Norm(a: Gaussian): (n: int)
    ensures n >= 0
    ensures n == 0 <==> a == ZERO
  {
    SquareNonNegative(a.re);
    SquareNonNegative(a.im);
    a.re * a.re + a.im * a.im
  }

  /** `(ac − bd) + (ad + bc)i`: `UNITS[0]`, the value 1, is its identity and `ZERO` absorbs. */
  function Multiply(a: Gaussian, b: Gaussian): (r: Gaussian)
    ensures b == UNITS[0] ==> r == a
    ensures a == UNITS[0] ==> r == b
    ensures a == ZERO || b == ZERO ==> r == ZERO
  {
    Gaussian(a.re * b.re - a.im * b.im, a.re * b.im + a.im * b.re)
  }

  /** The norm of a product is the product of the norms. */
  lemma NormMultiplicative(a: Gaussian, b: Gaussian)
    ensures Norm(Multiply(a, b)) == Norm(a) * Norm(b)
  {
    ProductOfSums(a.re, a.im, b.re, b.im);
  }

  /** The two-square identity behind the multiplicativity of the norm. */
  lemma ProductOfSums(ar: int, ai: int, br: int, bi: int)
    ensures (ar * br - ai * bi) * (ar * br - ai * bi) + (ar * bi + ai * br) * (ar * bi + ai * br)
         == (ar * ar + ai * ai) * (br * br + bi * bi)
  {
  }

  // ---------------------------------------------------------------------
  // Ring laws used by the division and gcd proofs
  // ---------------------------------------------------------------------

  lemma MultiplyCommutes(a: Gaussian, b: Gaussian)
    ensures Multiply(a, b) == Multiply(b, a)
  {
  }

  lemma MultiplyAssociates(a: Gaussian, b: Gaussian, c: Gaussian)
    ensures Multiply(Multiply(a, b), c) == Multiply(a, Multiply(b, c))
  {
    AssociatesRe(a.re, a.im, b.re, b.im, c.re, c.im);
    AssociatesIm(a.re, a.im, b.re, b.im, c.re, c.im);
  }

  lemma AssociatesRe(ar: int, ai: int, br: int, bi: int, cr: int, ci: int)
    ensures (ar * br - ai * bi) * cr - (ar * bi + ai * br) * ci
         == ar * (br * cr - bi * ci) - ai * (br * ci + bi * cr)
  {
  }

  lemma AssociatesIm(ar: int, ai: int, br: int, bi: int, cr: int, ci: int)
    ensures (ar * br - ai * bi) * ci + (ar * bi + ai * br) * cr
         == ar * (br * ci + bi * cr) + ai * (br * cr - bi * ci)
  {
  }

  lemma MultiplyDistributes(a: Gaussian, b: Gaussian, c: Gaussian)
    ensures Multiply(Add(a, b), c) == Add(Multiply(a, c), Multiply(b, c))
  {
  }

  // ---------------------------------------------------------------------
  // Division with remainder
  // ---------------------------------------------------------------------

  /**
   * `f64::round`: the nearest integer, halfway cases rounded away from zero.
   */
  function Round(v: real): (r: int)
    ensures -0.5 <= v - r as real <= 0.5
    ensures v - r as real == 0.5 ==> v < 0.0
    ensures v - r as real == -0.5 ==> v > 0.0
  {
    if v >= 0.0 then (v + 0.5).Floor else -((-v + 0.5).Floor)
  }

  /**
   * The exact complex quotient `a / b`, computed as `a·conj(b) / norm(b)`
   * component by component: multiplied back by `b` it gives `a`. For a zero
   * divisor both numerators are 0 and each component is 0/0, a NaN; it is
   * represented here by 0.0, the value the later cast to an integer gives.
   */
  function FloatDiv(a: Gaussian, b: Gaussian): (q: (real, real))
    ensures b != ZERO ==> q.0 * b.re as real - q.1 * b.im as real == a.re as real
    ensures b != ZERO ==> q.0 * b.im as real + q.1 * b.re as real == a.im as real
    ensures b == ZERO ==> q == (0.0, 0.0)
  {
    var x := a.re * b.re + a.im * b.im;
    var y := a.im * b.re - a.re * b.im;
    var n := Norm(b);
    if n == 0 then
      (0.0, 0.0)
    else
      FloatDivExact(a, b, x, y, n);
      (x as real / n as real, y as real / n as real)
  }

  lemma RealOfProduct(x: int, y: int)
    ensures (x * y) as real == x as real * y as real
  {
  }

  lemma FloatDivExact(a: Gaussian, b: Gaussian, x: int, y: int, n: int)
    requires b != ZERO
    requires x == a.re * b.re + a.im * b.im && y == a.im * b.re - a.re * b.im && n == Norm(b)
    ensures (x as real / n as real) * b.re as real - (y as real / n as real) * b.im as real == a.re as real
    ensures (x as real / n as real) * b.im as real + (y as real / n as real) * b.re as real == a.im as real
  {
    var ar, ai, br, bi := a.re as real, a.im as real, b.re as real, b.im as real;
    RealOfProduct(a.re, b.re); RealOfProduct(a.im, b.im);
    RealOfProduct(a.im, b.re); RealOfProduct(a.re, b.im);
    RealOfProduct(b.re, b.re); RealOfProduct(b.im, b.im);
    var nr := br * br + bi * bi;
    assert n as real == nr;
    assert x as real == ar * br + ai * bi;
    assert y as real == ai * br - ar * bi;
    assert (ar * br + ai * bi) * br - (ai * br - ar * bi) * bi == ar * nr;
    assert (ar * br + ai * bi) * bi + (ai * br - ar * bi) * br == ai * nr;
  }

  /**
   * The `/` operator: each component of the exact quotient rounded, so each
   * lies within one half of it. A zero divisor gives the NaN quotient, which
   * the cast turns into `ZERO`.
   */
  function Div(a: Gaussian, b: Gaussian): (q: Gaussian)
    ensures -0.5 <= FloatDiv(a, b).0 - q.re as real <= 0.5
    ensures -0.5 <= FloatDiv(a, b).1 - q.im as real <= 0.5
    ensures b == ZERO ==> q == ZERO
  {
    var (re, im) := FloatDiv(a, b);
    if b == ZERO then
      RoundZero();
      Gaussian(Round(re), Round(im))
    else
      Gaussian(Round(re), Round(im))
  }

  /**
   * The `%` operator, `a − (a / b)·b`. It completes the division identity,
   * and since each quotient component is within one half of the exact one,
   * its norm is at most half the divisor's norm.
   */
  function Rem(a: Gaussian, b: Gaussian): (r: Gaussian)
    ensures b != ZERO ==> 2 * Norm(r) <= Norm(b) && Norm(r) < Norm(b)
    ensures b == ZERO ==> r == a
  {
    var r := Subtract(a, Multiply(Div(a, b), b));
    if b == ZERO then
      RemainderByZero(a);
      r
    else
      RemainderBound(a, b, Div(a, b), r);
      r
  }

  /** A zero divisor gives a zero quotient, so the remainder is the dividend itself. */
  lemma RemainderByZero(a: Gaussian)
    ensures Subtract(a, Multiply(Div(a, ZERO), ZERO)) == a
  {
  }

  lemma RoundZero()
    ensures Round(0.0) == 0
  {
  }

  /** `div_rem`: the quotient and remainder in one call, as `/` and `%` give them. */
  function DivRem(a: Gaussian, b: Gaussian): (qr: (Gaussian, Gaussian))
    ensures qr.0 == Div(a, b) && qr.1 == Rem(a, b)
    ensures Add(Multiply(qr.0, b), qr.1) == a
    ensures b != ZERO ==> 2 * Norm(qr.1) <= Norm(b)
    ensures b == ZERO ==> qr == (ZERO, a)
  {
    var q := Div(a, b);
    if b == ZERO then
      RemainderByZero(a);
      (q, Subtract(a, Multiply(q, b)))
    else
      (q, Subtract(a, Multiply(q, b)))
  }

  /** Rounding `x / n` leaves an error of at most half of `n`. */
  lemma RoundingError(x: int, n: int)
    requires n > 0
    ensures var q := Round(x as real / n as real); -n <= 2 * (x - q * n) <= n
  {
    var v := x as real / n as real;
    QuotientTimesDivisor(x as real, n as real);
    ScaledError(x, n, v, Round(v));
  }

  lemma ScaledError(x: int, n: int, v: real, q: int)
    requires n > 0 && v * n as real == x as real && -0.5 <= v - q as real <= 0.5
    ensures -n <= 2 * (x - q * n) <= n
  {
    ErrorAsReal(x, n, v, q);
    CastBound(x - q * n, n, v - q as real);
  }

  lemma ErrorAsReal(x: int, n: int, v: real, q: int)
    requires v * n as real == x as real
    ensures (x - q * n) as real == (v - q as real) * n as real
  {
    var qr, nr := q as real, n as real;
    RealOfProduct(q, n);
    assert (x - q * n) as real == x as real - qr * nr;
    DifferenceScaled(v, qr, nr);
  }

  lemma CastBound(e: int, n: int, d: real)
    requires n > 0 && e as real == d * n as real && -0.5 <= d <= 0.5
    ensures -n <= 2 * e <= n
  {
    HalfScaled(d, n as real, e as real);
    IntegerBound(e, n, e as real);
  }

  lemma IntegerBound(e: int, n: int, p: real)
    requires p == e as real && -(n as real) <= 2.0 * p <= n as real
    ensures -n <= 2 * e <= n
  {
  }

  lemma DifferenceScaled(v: real, w: real, c: real)
    ensures v * c - w * c == (v - w) * c
  {
  }

  lemma HalfScaled(d: real, c: real, p: real)
    requires c > 0.0 && -0.5 <= d <= 0.5 && p == d * c
    ensures -c <= 2.0 * p <= c
  {
    assert 2.0 * p == (2.0 * d) * c;
  }

  lemma MultiplyMonotonic(x: int, y: int, c: int)
    requires x <= y && c >= 0
    ensures x * c <= y * c
  {
  }

  lemma SquareBound(t: int, n: int)
    requires -n <= t <= n
    ensures t * t <= n * n
  {
    var u := if t < 0 then -t else t;
    assert t * t == u * u;
    MultiplyMonotonic(u, n, u);
    MultiplyMonotonic(u, n, n);
    assert u * n == n * u;
  }

  /** `(a − q·b)·conj(b)` is `a·conj(b) − q·norm(b)`, component by component. */
  lemma RemainderTimesConjugate(ar: int, ai: int, br: int, bi: int, qr: int, qi: int)
    ensures (ar - (qr * br - qi * bi)) * br + (ai - (qr * bi + qi * br)) * bi
         == (ar * br + ai * bi) - qr * (br * br + bi * bi)
    ensures (ai - (qr * bi + qi * br)) * br - (ar - (qr * br - qi * bi)) * bi
         == (ai * br - ar * bi) - qi * (br * br + bi * bi)
  {
  }

  /** Lagrange's identity for the product of `r` and `conj(b)`. */
  lemma Lagrange(rr: int, ri: int, br: int, bi: int)
    ensures (rr * rr + ri * ri) * (br * br + bi * bi)
         == (rr * br + ri * bi) * (rr * br + ri * bi) + (ri * br - rr * bi) * (ri * br - rr * bi)
  {
  }

  lemma HalfBound(m: int, n: int, dx: int, dy: int)
    requires n > 0 && m * n == dx * dx + dy * dy
    requires -n <= 2 * dx <= n && -n <= 2 * dy <= n
    ensures 2 * m <= n
  {
    SquareBound(2 * dx, n);
    SquareBound(2 * dy, n);
    assert (2 * dx) * (2 * dx) == 4 * (dx * dx);
    assert (2 * dy) * (2 * dy) == 4 * (dy * dy);
    assert (2 * m) * n <= n * n;
    if 2 * m > n {
      MultiplyMonotonic(n + 1, 2 * m, n);
    }
  }

  lemma RemainderBound(a: Gaussian, b: Gaussian, q: Gaussian, r: Gaussian)
    requires b != ZERO && q == Div(a, b) && r == Subtract(a, Multiply(q, b))
    ensures 2 * Norm(r) <= Norm(b) && Norm(r) < Norm(b)
  {
    var n := Norm(b);
    var x := a.re * b.re + a.im * b.im;
    var y := a.im * b.re - a.re * b.im;
    assert FloatDiv(a, b) == (x as real / n as real, y as real / n as real);
    RoundingError(x, n);
    RoundingError(y, n);
    RemainderTimesConjugate(a.re, a.im, b.re, b.im, q.re, q.im);
    Lagrange(r.re, r.im, b.re, b.im);
    HalfBound(Norm(r), n, x - q.re * n, y - q.im * n);
  }

  /** A multiple of a nonzero divisor is divided exactly, leaving remainder zero. */
  lemma ExactQuotient(k: Gaussian, g: Gaussian)
    requires g != ZERO
    ensures Div(Multiply(k, g), g) == k
    ensures Rem(Multiply(k, g), g) == ZERO
  {
    ExactDivision(k, g);
    SubtractSelf(Multiply(k, g));
  }

  lemma ExactDivision(k: Gaussian, g: Gaussian)
    requires g != ZERO
    ensures Div(Multiply(k, g), g) == k
  {
    var a := Multiply(k, g);
    var n := Norm(g);
    ConjugateProduct(k.re, k.im, g.re, g.im);
    assert a.re * g.re + a.im * g.im == k.re * n;
    assert a.im * g.re - a.re * g.im == k.im * n;
    CancelFactor(k.re, n);
    CancelFactor(k.im, n);
    assert FloatDiv(a, g) == (k.re as real, k.im as real);
  }

  /** `(m·n) / n` is `m` in the reals. */
  lemma CancelFactor(m: int, n: int)
    requires n != 0
    ensures (m * n) as real / n as real == m as real
  {
    RealOfProduct(m, n);
    var q := (m * n) as real / n as real;
    QuotientTimesDivisor((m * n) as real, n as real);
    assert (q - m as real) * n as real == 0.0;
  }

  /** `(k·g)·conj(g)` is `k·norm(g)`, component by component. */
  lemma ConjugateProduct(kr: int, ki: int, gr: int, gi: int)
    ensures (kr * gr - ki * gi) * gr + (kr * gi + ki * gr) * gi == kr * (gr * gr + gi * gi)
    ensures (kr * gi + ki * gr) * gr - (kr * gr - ki * gi) * gi == ki * (gr * gr + gi * gi)
  {
  }

  lemma SubtractSelf(a: Gaussian)
    ensures Subtract(a, a) == ZERO
  {
  }

  // ---------------------------------------------------------------------
  // Comparison: equality is component-wise, the order compares norms only
  // ---------------------------------------------------------------------

  /** `partial_cmp`: always an answer, obtained by comparing the norms. */
  function PartialCmp(a: Gaussian, b: Gaussian): (o: Option<Ordering>)
    ensures o == Some(Less) <==> Norm(a) < Norm(b)
    ensures o == Some(Equal) <==> Norm(a) == Norm(b)
    ensures o == Some(Greater) <==> Norm(a) > Norm(b)
  {
    Some(CompareInts(Norm(a), Norm(b)))
  }

  predicate Lt(a: Gaussian, b: Gaussian) { PartialCmp(a, b) == Some(Less) }
  predicate Gt(a: Gaussian, b: Gaussian) { PartialCmp(a, b) == Some(Greater) }
  predicate Le(a: Gaussian, b: Gaussian) { PartialCmp(a, b) in {Some(Less), Some(Equal)} }

  /** Values of equal norm compare as `Equal`: neither is below the other and `<=` holds both ways. */
  lemma EqualNormCompareEqual(a: Gaussian, b: Gaussian)
    requires Norm(a) == Norm(b)
    ensures PartialCmp(a, b) == Some(Equal)
    ensures !Lt(a, b) && !Gt(a, b) && Le(a, b) && Le(b, a)
  {
  }

  /** The order does not agree with `==`: 1 and i are different values that compare as `Equal`. */
  lemma OrderDisagreesWithEquality()
    ensures Gaussian(1, 0) != Gaussian(0, 1)
    ensures PartialCmp(Gaussian(1, 0), Gaussian(0, 1)) == Some(Equal)
  {
  }

  // ---------------------------------------------------------------------
  // Greatest common divisor and least common multiple
  // ---------------------------------------------------------------------

  ghost predicate Divides(d: Gaussian, a: Gaussian)
  {
    exists k :: Multiply(k, d) == a
  }

  /** The Euclidean remainder sequence; the norm of the divisor strictly falls. */
  function Euclid(higher: Gaussian, lower: Gaussian): (e: Gaussian)
    decreases Norm(lower)
  {
    if lower == ZERO then higher else Euclid(lower, Rem(higher, lower))
  }

  /** The canonical choice among the units: any of the four becomes 1, nothing else changes. */
  function NormalizeUnit(e: Gaussian): (g: Gaussian)
    ensures g == ZERO <==> e == ZERO
    ensures g in UNITS <==> e in UNITS
    ensures g in UNITS ==> g == UNITS[0]
    ensures e !in UNITS ==> g == e
  {
    if e in UNITS then UNITS[0] else e
  }

  /**
   * What `gcd` computes: Euclid's algorithm started from the operand of
   * larger norm (the second one on a tie), then a unit normalised to 1.
   */
  function GcdOf(first: Gaussian, second: Gaussian): (g: Gaussian)
  {
    var higher := if Gt(first, second) then first else second;
    var lower := if Gt(first, second) then second else first;
    NormalizeUnit(Euclid(higher, lower))
  }

  /** `gcd`: the Euclidean loop on `higher` and `lower`, then unit normalisation. */
  method Gcd(first: Gaussian, second: Gaussian) returns (g: Gaussian)
    ensures g == GcdOf(first, second)
  {
    var higher, lower := second, first;
    if Gt(first, second) {
      higher, lower := first, second;
    }
    ghost var h0, l0 := higher, lower;
    while lower != ZERO
      invariant Euclid(higher, lower) == Euclid(h0, l0)
      decreases Norm(lower)
    {
      var rem := Rem(higher, lower);
      higher := lower;
      lower := rem;
    }
    GcdFromLoop(first, second, higher);
    if higher in UNITS {
      higher := UNITS[0];
    }
    g := higher;
  }

  lemma GcdFromLoop(first: Gaussian, second: Gaussian, higher: Gaussian)
    requires higher == if Gt(first, second) then Euclid(first, second) else Euclid(second, first)
    ensures GcdOf(first, second) == if higher in UNITS then UNITS[0] else higher
  {
  }

  /** Euclid's result divides both of its arguments. */
  lemma {:induction false} EuclidDivides(higher: Gaussian, lower: Gaussian)
    ensures Divides(Euclid(higher, lower), higher)
    ensures Divides(Euclid(higher, lower), lower)
    decreases Norm(lower)
  {
    var g := Euclid(higher, lower);
    if lower == ZERO {
      assert Multiply(UNITS[0], higher) == higher;
      assert Multiply(ZERO, higher) == ZERO;
    } else {
      var q, r := Div(higher, lower), Rem(higher, lower);
      EuclidDivides(lower, r);
      var k1 :| Multiply(k1, g) == lower;
      var k2 :| Multiply(k2, g) == r;
      MultiplyAssociates(q, k1, g);
      MultiplyDistributes(Multiply(q, k1), k2, g);
      assert Add(Multiply(q, lower), r) == higher;
      assert Multiply(Add(Multiply(q, k1), k2), g) == higher;
    }
  }

  /** Euclid's result is zero exactly when both arguments are. */
  lemma {:induction false} EuclidIsZero(higher: Gaussian, lower: Gaussian)
    ensures Euclid(higher, lower) == ZERO <==> higher == ZERO && lower == ZERO
    decreases Norm(lower)
  {
    if lower != ZERO {
      EuclidIsZero(lower, Rem(higher, lower));
    }
  }

  /** The gcd is zero exactly when both operands are. */
  lemma GcdIsZero(first: Gaussian, second: Gaussian)
    ensures GcdOf(first, second) == ZERO <==> first == ZERO && second == ZERO
  {
    if Gt(first, second) {
      EuclidIsZero(first, second);
      NormalizedZero(Euclid(first, second), first, second);
    } else {
      EuclidIsZero(second, first);
      NormalizedZero(Euclid(second, first), first, second);
    }
  }

  lemma NormalizedZero(e: Gaussian, first: Gaussian, second: Gaussian)
    requires e == ZERO <==> first == ZERO && second == ZERO
    ensures NormalizeUnit(e) == ZERO <==> first == ZERO && second == ZERO
  {
  }

  /** A nonzero gcd leaves remainder zero when it divides either operand. */
  lemma GcdDivides(first: Gaussian, second: Gaussian)
    ensures var g := GcdOf(first, second);
      g != ZERO ==> Rem(first, g) == ZERO && Rem(second, g) == ZERO
  {
    var g := GcdOf(first, second);
    if g != ZERO {
      DividesBoth(first, second);
      var k1 :| Multiply(k1, g) == first;
      var k2 :| Multiply(k2, g) == second;
      ExactQuotient(k1, g);
      ExactQuotient(k2, g);
    }
  }

  lemma DividesBoth(first: Gaussian, second: Gaussian)
    ensures Divides(GcdOf(first, second), first) && Divides(GcdOf(first, second), second)
  {
    var e := if Gt(first, second) then Euclid(first, second) else Euclid(second, first);
    EuclidDivides(first, second);
    EuclidDivides(second, first);
    if e in UNITS {
      assert Multiply(first, UNITS[0]) == first;
      assert Multiply(second, UNITS[0]) == second;
    }
  }

  /**
   * With a zero operand the loop never runs: the other operand comes back
   * unchanged unless it is one of the four units. So gcd(0, 0) is 0, and an
   * associate such as −2i is not normalised.
   */
  lemma GcdWithZeroRight(a: Gaussian)
    ensures GcdOf(a, ZERO) == NormalizeUnit(a)
  {
    EuclidWithZero(a);
    if a != ZERO {
      NonzeroAboveZero(a);
    }
  }

  lemma GcdWithZeroLeft(a: Gaussian)
    ensures GcdOf(ZERO, a) == NormalizeUnit(a)
  {
    EuclidWithZero(a);
    NothingBelowZero(a);
  }

  lemma EuclidWithZero(a: Gaussian)
    ensures Euclid(a, ZERO) == a
  {
  }

  lemma NothingBelowZero(a: Gaussian)
    ensures !Gt(ZERO, a)
  {
  }

  lemma NonzeroAboveZero(a: Gaussian)
    requires a != ZERO
    ensures Gt(a, ZERO)
  {
  }

  /**
   * Only the four units are normalised: any other value, such as the
   * associate −2i of 2, comes back from a gcd with zero unchanged.
   */
  lemma GcdKeepsAssociates(a: Gaussian)
    requires a !in UNITS
    ensures GcdOf(a, ZERO) == a && GcdOf(ZERO, a) == a
  {
    GcdWithZeroRight(a);
    GcdWithZeroLeft(a);
  }

  /**
   * `lcm`: the product divided by the gcd; that division is exact. With two
   * zero operands the gcd is zero and the NaN quotient casts to `ZERO`.
   */
  method Lcm(first: Gaussian, second: Gaussian) returns (l: Gaussian)
    ensures Multiply(l, GcdOf(first, second)) == Multiply(first, second)
    ensures l == ZERO <==> first == ZERO || second == ZERO
  {
    var g := Gcd(first, second);
    l := Div(Multiply(first, second), g);
    GcdIsZero(first, second);
    if g != ZERO {
      LcmExact(first, second, g);
    }
    LcmCases(first, second, g, l);
  }

  /**
   * The lcm times the gcd is the product, and it vanishes with an operand:
   * for a nonzero gcd by the norm, for a zero gcd because both operands and
   * the cast NaN quotient are zero.
   */
  lemma LcmCases(first: Gaussian, second: Gaussian, g: Gaussian, l: Gaussian)
    requires g == ZERO <==> first == ZERO && second == ZERO
    requires l == Div(Multiply(first, second), g)
    requires g != ZERO ==> Multiply(l, g) == Multiply(first, second)
    ensures Multiply(l, g) == Multiply(first, second)
    ensures l == ZERO <==> first == ZERO || second == ZERO
  {
    if g != ZERO {
      LcmZero(first, second, g, l);
    }
  }

  /** A product with a nonzero factor is zero exactly when the other factor is. */
  lemma LcmZero(first: Gaussian, second: Gaussian, g: Gaussian, l: Gaussian)
    requires g != ZERO && Multiply(l, g) == Multiply(first, second)
    ensures l == ZERO <==> first == ZERO || second == ZERO
  {
    NormMultiplicative(l, g);
    NormMultiplicative(first, second);
    ProductZero(Norm(l), Norm(g));
    ProductZero(Norm(first), Norm(second));
  }

  lemma GcdNonzero(first: Gaussian, second: Gaussian)
    requires first != ZERO || second != ZERO
    ensures GcdOf(first, second) != ZERO
  {
    GcdIsZero(first, second);
  }

  lemma LcmExact(first: Gaussian, second: Gaussian, g: Gaussian)
    requires g == GcdOf(first, second) && g != ZERO
    ensures Multiply(Div(Multiply(first, second), g), g) == Multiply(first, second)
  {
    DividesBoth(first, second);
    var k :| Multiply(k, g) == first;
    ExactProductQuotient(k, g, second);
  }

  /** `(k·g)·b` divided by `g` is `k·b`, and multiplying back gives `(k·g)·b`. */
  lemma ExactProductQuotient(k: Gaussian, g: Gaussian, b: Gaussian)
    requires g != ZERO
    ensures Multiply(Div(Multiply(Multiply(k, g), b), g), g) == Multiply(Multiply(k, g), b)
  {
    MultiplyAssociates(k, g, b);
    MultiplyCommutes(g, b);
    MultiplyAssociates(k, b, g);
    ExactQuotient(Multiply(k, b), g);
  }
}
