# Gaussian integers, polynomials and lattice points in Dafny

This project models the three value-type components of a small Rust
number-theory toolkit and proves what they compute.

- **Gaussian integers** (`GaussianIntegers`, `gaussian.dfy`). Numbers
  `re + im·i` with integer components support ring arithmetic and the norm
  `re² + im²`. Division with remainder rounds each component of the exact
  quotient `a·conj(b) / norm(b)` to the nearest integer, with halves rounded
  away from zero as `f64::round` does. `gcd` runs Euclid's algorithm from the
  operand of larger norm and replaces a unit result by 1. `lcm` is
  `a·b / gcd(a, b)`. The order compares norms only, while `==` compares
  components.
- **Dense polynomials** (`Polynomials`, `polynomial.dfy`). A polynomial is a
  vector of coefficients, where index `i` is the coefficient of `x^i`. The
  operations are:
  - `trim`, which pops trailing zeros;
  - `<<`, which multiplies by `x^k`;
  - addition, negation and subtraction;
  - convolution product;
  - long division (`/` and `%`);
  - Euclid's `gcd` and `lcm`.

  Each operation builds its result with a loop, as the original does. Each
  loop is proved against a specification function: `Trimmed`, `ProductOf`,
  `Eliminate`, `Remainder`, `QuotientOf` and `Euclid`.
- **Lattice points** (`Grid`, `grid.dfy`). Points have integer coordinates.
  The model covers:
  - the coordinate-wise (Pareto) partial comparison;
  - the squared norm and equality;
  - the incremental skyline `min`, which removes from and appends to its
    list in place;
  - the recursive box enumerator `gen_set` / `propagate_set`.

  `Orderings` (`orderings.dfy`) holds Rust's `Ordering` and `Option`.
  `Arithmetic` (`arithmetic.dfy`) holds the facts about squares, products
  and real quotients that the norms and divisions share.

The constructors `Gaussian::new`, `Point::new` and the `Clone` impls are the
datatype constructors and value semantics.

Components are unbounded integers and coefficients are exact reals. The
floating-point quotient of Gaussian division is an exact real, rounded by
`Round`. For a zero Gaussian divisor, both floating-point quotients are
`0/0`, which is NaN. The saturating cast turns NaN into 0, so `a / 0 == 0`
and `a % 0 == a`, and the model states exactly that.

Rounding each quotient component to the nearest integer leaves a remainder
of at most half the divisor's norm: `RemainderBound` proves
`2·norm(a % b) ≤ norm(b)`, so the Gaussian `gcd` loop always terminates.

## Model

| member | source | states |
|---|---|---|
| Orderings.CompareInts | src/grid.rs:45 | `Ord::cmp` of two integers is `Less`, `Equal` or `Greater` exactly when `<`, `==` or `>` holds |
| GaussianIntegers.Add | src/gaussian.rs:25-30 | the component-wise sum has `ZERO` as its identity on either side |
| GaussianIntegers.Multiply | src/gaussian.rs:39-44 | the product `(ac−bd, ad+bc)` has `UNITS[0]`, the value 1, as its identity on either side, and is `ZERO` when a factor is |
| GaussianIntegers.Subtract | src/gaussian.rs:32-37 | subtraction is the inverse of addition: `(a − b) + b == a` and `b + (a − b) == a` |
| GaussianIntegers.Norm | src/gaussian.rs:46-48 | the norm is never negative and is 0 exactly for `ZERO` |
| GaussianIntegers.NormMultiplicative | src/gaussian.rs:39-48 | `norm(a·b) == norm(a)·norm(b)` |
| GaussianIntegers.MultiplyCommutes | src/gaussian.rs:39-44 | multiplication is commutative |
| GaussianIntegers.MultiplyAssociates | src/gaussian.rs:39-44 | multiplication is associative |
| GaussianIntegers.MultiplyDistributes | src/gaussian.rs:25-44 | multiplication distributes over addition |
| GaussianIntegers.Round | src/gaussian.rs:145-151 | `f64::round`: the result is within 1/2 of the argument, and an exact half is rounded away from zero |
| GaussianIntegers.FloatDiv | src/gaussian.rs:50-55 | for a nonzero divisor, the pair is the exact complex quotient: multiplied back by `b` it gives `a`; for a zero divisor it is the pair that casts to 0 |
| GaussianIntegers.Div | src/gaussian.rs:145-151 | `/` rounds each component of the exact quotient: each lies within 1/2 of it; a zero divisor gives `ZERO`, the cast of the NaN quotient |
| GaussianIntegers.RemainderByZero | src/gaussian.rs:154-159 | `a % ZERO == a` |
| GaussianIntegers.Rem | src/gaussian.rs:154-159 | for a nonzero divisor, `2·norm(a % b) ≤ norm(b)` and `norm(a % b) < norm(b)`; for `ZERO` the remainder is `a` |
| GaussianIntegers.DivRem | src/gaussian.rs:57-62 | `div_rem` returns the `/` and `%` operators' results, `q·b + r == a` for every `b`, and the remainder bound holds for nonzero `b` |
| GaussianIntegers.RoundingError | src/gaussian.rs:50-61 | rounding `x / n` leaves an integer error `x − q·n` of at most `n/2` in absolute value |
| GaussianIntegers.RemainderBound | src/gaussian.rs:57-62 | the remainder `a − q·b` of the rounded quotient has at most half the norm of `b` |
| GaussianIntegers.ExactQuotient | src/gaussian.rs:145-159 | an exact multiple `k·g` of a nonzero `g` divides to `k` with remainder `ZERO` |
| GaussianIntegers.PartialCmp | src/gaussian.rs:189-192 | `partial_cmp` always answers, with `Less`, `Equal` or `Greater` exactly as the norms compare |
| GaussianIntegers.EqualNormCompareEqual | src/gaussian.rs:189-192 | values of equal norm compare `Equal`: neither is `<` or `>` the other, and `<=` holds both ways |
| GaussianIntegers.OrderDisagreesWithEquality | src/gaussian.rs:183-192 | 1 and i are unequal under `==` yet compare `Equal` |
| GaussianIntegers.NormalizeUnit | src/gaussian.rs:75-77 | only the four units are replaced, and each becomes 1; zero stays zero and every other value is unchanged |
| GaussianIntegers.Gcd | src/gaussian.rs:64-79 | the loop and the unit replacement compute `GcdOf`, Euclid's algorithm from the operand of larger norm; the loop terminates because the remainder's norm falls |
| GaussianIntegers.EuclidDivides | src/gaussian.rs:70-74 | the last nonzero remainder divides both starting values |
| GaussianIntegers.EuclidIsZero | src/gaussian.rs:70-74 | the Euclidean result is zero exactly when both starting values are |
| GaussianIntegers.GcdIsZero | src/gaussian.rs:64-79 | `gcd(a, b) == ZERO` exactly when `a` and `b` are both `ZERO` |
| GaussianIntegers.DividesBoth | src/gaussian.rs:64-79 | the gcd divides both operands |
| GaussianIntegers.GcdDivides | src/gaussian.rs:64-79 | `a % gcd(a, b) == ZERO` and `b % gcd(a, b) == ZERO` |
| GaussianIntegers.GcdWithZeroRight | src/gaussian.rs:64-79 | `gcd(a, ZERO)` is `a` with a unit replaced by 1 |
| GaussianIntegers.GcdWithZeroLeft | src/gaussian.rs:64-79 | `gcd(ZERO, a)` is `a` with a unit replaced by 1 |
| GaussianIntegers.GcdKeepsAssociates | src/gaussian.rs:11-16 | a value that is not one of the four units, such as `-2i`, is returned unchanged by `gcd` with `ZERO` |
| GaussianIntegers.Lcm | src/gaussian.rs:81-83 | `lcm(a, b) · gcd(a, b) == a · b`, and the lcm is zero exactly when an operand is zero |
| GaussianIntegers.LcmExact | src/gaussian.rs:82 | the rounded division of the product by a nonzero gcd is exact |
| GaussianIntegers.LcmZero | src/gaussian.rs:81-83 | when `l·g == a·b` with `g` nonzero, `l` is zero exactly when `a` or `b` is, because the norm is multiplicative |
| GaussianIntegers.LcmCases | src/gaussian.rs:81-83 | `lcm·gcd == a·b` and the zero characterisation hold both for a nonzero gcd and for `lcm(0, 0) == ZERO` |
| Polynomials.Norm | src/polynomial.rs:22-24 | `norm` is 0 only for the empty coefficient vector |
| Polynomials.Get | src/polynomial.rs:26-32 | `get(i)` is the stored coefficient below `norm` and 0 from `norm` on |
| Polynomials.Leading | src/polynomial.rs:34-36 | `leading` is the last coefficient, or 0 for the empty polynomial |
| Polynomials.TrimmedUnique | src/polynomial.rs:38-42 | two trimmed polynomials with the same coefficients at every index are equal |
| Polynomials.Trimmed | src/polynomial.rs:38-42 | trimming gives a trimmed prefix of the input with the same `get` at every index, and leaves a trimmed input alone |
| Polynomials.New | src/polynomial.rs:11-20 | the copy loop stores exactly the given coefficients |
| Polynomials.Trim | src/polynomial.rs:38-42 | the popping loop computes `Trimmed`: the last coefficient, if any, is nonzero and `get` is unchanged everywhere |
| Polynomials.Shl | src/polynomial.rs:156-164 | `p << n` has length `norm(p) + n`, zeros below `n`, and `get(i + n) == p.get(i)` |
| Polynomials.Add | src/polynomial.rs:67-79 | the sum is trimmed, coefficient-wise, and no longer than the longer operand |
| Polynomials.Neg | src/polynomial.rs:85-91 | negation keeps the length and negates every coefficient, without trimming |
| Polynomials.Sub | src/polynomial.rs:97-99 | `p − q` is trimmed, has coefficients `p.get(i) − q.get(i)`, and is no longer than the longer operand |
| Polynomials.ProductOf | src/polynomial.rs:105-115 | the product has length `norm(p) + norm(q) − 1` and coefficient `k` is the convolution `Σ_{i+j=k} p[i]·q[j]` |
| Polynomials.Mul | src/polynomial.rs:105-115 | the nested accumulation loops compute `ProductOf`, with untrimmed length `norm(p) + norm(q) − 1` |
| Polynomials.ProductLeading | src/polynomial.rs:105-115 | the last coefficient of a product is the product of the last coefficients |
| Polynomials.ProductTrimmed | src/polynomial.rs:105-115 | the product of two nonempty trimmed polynomials is trimmed |
| Polynomials.Monomial | src/polynomial.rs:126 | `new(&[f]) << d` is `f·x^d` |
| Polynomials.ConvMonomial | src/polynomial.rs:128 | multiplying the divisor by `f·x^d` shifts its coefficients up by `d` and scales them by `f` |
| Polynomials.Eliminate | src/polynomial.rs:125-129 | one round cancels the leading term: the new dividend is trimmed, strictly shorter, and equals `p − (f·x^d)·q` coefficient-wise |
| Polynomials.EliminationRound | src/polynomial.rs:125-129 | the round built from `new`, `<<`, `*`, `-` and `trim` computes `Eliminate` with `factor = leading(p) / leading(q)` |
| Polynomials.Remainder | src/polynomial.rs:140-150 | the final dividend is shorter than the divisor, trimmed when a round ran, and the input itself when none did |
| Polynomials.QuotientOf | src/polynomial.rs:121-134 | the quotient vector has length `norm(p) − norm(q) + 1` |
| Polynomials.DivisionIdentity | src/polynomial.rs:121-150 | `p == q·(p / q) + p % q` coefficient-wise |
| Polynomials.Div | src/polynomial.rs:121-134 | the division loop computes `QuotientOf`, of length `norm(p) − norm(q) + 1`, satisfying the division identity |
| Polynomials.Rem | src/polynomial.rs:140-150 | the remainder loop computes `Remainder`: shorter than the divisor, `p` itself when `p` is shorter, otherwise trimmed and satisfying the division identity |
| Polynomials.Euclid | src/polynomial.rs:51-55 | the remainder sequence ends trimmed, is empty only when both inputs are, and is no longer than a nonempty `lower` |
| Polynomials.GcdOf | src/polynomial.rs:45-57 | the gcd is trimmed, empty exactly when both operands are, and no longer than the shorter nonempty operand |
| Polynomials.Gcd | src/polynomial.rs:45-57 | the loop computes `GcdOf`, Euclid from the strictly longer operand, stopping at an empty remainder |
| Polynomials.GcdWithEmpty | src/polynomial.rs:45-57 | `gcd(p, empty) == gcd(empty, p) == p`, without making `p` monic |
| Polynomials.Lcm | src/polynomial.rs:59-61 | `lcm` is the quotient of the product by the gcd, of length `norm(a) + norm(b) − norm(gcd)`, and `a·b == gcd·lcm + remainder` |
| Grid.SumSquaresZero | src/grid.rs:19-25 | the sum of squares is never negative and is 0 exactly when every coordinate is 0 |
| Grid.Norm | src/grid.rs:19-25 | the accumulation loop computes the sum of squared coordinates, which is nonnegative and zero only at the origin |
| Grid.Eq | src/grid.rs:29-36 | the early-exit loop answers `true` exactly when the points are equal |
| Grid.PartialCmp | src/grid.rs:40-59 | the flag loop, with its early `break`, computes `Compare` |
| Grid.CompareClassifies | src/grid.rs:40-59 | `Equal` iff the points are equal; `Less` iff no coordinate is greater and they differ; `Greater` symmetrically; `None` iff neither is `<=` the other |
| Grid.LeMatchesCompare | src/grid.rs:113 | `<=` on points, the test in `propagate_set`, holds exactly when every coordinate is `<=` |
| Grid.CompareSwap | src/grid.rs:40-59 | swapping the operands swaps `Less` and `Greater` and keeps `Equal` and `None` |
| Grid.LeTransitive | src/grid.rs:40-59 | the Pareto order is transitive |
| Grid.LeAntisymmetric | src/grid.rs:40-59 | the Pareto order is antisymmetric |
| Grid.Min | src/grid.rs:76-104 | `min` keeps input positions in increasing order. The kept points are pairwise incomparable and pairwise different, every input point has a kept point `<=` it, and no input point is strictly below a kept one |
| Grid.AntichainDistinct | src/grid.rs:76-104 | pairwise incomparable kept points are pairwise different |
| Grid.ScanRemove | src/grid.rs:83-85 | `remove(i)` of a kept point strictly above the new point keeps the scan state |
| Grid.RemoveKeepsOrder | src/grid.rs:84 | `remove(i)` keeps the list increasing and removes exactly that position's value |
| Grid.Accept | src/grid.rs:99-101 | pushing a point that was incomparable with every kept point keeps the skyline invariant |
| Grid.Reject | src/grid.rs:86-93 | dropping a point that is `>=` a kept point keeps the skyline invariant |
| Grid.MeasureDrops | src/grid.rs:117-120 | incrementing one coordinate of a point inside the box lowers the total slack to the upper bound |
| Grid.PropagateSet | src/grid.rs:112-122 | the recursion appends exactly `Enum`, the ordered enumeration of the box from `start`, to what was found before |
| Grid.PropagateBranches | src/grid.rs:117-121 | the loop over dimensions appends one recursive enumeration per dimension from `dim_start` on |
| Grid.EnumCount | src/grid.rs:112-122 | a point occurs in the enumeration once if it lies in the box, agrees with `start` below `dim_start`, and satisfies the predicate; otherwise it does not occur |
| Grid.BranchesCount | src/grid.rs:117-121 | a point occurs once in the per-dimension branches when it also differs from `start` in one of those dimensions, and otherwise not at all |
| Grid.GenSet | src/grid.rs:106-110 | every returned point satisfies the predicate and lies in `[lower, upper]`. Every such point is returned exactly once, and nothing is returned unless `lower <= upper` |

## Left out

- `main.rs`, the `Display`/`Debug` impls and `check_round` only print.
  `check_round`'s four floor/ceil candidates are not modelled.
- Floating-point arithmetic. Polynomial coefficients are exact reals, so
  rounding error cannot stop a division loop from shrinking. The Gaussian
  quotient is an exact real rounded by `Round`. That is faithful only while
  the `f64` division is exact.
- Fixed-width `isize` overflow and saturating casts of large quotients.
  Integers are unbounded.
- Polynomials.Mul: requires `norm(p) + norm(q) ≥ 1`, because the source's
  `usize` length computation underflows for two empty operands.
- Polynomials.Div: requires `norm(p) ≥ norm(q)`, because the source's
  `usize` subtraction underflows for a shorter dividend.
- Polynomials.Div, Polynomials.Rem, Polynomials.Gcd, Polynomials.Lcm:
  require divisors with a nonzero last coefficient (the operands of `gcd`
  and `lcm` are trimmed). An empty or untrimmed divisor makes the source
  divide by a zero leading coefficient.
- Polynomials.Lcm: the remainder of the product by the gcd is not proved to
  be zero. The model does not prove that the polynomial gcd divides both
  operands.
- Polynomials.Lcm: requires both operands nonempty. With exactly one
  empty operand `gcd` returns the other, and the length
  `norm(a·b) − norm(gcd) + 1` in `/` underflows, since the product has one
  coefficient fewer than the gcd. With two empty operands the length in `*`
  underflows first.
- The generic trait bounds (`Into<f64>`, `Num`, `NumAssign`, `Ord`) and the
  const generic `DIMS`. Coordinates are `int` and a point's dimension is the
  length of its coordinate sequence. Binary operations require equal
  dimensions, which the source's array type enforces.
- Grid.Min: returns the positions of the kept points instead of references
  to them.
- Grid.Min: is modelled for lattice points only, not for any `PartialOrd`
  type.
- `trim` and `propagate_set` mutate through `&mut`. They are modelled as
  methods that return the new vector.
- The Gaussian operator impls `+`, `-`, `*`, `/`, `%` and the named methods
  `add`, `subtract`, `multiply` share one definition each, since their
  bodies are identical.
- GaussianIntegers.Gcd: its contract only ties the result to `GcdOf`.
  Divisibility, the zero case and unit replacement are lemmas about
  `GcdOf`.
- Polynomials.Gcd: its contract only ties the result to `GcdOf`. Its
  properties are `GcdOf`'s contract.
- Gaussian divisibility (`Divides`) is stated with an existential witness.
  No uniqueness of the gcd up to units is proved.
