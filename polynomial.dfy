/**
 * Dense univariate polynomials over exact real coefficients. Index `i` of
 * `coeffs` holds the coefficient of x^i; the number of stored coefficients
 * is the polynomial's `norm`. Nothing forces the last stored coefficient to
 * be nonzero: only `trim`, and the operations that call it, remove
 * trailing zeros.
 *
 * Every operation takes its operands by value and builds a new coefficient
 * vector step by step, as the original does; the specification functions
 * below (`Trimmed`, `Conv`, `Eliminate`, `Remainder`, `Quotient`, `Euclid`)
 * say what each loop computes.
 */
module Polynomials {
  import opened Arithmetic

  datatype Polynomial = Polynomial(coeffs: seq<real>)

  /** The polynomial with no coefficients, which stands for 0. */
  const EMPTY := Polynomial([])

  function Zeros(n: nat): (z: seq<real>)
    ensures |z| == n && forall i :: 0 <= i < n ==> z[i] == 0.0
  {
    seq(n, _ => 0.0)
  }

  function Max(x: nat, y: nat): (m: nat) { if x < y then y else x }

  function Min(x: nat, y: nat): (m: nat) { if x < y then x else y }

  // ---------------------------------------------------------------------
  // Accessors

  /** `norm`: the number of stored coefficients; only the empty polynomial has none. */
  function Norm(p: Polynomial): (n: nat)
    ensures n == 0 <==> p == EMPTY
  {
    |p.coeffs|
  }

  /** `get`: the coefficient of x^i, reading past the stored ones as zero. */
  function Get(p: Polynomial, i: nat): (c: real)
    ensures i < Norm(p) ==> c == p.coeffs[i]
    ensures i >= Norm(p) ==> c == 0.0
  {
    if i < |p.coeffs| then p.coeffs[i] else 0.0
  }

  /** `leading`: the last stored coefficient, zero for the empty polynomial. */
  function Leading(p: Polynomial): (c: real)
    ensures Norm(p) > 0 ==> c == Get(p, Norm(p) - 1)
    ensures Norm(p) == 0 ==> c == 0.0
  {
    if |p.coeffs| == 0 then 0.0 else p.coeffs[|p.coeffs| - 1]
  }

  /** No trailing zero coefficient. */
  predicate IsTrimmed(p: Polynomial)
  {
    |p.coeffs| == 0 || p.coeffs[|p.coeffs| - 1] != 0.0
  }

  /**
   * Two trimmed polynomials with the same coefficients are the same value:
   * `get` determines a trimmed polynomial.
   */
  lemma {:induction false} TrimmedUnique(a: Polynomial, b: Polynomial)
    requires IsTrimmed(a) && IsTrimmed(b)
    requires forall i: nat :: Get(a, i) == Get(b, i)
    ensures a == b
  {
    if |a.coeffs| > 0 {
      assert Get(b, |a.coeffs| - 1) != 0.0;
    }
    if |b.coeffs| > 0 {
      assert Get(a, |b.coeffs| - 1) != 0.0;
    }
    forall i | 0 <= i < |a.coeffs|
      ensures a.coeffs[i] == b.coeffs[i]
    {
      assert Get(a, i) == Get(b, i);
    }
  }

  /** What `trim` leaves: the longest prefix without a trailing zero. */
  function Trimmed(p: Polynomial): (r: Polynomial)
    ensures IsTrimmed(r)
    ensures r.coeffs <= p.coeffs
    ensures forall i: nat :: Get(r, i) == Get(p, i)
    ensures IsTrimmed(p) ==> r == p
    decreases |p.coeffs|
  {
    if |p.coeffs| > 0 && p.coeffs[|p.coeffs| - 1] == 0.0 then
      Trimmed(Polynomial(p.coeffs[..|p.coeffs| - 1]))
    else
      p
  }

  // ---------------------------------------------------------------------
  // Construction, trimming and shifting

  /** `new`: a polynomial holding a copy of the given coefficients. */
  method New(coefficients: seq<real>) returns (p: Polynomial)
    ensures p.coeffs == coefficients
  {
    var v := [];
    for i := 0 to |coefficients|
      invariant v == coefficients[..i]
    {
      v := v + [coefficients[i]];
    }
    p := Polynomial(v);
  }

  /** `trim`: pops zero coefficients off the end while there are any. */
  method Trim(p: Polynomial) returns (r: Polynomial)
    ensures r == Trimmed(p)
    ensures IsTrimmed(r) && r.coeffs <= p.coeffs
    ensures forall i: nat :: Get(r, i) == Get(p, i)
  {
    var coeffs := p.coeffs;
    while |coeffs| > 0 && coeffs[|coeffs| - 1] == 0.0
      invariant coeffs <= p.coeffs
      invariant Trimmed(Polynomial(coeffs)) == Trimmed(p)
      decreases |coeffs|
    {
      coeffs := coeffs[..|coeffs| - 1];
    }
    r := Polynomial(coeffs);
  }

  /** `<<`: multiplication by x^n, that is, n zero coefficients in front. */
  method Shl(p: Polynomial, n: nat) returns (r: Polynomial)
    ensures Norm(r) == Norm(p) + n
    ensures forall i :: 0 <= i < n ==> r.coeffs[i] == 0.0
    ensures forall i :: 0 <= i < Norm(p) ==> r.coeffs[i + n] == p.coeffs[i]
    ensures forall i: nat :: Get(r, i + n) == Get(p, i)
  {
    var out := Zeros(|p.coeffs| + n);
    for i := 0 to |p.coeffs|
      invariant |out| == |p.coeffs| + n
      invariant forall k :: 0 <= k < n ==> out[k] == 0.0
      invariant forall j :: n <= j < |out| ==> out[j] == if j - n < i then p.coeffs[j - n] else 0.0
    {
      out := out[i + n := p.coeffs[i]];
    }
    r := Polynomial(out);
  }

  // ---------------------------------------------------------------------
  // Addition, negation, subtraction

  /**
   * `+`: adds the shorter operand into a copy of the longer one (the
   * left-hand one on a tie), then trims. The sum is coefficient-wise and
   * trimmed, and no longer than the longer operand.
   */
  method Add(p: Polynomial, q: Polynomial) returns (r: Polynomial)
    ensures IsTrimmed(r)
    ensures forall i: nat :: Get(r, i) == Get(p, i) + Get(q, i)
    ensures Norm(r) <= Max(Norm(p), Norm(q))
  {
    var smaller, bigger := q, p;
    if |p.coeffs| < |q.coeffs| {
      smaller, bigger := p, q;
    }
    var coeffs := bigger.coeffs;
    for i := 0 to |smaller.coeffs|
      invariant |coeffs| == |bigger.coeffs|
      invariant forall k :: 0 <= k < |coeffs| ==>
        coeffs[k] == bigger.coeffs[k] + (if k < i then smaller.coeffs[k] else 0.0)
    {
      coeffs := coeffs[i := coeffs[i] + smaller.coeffs[i]];
    }
    r := Trim(Polynomial(coeffs));
    forall i: nat
      ensures Get(r, i) == Get(p, i) + Get(q, i)
    {
      assert Get(r, i) == Get(Polynomial(coeffs), i);
    }
  }

  /** `-` (unary): every coefficient multiplied by −1, the length kept, nothing trimmed. */
  method Neg(p: Polynomial) returns (r: Polynomial)
    ensures Norm(r) == Norm(p)
    ensures forall i :: 0 <= i < Norm(p) ==> r.coeffs[i] == -p.coeffs[i]
    ensures forall i: nat :: Get(r, i) == -Get(p, i)
  {
    var coeffs := p.coeffs;
    for i := 0 to |coeffs|
      invariant |coeffs| == |p.coeffs|
      invariant forall k :: 0 <= k < |coeffs| ==> coeffs[k] == if k < i then -p.coeffs[k] else p.coeffs[k]
    {
      coeffs := coeffs[i := coeffs[i] * -1.0];
    }
    r := Polynomial(coeffs);
  }

  /** `-` (binary): `p + (−q)`, so the difference is coefficient-wise and trimmed. */
  method Sub(p: Polynomial, q: Polynomial) returns (r: Polynomial)
    ensures IsTrimmed(r)
    ensures forall i: nat :: Get(r, i) == Get(p, i) - Get(q, i)
    ensures Norm(r) <= Max(Norm(p), Norm(q))
  {
    var negated := Neg(q);
    r := Add(p, negated);
  }

  // ---------------------------------------------------------------------
  // Multiplication

  /** The first `n` terms of the coefficient of x^k in `p·q`: Σ_{i<n, i≤k} p[i]·q[k−i]. */
  function ConvSum(p: Polynomial, q: Polynomial, k: nat, n: nat): (c: real)
    requires n <= |p.coeffs|
  {
    if n == 0 then 0.0
    else ConvSum(p, q, k, n - 1) + (if n - 1 <= k then p.coeffs[n - 1] * Get(q, k - (n - 1)) else 0.0)
  }

  /** The coefficient of x^k in `p·q`: the sum of p[i]·q[j] over i + j = k. */
  function Conv(p: Polynomial, q: Polynomial, k: nat): (c: real)
  {
    ConvSum(p, q, k, |p.coeffs|)
  }

  /** Past degree |p| + |q| − 2 every coefficient of the product is zero. */
  lemma {:induction false} ConvSumBeyond(p: Polynomial, q: Polynomial, k: nat, n: nat)
    requires n <= |p.coeffs| && k + 1 >= |p.coeffs| + |q.coeffs|
    ensures ConvSum(p, q, k, n) == 0.0
  {
    if n > 0 {
      ConvSumBeyond(p, q, k, n - 1);
    }
  }

  /** The product as `*` lays it out: |p| + |q| − 1 coefficients, the k-th being `Conv(p, q, k)`. */
  function ProductOf(p: Polynomial, q: Polynomial): (r: Polynomial)
    requires |p.coeffs| + |q.coeffs| >= 1
    ensures Norm(r) == Norm(p) + Norm(q) - 1
    ensures forall k: nat :: Get(r, k) == Conv(p, q, k)
  {
    var r := Polynomial(seq(|p.coeffs| + |q.coeffs| - 1, k requires 0 <= k => Conv(p, q, k)));
    forall k: nat | k >= |r.coeffs|
      ensures Conv(p, q, k) == 0.0
    {
      ConvSumBeyond(p, q, k, |p.coeffs|);
    }
    r
  }

  /**
   * `*`: the nested loops add p[i]·q[j] into coefficient i + j. Both
   * operands empty is excluded: the length |p| + |q| − 1 would underflow.
   * The product is not trimmed.
   */
  method Mul(p: Polynomial, q: Polynomial) returns (r: Polynomial)
    requires Norm(p) + Norm(q) >= 1
    ensures r == ProductOf(p, q)
    ensures Norm(r) == Norm(p) + Norm(q) - 1
  {
    var size := |p.coeffs| + |q.coeffs| - 1;
    var out := Zeros(size);
    for i := 0 to |p.coeffs|
      invariant |out| == size
      invariant forall k :: 0 <= k < size ==> out[k] == ConvSum(p, q, k, i)
    {
      for j := 0 to |q.coeffs|
        invariant |out| == size
        invariant forall k :: 0 <= k < size ==>
          out[k] == ConvSum(p, q, k, i) + (if i <= k < i + j then p.coeffs[i] * q.coeffs[k - i] else 0.0)
      {
        out := out[i + j := out[i + j] + p.coeffs[i] * q.coeffs[j]];
      }
    }
    r := Polynomial(out);
  }

  /** For nonempty operands the leading coefficient of the product is the product of the leading ones. */
  lemma ProductLeading(p: Polynomial, q: Polynomial)
    requires Norm(p) > 0 && Norm(q) > 0
    ensures Leading(ProductOf(p, q)) == Leading(p) * Leading(q)
  {
    var k := |p.coeffs| + |q.coeffs| - 2;
    ConvSumBelowTop(p, q, |p.coeffs| - 1);
    assert ConvSum(p, q, k, |p.coeffs|) == ConvSum(p, q, k, |p.coeffs| - 1) + p.coeffs[|p.coeffs| - 1] * Get(q, |q.coeffs| - 1);
  }

  lemma {:induction false} ConvSumBelowTop(p: Polynomial, q: Polynomial, n: nat)
    requires n < |p.coeffs| && |q.coeffs| > 0
    ensures ConvSum(p, q, |p.coeffs| + |q.coeffs| - 2, n) == 0.0
  {
    if n > 0 {
      ConvSumBelowTop(p, q, n - 1);
    }
  }

  /** Trimmed operands give a trimmed product: real coefficients have no zero divisors. */
  lemma ProductTrimmed(p: Polynomial, q: Polynomial)
    requires IsTrimmed(p) && IsTrimmed(q) && Norm(p) > 0 && Norm(q) > 0
    ensures IsTrimmed(ProductOf(p, q))
  {
    ProductLeading(p, q);
  }

  /** The coefficient of x^k in `f·x^d·q`. */
  function Shifted(q: Polynomial, f: real, d: nat, k: nat): (c: real)
  {
    if d <= k then Get(q, k - d) * f else 0.0
  }

  /** The monomial `f·x^d`, as `new(&[f]) << d` builds it. */
  function Monomial(f: real, d: nat): (m: Polynomial)
    ensures Norm(m) == d + 1 && Get(m, d) == f
    ensures forall i: nat :: i != d ==> Get(m, i) == 0.0
  {
    Polynomial(seq(d + 1, i => if i == d then f else 0.0))
  }

  /** Multiplying by a monomial shifts and scales. */
  lemma ConvMonomial(q: Polynomial, f: real, d: nat, k: nat)
    ensures Conv(q, Monomial(f, d), k) == Shifted(q, f, d, k)
  {
    ConvSumMonomial(q, f, d, k, |q.coeffs|);
  }

  lemma {:induction false} ConvSumMonomial(q: Polynomial, f: real, d: nat, k: nat, n: nat)
    requires n <= |q.coeffs|
    ensures ConvSum(q, Monomial(f, d), k, n) == if d <= k && k - d < n then q.coeffs[k - d] * f else 0.0
  {
    if n > 0 {
      ConvSumMonomial(q, f, d, k, n - 1);
    }
  }

  /**
   * Setting a zero coefficient of the right operand to `f` adds the
   * shifted `f·x^d·q` to the product: the product is linear in that operand.
   */
  lemma ConvUpdate(q: Polynomial, acc: seq<real>, d: nat, f: real, k: nat)
    requires d < |acc| && acc[d] == 0.0
    ensures Conv(q, Polynomial(acc[d := f]), k) == Conv(q, Polynomial(acc), k) + Shifted(q, f, d, k)
  {
    ConvSumUpdate(q, acc, d, f, k, |q.coeffs|);
  }

  lemma {:induction false} ConvSumUpdate(q: Polynomial, acc: seq<real>, d: nat, f: real, k: nat, n: nat)
    requires d < |acc| && acc[d] == 0.0 && n <= |q.coeffs|
    ensures ConvSum(q, Polynomial(acc[d := f]), k, n)
         == ConvSum(q, Polynomial(acc), k, n) + (if d <= k && k - d < n then q.coeffs[k - d] * f else 0.0)
  {
    if n > 0 {
      ConvSumUpdate(q, acc, d, f, k, n - 1);
    }
  }

  /** A zero right operand gives a zero product. */
  lemma ConvZeros(q: Polynomial, n: nat, k: nat)
    ensures Conv(q, Polynomial(Zeros(n)), k) == 0.0
  {
    ConvSumZeros(q, n, k, |q.coeffs|);
  }

  lemma {:induction false} ConvSumZeros(q: Polynomial, n: nat, k: nat, m: nat)
    requires m <= |q.coeffs|
    ensures ConvSum(q, Polynomial(Zeros(n)), k, m) == 0.0
  {
    if m > 0 {
      ConvSumZeros(q, n, k, m - 1);
    }
  }

  // ---------------------------------------------------------------------
  // Long division

  /**
   * One round of long division: subtract `f·x^d·q`, where `d` is the
   * difference in length and `f` the ratio of leading coefficients, then
   * trim. The top coefficient cancels, so the trimmed result is shorter.
   */
  function Eliminate(p: Polynomial, q: Polynomial): (r: Polynomial)
    requires Leading(q) != 0.0 && Norm(p) >= Norm(q)
    ensures IsTrimmed(r)
    ensures Norm(r) < Norm(p)
    ensures forall k: nat ::
      Get(r, k) == Get(p, k) - Shifted(q, Leading(p) / Leading(q), Norm(p) - Norm(q), k)
  {
    var d, f := |p.coeffs| - |q.coeffs|, Leading(p) / Leading(q);
    var full := Polynomial(seq(|p.coeffs|, k requires 0 <= k < |p.coeffs| =>
                  p.coeffs[k] - Shifted(q, f, d, k)));
    QuotientTimesDivisor(Leading(p), Leading(q));
    assert full.coeffs[|p.coeffs| - 1] == 0.0;
    Trimmed(full)
  }

  /** What `%` computes: eliminate the top coefficient until the dividend is shorter than `q`. */
  function Remainder(p: Polynomial, q: Polynomial): (r: Polynomial)
    requires Leading(q) != 0.0
    ensures Norm(r) < Norm(q)
    ensures Norm(p) >= Norm(q) ==> IsTrimmed(r)
    ensures Norm(p) < Norm(q) ==> r == p
    decreases Norm(p)
  {
    if Norm(p) < Norm(q) then p else Remainder(Eliminate(p, q), q)
  }

  /**
   * What `/` accumulates: each round writes its factor into position
   * `Norm(p) − Norm(q)` of `acc`.
   */
  function Quotient(p: Polynomial, q: Polynomial, acc: seq<real>): (r: seq<real>)
    requires Leading(q) != 0.0
    requires Norm(p) < Norm(q) || Norm(p) - Norm(q) < |acc|
    ensures |r| == |acc|
    decreases Norm(p)
  {
    if Norm(p) < Norm(q) then acc
    else Quotient(Eliminate(p, q), q, acc[Norm(p) - Norm(q) := Leading(p) / Leading(q)])
  }

  /** The quotient `/` returns: accumulated into Norm(p) − Norm(q) + 1 zeros. */
  function QuotientOf(p: Polynomial, q: Polynomial): (r: Polynomial)
    requires Leading(q) != 0.0 && Norm(p) >= Norm(q)
    ensures Norm(r) == Norm(p) - Norm(q) + 1
  {
    Polynomial(Quotient(p, q, Zeros(Norm(p) - Norm(q) + 1)))
  }

  /**
   * The division identity with an accumulator: whatever `acc` already
   * holds times `q`, plus `p`, is the final quotient times `q` plus the
   * remainder, as long as the positions still to be written hold zero.
   */
  lemma {:induction false} DivisionIdentityFrom(p: Polynomial, q: Polynomial, acc: seq<real>)
    requires Leading(q) != 0.0
    requires Norm(p) < Norm(q) || Norm(p) - Norm(q) < |acc|
    requires forall j :: 0 <= j < |acc| && j + Norm(q) <= Norm(p) ==> acc[j] == 0.0
    ensures forall k: nat :: Get(p, k) + Conv(q, Polynomial(acc), k)
                          == Conv(q, Polynomial(Quotient(p, q, acc)), k) + Get(Remainder(p, q), k)
    decreases Norm(p)
  {
    if Norm(p) >= Norm(q) {
      var d, f := Norm(p) - Norm(q), Leading(p) / Leading(q);
      var e, acc' := Eliminate(p, q), acc[d := f];
      DivisionIdentityFrom(e, q, acc');
      forall k: nat
        ensures Get(p, k) + Conv(q, Polynomial(acc), k)
             == Conv(q, Polynomial(Quotient(p, q, acc)), k) + Get(Remainder(p, q), k)
      {
        ConvUpdate(q, acc, d, f, k);
      }
    }
  }

  /** `p == q·(p / q) + p % q`, coefficient by coefficient. */
  lemma DivisionIdentity(p: Polynomial, q: Polynomial)
    requires Leading(q) != 0.0 && Norm(p) >= Norm(q)
    ensures forall k: nat :: Get(p, k) == Conv(q, QuotientOf(p, q), k) + Get(Remainder(p, q), k)
  {
    var zeros := Zeros(Norm(p) - Norm(q) + 1);
    DivisionIdentityFrom(p, q, zeros);
    forall k: nat
      ensures Get(p, k) == Conv(q, QuotientOf(p, q), k) + Get(Remainder(p, q), k)
    {
      ConvZeros(q, Norm(p) - Norm(q) + 1, k);
    }
  }

  /**
   * The body both division loops share: `dividend − q·(new(&[f]) << d)`,
   * trimmed, is one `Eliminate` round.
   */
  method EliminationRound(dividend: Polynomial, q: Polynomial) returns (r: Polynomial, factor: real)
    requires Leading(q) != 0.0 && Norm(dividend) >= Norm(q)
    ensures factor == Leading(dividend) / Leading(q)
    ensures r == Eliminate(dividend, q)
  {
    factor := Leading(dividend) / Leading(q);
    var single := New([factor]);
    var d := Norm(dividend) - Norm(q);
    var num := Shl(single, d);
    assert num.coeffs == Monomial(factor, d).coeffs by {
      assert num.coeffs[0 + d] == single.coeffs[0];
    }
    var product := Mul(q, num);
    var difference := Sub(dividend, product);
    r := Trim(difference);
    RoundIsElimination(dividend, q, num, product, r);
  }

  lemma RoundIsElimination(dividend: Polynomial, q: Polynomial, num: Polynomial, product: Polynomial, r: Polynomial)
    requires Leading(q) != 0.0 && Norm(dividend) >= Norm(q)
    requires num.coeffs == Monomial(Leading(dividend) / Leading(q), Norm(dividend) - Norm(q)).coeffs
    requires product == ProductOf(q, num)
    requires IsTrimmed(r)
    requires forall i: nat :: Get(r, i) == Get(dividend, i) - Get(product, i)
    ensures r == Eliminate(dividend, q)
  {
    var d, f := Norm(dividend) - Norm(q), Leading(dividend) / Leading(q);
    forall k: nat
      ensures Get(r, k) == Get(Eliminate(dividend, q), k)
    {
      ConvMonomial(q, f, d, k);
    }
    TrimmedUnique(r, Eliminate(dividend, q));
  }

  /** One elimination round leaves the final quotient and remainder unchanged. */
  lemma DivisionStep(dividend: Polynomial, q: Polynomial, acc: seq<real>)
    requires Leading(q) != 0.0 && Norm(dividend) >= Norm(q) && Norm(dividend) - Norm(q) < |acc|
    ensures Quotient(Eliminate(dividend, q), q, acc[Norm(dividend) - Norm(q) := Leading(dividend) / Leading(q)])
         == Quotient(dividend, q, acc)
    ensures Remainder(Eliminate(dividend, q), q) == Remainder(dividend, q)
  {
    QuotientStep(dividend, q, acc);
    RemainderStep(dividend, q);
  }

  lemma QuotientStep(dividend: Polynomial, q: Polynomial, acc: seq<real>)
    requires Leading(q) != 0.0 && Norm(dividend) >= Norm(q) && Norm(dividend) - Norm(q) < |acc|
    ensures Quotient(Eliminate(dividend, q), q, acc[Norm(dividend) - Norm(q) := Leading(dividend) / Leading(q)])
         == Quotient(dividend, q, acc)
  {
  }

  lemma RemainderStep(dividend: Polynomial, q: Polynomial)
    requires Leading(q) != 0.0 && Norm(dividend) >= Norm(q)
    ensures Remainder(Eliminate(dividend, q), q) == Remainder(dividend, q)
  {
  }

  /** Once the dividend is shorter than the divisor the accumulated coefficients are the quotient. */
  lemma DivisionDone(dividend: Polynomial, q: Polynomial, acc: seq<real>)
    requires Leading(q) != 0.0 && Norm(dividend) < Norm(q)
    ensures Quotient(dividend, q, acc) == acc
  {
  }

  /**
   * `/`: long division. `q` must have a nonzero leading coefficient (else
   * the factor divides by zero) and must not be longer than `p` (else the
   * length Norm(p) − Norm(q) + 1 underflows).
   */
  method Div(p: Polynomial, q: Polynomial) returns (r: Polynomial)
    requires Leading(q) != 0.0 && Norm(p) >= Norm(q)
    ensures r == QuotientOf(p, q)
    ensures Norm(r) == Norm(p) - Norm(q) + 1
    ensures forall k: nat :: Get(p, k) == Conv(q, r, k) + Get(Remainder(p, q), k)
  {
    var out := Zeros(Norm(p) - Norm(q) + 1);
    var dividend := p;
    while Norm(dividend) >= Norm(q)
      invariant |out| == Norm(p) - Norm(q) + 1 && Norm(dividend) <= Norm(p)
      invariant Quotient(dividend, q, out) == QuotientOf(p, q).coeffs
      invariant Remainder(dividend, q) == Remainder(p, q)
      decreases Norm(dividend)
    {
      var next, factor := EliminationRound(dividend, q);
      DivisionStep(dividend, q, out);
      out := out[Norm(dividend) - Norm(q) := factor];
      dividend := next;
    }
    DivisionDone(dividend, q, out);
    r := Polynomial(out);
    DivisionIdentity(p, q);
  }

  /**
   * `%`: the same elimination rounds as `/`, keeping the dividend. The
   * result is shorter than `q`; it is `p` itself when `p` already is, and
   * otherwise completes the division identity.
   */
  method Rem(p: Polynomial, q: Polynomial) returns (r: Polynomial)
    requires Leading(q) != 0.0
    ensures r == Remainder(p, q)
    ensures Norm(r) < Norm(q)
    ensures Norm(p) < Norm(q) ==> r == p
    ensures Norm(p) >= Norm(q) ==> IsTrimmed(r)
    ensures Norm(p) >= Norm(q) ==>
      forall k: nat :: Get(p, k) == Conv(q, QuotientOf(p, q), k) + Get(r, k)
  {
    var out := p;
    while Norm(out) >= Norm(q)
      invariant Remainder(out, q) == Remainder(p, q)
      decreases Norm(out)
    {
      var next, _ := EliminationRound(out, q);
      out := next;
    }
    r := out;
    if Norm(p) >= Norm(q) {
      DivisionIdentity(p, q);
    }
  }

  // ---------------------------------------------------------------------
  // Greatest common divisor and least common multiple

  /**
   * Euclid's algorithm on polynomials, as the `gcd` loop runs it: the
   * result is trimmed, is empty only when both arguments are, and is never
   * longer than a nonempty `lower`.
   */
  function Euclid(higher: Polynomial, lower: Polynomial): (g: Polynomial)
    requires IsTrimmed(higher) && IsTrimmed(lower)
    ensures IsTrimmed(g)
    ensures Norm(g) == 0 <==> Norm(higher) == 0 && Norm(lower) == 0
    ensures Norm(lower) > 0 ==> Norm(g) <= Norm(lower)
    decreases Norm(lower)
  {
    if Norm(lower) == 0 then higher else Euclid(lower, Remainder(higher, lower))
  }

  /** What `gcd` computes: Euclid's algorithm from the strictly longer operand (the second one on a tie). */
  function GcdOf(first: Polynomial, second: Polynomial): (g: Polynomial)
    requires IsTrimmed(first) && IsTrimmed(second)
    ensures IsTrimmed(g)
    ensures Norm(g) == 0 <==> Norm(first) == 0 && Norm(second) == 0
    ensures Norm(first) > 0 && Norm(second) > 0 ==> Norm(g) <= Min(Norm(first), Norm(second))
  {
    if Norm(first) > Norm(second) then Euclid(first, second) else Euclid(second, first)
  }

  /**
   * `gcd`: divides the longer operand by the shorter until the remainder is
   * empty, and returns the last nonempty remainder as it is (not made
   * monic). Both operands must be trimmed: a trailing zero in the divisor
   * would make the leading coefficient zero.
   */
  method Gcd(first: Polynomial, second: Polynomial) returns (g: Polynomial)
    requires IsTrimmed(first) && IsTrimmed(second)
    ensures g == GcdOf(first, second)
  {
    var higher, lower := second, first;
    if Norm(first) > Norm(second) {
      higher, lower := first, second;
    }
    while Norm(lower) > 0
      invariant IsTrimmed(higher) && IsTrimmed(lower)
      invariant Euclid(higher, lower) == GcdOf(first, second)
      decreases Norm(lower)
    {
      var rem := Rem(higher, lower);
      higher := lower;
      lower := rem;
    }
    g := higher;
  }

  /** With an empty operand the loop never runs: the other operand comes back unchanged. */
  lemma GcdWithEmpty(p: Polynomial)
    requires IsTrimmed(p)
    ensures GcdOf(p, EMPTY) == p && GcdOf(EMPTY, p) == p
  {
  }

  /**
   * `lcm`: the product divided by the gcd. Both operands must be nonempty:
   * with an empty one the product is shorter than the gcd and the length
   * in `/` underflows. The result has Norm(a) + Norm(b) − Norm(gcd)
   * coefficients and satisfies the division identity for a·b and the gcd.
   */
  method Lcm(first: Polynomial, second: Polynomial) returns (l: Polynomial)
    requires IsTrimmed(first) && IsTrimmed(second) && Norm(first) > 0 && Norm(second) > 0
    ensures Norm(l) == Norm(first) + Norm(second) - Norm(GcdOf(first, second))
    ensures l == QuotientOf(ProductOf(first, second), GcdOf(first, second))
    ensures forall k: nat ::
      Conv(first, second, k) == Conv(GcdOf(first, second), l, k)
                                + Get(Remainder(ProductOf(first, second), GcdOf(first, second)), k)
  {
    var product := Mul(first, second);
    var g := Gcd(first, second);
    l := Div(product, g);
  }
}
