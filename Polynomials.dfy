/**
 * Univariate polynomials over the rationals, as the coefficient sequences
 * the rings library stores (constant term first). Only the arithmetic the
 * modelled algorithms use is defined, each operation with its evaluation
 * law. A normalized polynomial has no trailing zero coefficient, except
 * the zero polynomial, which is [0].
 */
module Polynomials {

  type Coeffs = seq<real>

  /** Normalized coefficient sequences: what `UnivariatePolynomial<NumQ>` holds. */
  predicate Normalized(p: Coeffs) {
    |p| >= 1 && (|p| == 1 || p[|p| - 1] != 0.0)
  }

  type UPoly = p: Coeffs | Normalized(p) witness [0.0]

  /** `degree()`. */
  function Degree(p: UPoly): nat {
    |p| - 1
  }

  /** `lc()`: the coefficient of the highest power. */
  function Lc(p: UPoly): real {
    p[|p| - 1]
  }

  /** `isZero`. */
  predicate IsZeroPoly(p: UPoly) {
    p == [0.0]
  }

  /** The coefficient of x^i, zero past the end. */
  function Coeff(p: Coeffs, i: nat): real {
    if i < |p| then p[i] else 0.0
  }

  /** x^k. */
  function Power(x: real, k: nat): real {
    if k == 0 then 1.0 else x * Power(x, k - 1)
  }

  /** Evaluation at a point, in Horner form. */
  function Eval(p: Coeffs, x: real): real {
    if |p| == 0 then 0.0 else p[0] + x * Eval(p[1..], x)
  }

  // ---------------------------------------------------------------------
  // arithmetic on plain reals
  // ---------------------------------------------------------------------

  lemma Distribute(x: real, a: real, b: real)
    ensures x * (a + b) == x * a + x * b
  {
  }

  lemma MulAssociates(x: real, y: real, z: real)
    ensures x * (y * z) == (x * y) * z
  {
  }

  lemma MulCommutes(x: real, y: real)
    ensures x * y == y * x
  {
  }

  // ---------------------------------------------------------------------
  // addition
  // ---------------------------------------------------------------------

  function Max(a: nat, b: nat): nat {
    if a >= b then a else b
  }

  /** Coefficient-wise sum. */
  function Add(a: Coeffs, b: Coeffs): (r: Coeffs)
    ensures |r| == Max(|a|, |b|)
    ensures forall i :: 0 <= i < |r| ==> r[i] == Coeff(a, i) + Coeff(b, i)
  {
    seq(Max(|a|, |b|), i requires 0 <= i < Max(|a|, |b|) => Coeff(a, i) + Coeff(b, i))
  }

  /** Evaluation is additive. */
  lemma {:induction false} EvalAdd(a: Coeffs, b: Coeffs, x: real)
    ensures Eval(Add(a, b), x) == Eval(a, x) + Eval(b, x)
    decreases |a| + |b|
  {
    var r := Add(a, b);
    if |a| == 0 {
      assert r == b;
    } else if |b| == 0 {
      assert r == a;
    } else {
      assert r[1..] == Add(a[1..], b[1..]);
      EvalAdd(a[1..], b[1..], x);
      Distribute(x, Eval(a[1..], x), Eval(b[1..], x));
    }
  }

  // ---------------------------------------------------------------------
  // scaling and multiplication
  // ---------------------------------------------------------------------

  /** Every coefficient multiplied by c. */
  function ScaleBy(c: real, p: Coeffs): (r: Coeffs)
    ensures |r| == |p| && forall i :: 0 <= i < |p| ==> r[i] == c * p[i]
  {
    seq(|p|, i requires 0 <= i < |p| => c * p[i])
  }

  lemma {:induction false} EvalScaleBy(c: real, p: Coeffs, x: real)
    ensures Eval(ScaleBy(c, p), x) == c * Eval(p, x)
    decreases |p|
  {
    if |p| > 0 {
      forall i | 0 <= i < |p| - 1
        ensures ScaleBy(c, p)[1..][i] == ScaleBy(c, p[1..])[i]
      {
      }
      assert ScaleBy(c, p)[1..] == ScaleBy(c, p[1..]);
      EvalScaleBy(c, p[1..], x);
      ScaleStep(c, p[0], Eval(p[1..], x), x);
    }
  }

  lemma ScaleStep(c: real, p0: real, rest: real, x: real)
    ensures c * p0 + x * (c * rest) == c * (p0 + x * rest)
  {
    MulAssociates(x, c, rest);
    MulCommutes(x, c);
    MulAssociates(c, x, rest);
  }

  /** Multiplication by x: a zero constant term in front. */
  lemma {:induction false} EvalShift(p: Coeffs, x: real)
    ensures Eval([0.0] + p, x) == x * Eval(p, x)
  {
    assert ([0.0] + p)[1..] == p;
  }

  /** The product, by distributing the first factor's terms. */
  function Mul(a: Coeffs, b: Coeffs): Coeffs
    decreases |a|
  {
    if |a| == 0 then [] else Add(ScaleBy(a[0], b), [0.0] + Mul(a[1..], b))
  }

  /** Evaluation is multiplicative. */
  lemma {:induction false} EvalMul(a: Coeffs, b: Coeffs, x: real)
    ensures Eval(Mul(a, b), x) == Eval(a, x) * Eval(b, x)
    decreases |a|
  {
    if |a| > 0 {
      EvalMul(a[1..], b, x);
      EvalMulCons(a, b, x);
    }
  }

  /** The induction step of EvalMul. */
  lemma {:induction false} EvalMulCons(a: Coeffs, b: Coeffs, x: real)
    requires |a| > 0
    requires Eval(Mul(a[1..], b), x) == Eval(a[1..], x) * Eval(b, x)
    ensures Eval(Mul(a, b), x) == Eval(a, x) * Eval(b, x)
  {
    EvalMulFirst(a, b, x);
    EvalFirst(a, x);
    Distr(a[0], x * Eval(a[1..], x), Eval(b, x));
    MulAssociates(x, Eval(a[1..], x), Eval(b, x));
  }

  /** Horner's first step, as a lemma. */
  lemma {:induction false} EvalFirst(p: Coeffs, x: real)
    requires |p| > 0
    ensures Eval(p, x) == p[0] + x * Eval(p[1..], x)
  {
  }

  /** The first term of Mul: a0·b plus x times the rest. */
  lemma {:induction false} EvalMulFirst(a: Coeffs, b: Coeffs, x: real)
    requires |a| > 0
    ensures Eval(Mul(a, b), x) == a[0] * Eval(b, x) + x * Eval(Mul(a[1..], b), x)
  {
    var tail := Mul(a[1..], b);
    EvalAdd(ScaleBy(a[0], b), [0.0] + tail, x);
    EvalScaleBy(a[0], b, x);
    EvalShift(tail, x);
  }

  lemma Distr(x: real, y: real, z: real)
    ensures (x + y) * z == x * z + y * z
  {
  }

  /** A constant polynomial evaluates to its constant. */
  lemma {:induction false} EvalConstant(c: real, x: real)
    ensures Eval([c], x) == c
  {
    assert [c][1..] == [];
  }

  // ---------------------------------------------------------------------
  // normalization
  // ---------------------------------------------------------------------

  /** Trailing zero coefficients dropped; the zero polynomial is [0]. */
  function Normalize(p: Coeffs): (r: UPoly)
    ensures |r| <= |p| || r == [0.0]
    ensures forall i :: 0 <= i < |r| ==> r[i] == Coeff(p, i)
    ensures forall i :: |r| <= i < |p| ==> p[i] == 0.0
    decreases |p|
  {
    if |p| == 0 then [0.0]
    else if p[|p| - 1] == 0.0 then Normalize(p[..|p| - 1])
    else p
  }

  /** Appending a zero coefficient changes no value. */
  lemma {:induction false} EvalTrailingZero(p: Coeffs, x: real)
    ensures Eval(p + [0.0], x) == Eval(p, x)
    decreases |p|
  {
    if |p| == 0 {
      assert Eval([0.0], x) == 0.0 + x * Eval([], x);
    } else {
      assert (p + [0.0])[1..] == p[1..] + [0.0];
      EvalTrailingZero(p[1..], x);
    }
  }

  /** Normalizing changes no value. */
  lemma {:induction false} EvalNormalize(p: Coeffs, x: real)
    ensures Eval(Normalize(p), x) == Eval(p, x)
    decreases |p|
  {
    if |p| == 0 {
      assert Eval([0.0], x) == 0.0 + x * Eval([], x);
    } else if p[|p| - 1] == 0.0 {
      var front := p[..|p| - 1];
      assert p == front + [0.0];
      EvalNormalize(front, x);
      EvalTrailingZero(front, x);
    }
  }

  /** A normalized sequence is its own normal form. */
  lemma NormalizeNormalized(p: UPoly)
    ensures Normalize(p) == p
  {
    if p[|p| - 1] == 0.0 {
      assert p == [0.0];
    }
  }

  // ---------------------------------------------------------------------
  // the polynomial ring: every result normalized, as the rings library keeps it
  // ---------------------------------------------------------------------

  /** `UnivariatePolynomial.zero`. */
  function Zero(): (r: UPoly)
    ensures IsZeroPoly(r)
  {
    [0.0]
  }

  lemma EvalZero()
    ensures forall x :: Eval([0.0], x) == 0.0
  {
    forall x: real
      ensures Eval([0.0], x) == 0.0
    {
      EvalConstant(0.0, x);
    }
  }

  /** `UnivariatePolynomial.one`. */
  function One(): (r: UPoly)
    ensures Degree(r) == 0 && r[0] == 1.0
  {
    [1.0]
  }

  lemma EvalOne()
    ensures forall x :: Eval([1.0], x) == 1.0
  {
    forall x: real
      ensures Eval([1.0], x) == 1.0
    {
      EvalConstant(1.0, x);
    }
  }

  /** `UnivariatePolynomial.create(c0, c1)`: the polynomial c0 + c1·x. */
  function Create(c0: real, c1: real): UPoly {
    Normalize([c0, c1])
  }

  lemma {:induction false} EvalCreate(c0: real, c1: real, x: real)
    ensures Eval(Create(c0, c1), x) == c0 + c1 * x
  {
    EvalNormalize([c0, c1], x);
    assert [c0, c1][1..] == [c1];
    EvalConstant(c1, x);
  }

  /** Ring addition. */
  function PAdd(a: UPoly, b: UPoly): UPoly {
    Normalize(Add(a, b))
  }

  /** Ring multiplication. */
  function PMul(a: UPoly, b: UPoly): UPoly {
    Normalize(Mul(a, b))
  }

  /** Multiplication by a constant. */
  function PScale(c: real, a: UPoly): UPoly {
    Normalize(ScaleBy(c, a))
  }

  /** a^k in the ring. */
  function PPow(a: UPoly, k: nat): UPoly {
    if k == 0 then One() else PMul(a, PPow(a, k - 1))
  }

  lemma {:induction false} EvalPAdd(a: UPoly, b: UPoly, x: real)
    ensures Eval(PAdd(a, b), x) == Eval(a, x) + Eval(b, x)
  {
    EvalNormalize(Add(a, b), x);
    EvalAdd(a, b, x);
  }

  lemma {:induction false} EvalPMul(a: UPoly, b: UPoly, x: real)
    ensures Eval(PMul(a, b), x) == Eval(a, x) * Eval(b, x)
  {
    EvalNormalize(Mul(a, b), x);
    EvalMul(a, b, x);
  }

  lemma {:induction false} EvalPScale(c: real, a: UPoly, x: real)
    ensures Eval(PScale(c, a), x) == c * Eval(a, x)
  {
    EvalNormalize(ScaleBy(c, a), x);
    EvalScaleBy(c, a, x);
  }

  lemma {:induction false} EvalPPow(a: UPoly, k: nat, x: real)
    ensures Eval(PPow(a, k), x) == Power(Eval(a, x), k)
    decreases k
  {
    if k == 0 {
      EvalOne();
    } else {
      var j: nat := k - 1;
      EvalPPow(a, j, x);
      EvalPPowStep(a, j, k, x);
    }
  }

  /** One more factor a raises the value of a^j to the next power. */
  lemma {:induction false} EvalPPowStep(a: UPoly, j: nat, k: nat, x: real)
    requires k == j + 1 && Eval(PPow(a, j), x) == Power(Eval(a, x), j)
    ensures Eval(PPow(a, k), x) == Power(Eval(a, x), k)
  {
    var q, m := PPow(a, j), PPow(a, k);
    PPowUnfold(a, j, k);
    EvalPMulPower(a, q, m, j, k, x);
  }

  /** a^(j+1) is a times a^j. */
  lemma PPowUnfold(a: UPoly, j: nat, k: nat)
    requires k == j + 1
    ensures PPow(a, k) == PMul(a, PPow(a, j))
  {
  }

  /** A product by a once more raises the power of a's value. */
  lemma {:induction false} EvalPMulPower(a: UPoly, q: UPoly, m: UPoly, j: nat, k: nat, x: real)
    requires k == j + 1 && m == PMul(a, q) && Eval(q, x) == Power(Eval(a, x), j)
    ensures Eval(m, x) == Power(Eval(a, x), k)
  {
    EvalPMul(a, q, x);
    EvalPowerStep(a, m, q, j, k, x);
  }

  /** m == a·q and q == a^j in value give m == a^(j+1) in value. */
  lemma {:induction false} EvalPowerStep(a: Coeffs, m: Coeffs, q: Coeffs, j: nat, k: nat, x: real)
    requires k == j + 1
    requires Eval(q, x) == Power(Eval(a, x), j)
    requires Eval(m, x) == Eval(a, x) * Eval(q, x)
    ensures Eval(m, x) == Power(Eval(a, x), k)
  {
  }

  // ---------------------------------------------------------------------
  // powers of reals and the power-sum form of evaluation
  // ---------------------------------------------------------------------

  /** x^m · x^n == x^(m+n). */
  lemma {:induction false} PowerAdd(x: real, m: nat, n: nat)
    ensures Power(x, m) * Power(x, n) == Power(x, m + n)
    decreases m
  {
    if m > 0 {
      PowerAdd(x, m - 1, n);
      MulAssociates(x, Power(x, m - 1), Power(x, n));
    }
  }

  /** (x·y)^k == x^k · y^k. */
  lemma {:induction false} PowerMul(x: real, y: real, k: nat)
    ensures Power(x * y, k) == Power(x, k) * Power(y, k)
    decreases k
  {
    if k > 0 {
      PowerMul(x, y, k - 1);
      SwapProducts(x, y, Power(x, k - 1), Power(y, k - 1));
    }
  }

  /** (x·y)·(u·v) == (x·u)·(y·v). */
  lemma SwapProducts(x: real, y: real, u: real, v: real)
    ensures (x * y) * (u * v) == (x * u) * (y * v)
  {
  }

  /** The value c·x^i of one monomial. */
  function Monomial(c: real, x: real, i: nat): real {
    c * Power(x, i)
  }

  lemma {:induction false} EvalAppend(p: Coeffs, c: real, x: real)
    ensures Eval(p + [c], x) == Eval(p, x) + Monomial(c, x, |p|)
    decreases |p|
  {
    if |p| == 0 {
      EvalConstant(c, x);
    } else {
      assert (p + [c])[1..] == p[1..] + [c];
      EvalAppend(p[1..], c, x);
      AppendStep(p[0], x, Eval(p[1..], x), c, Power(x, |p| - 1));
    }
  }

  lemma AppendStep(p0: real, x: real, rest: real, c: real, w: real)
    ensures p0 + x * (rest + c * w) == (p0 + x * rest) + c * (x * w)
  {
    Distribute(x, rest, c * w);
    MulAssociates(x, c, w);
    MulCommutes(x, c);
    MulAssociates(c, x, w);
  }
}
