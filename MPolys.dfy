/**
 * Multivariate polynomials over the rationals, as the rings library's
 * `MultivariatePolynomial<Rational>` presents them to the toolkit: a ring
 * with `nVariables` variables and a sequence of monomials, each a
 * coefficient with one exponent per variable. Exact values are real.
 */
module MPolys {
  import opened Polynomials

  /** A monomial c · x_0^e_0 ⋯ x_(n−1)^e_(n−1). */
  datatype Term = Term(coefficient: real, exponents: seq<nat>)

  /** A polynomial of the ring with `nVariables` variables. */
  datatype MPoly = MPoly(nVariables: nat, terms: seq<Term>)

  /** Every monomial carries one exponent per variable of the ring. */
  predicate WellFormed(p: MPoly) {
    forall k :: 0 <= k < |p.terms| ==> |p.terms[k].exponents| == p.nVariables
  }

  /** Coordinate i of a point, 0 beyond its end (only ever raised to the power 0). */
  function Coord(pt: seq<real>, i: nat): real {
    if i < |pt| then pt[i] else 0.0
  }

  /** Exponent i of a monomial, 0 beyond its end. */
  function ExponentAt(t: Term, i: nat): nat {
    if i < |t.exponents| then t.exponents[i] else 0
  }

  /** The product of the first k factors x_i^e_i of a monomial at pt. */
  function MonomialValue(exps: seq<nat>, pt: seq<real>, k: nat): real
    requires k <= |exps|
    decreases k
  {
    if k == 0 then 1.0 else MonomialValue(exps, pt, k - 1) * Power(Coord(pt, k - 1), exps[k - 1])
  }

  /** The value of one monomial at pt: its variables' product times its coefficient. */
  function TermValue(t: Term, pt: seq<real>): real {
    MonomialValue(t.exponents, pt, |t.exponents|) * t.coefficient
  }

  /** The sum of the first k monomials at pt. */
  function EvalPrefix(p: MPoly, pt: seq<real>, k: nat): real
    requires k <= |p.terms|
    decreases k
  {
    if k == 0 then 0.0 else EvalPrefix(p, pt, k - 1) + TermValue(p.terms[k - 1], pt)
  }

  /** The exact value of p at pt. */
  function MEval(p: MPoly, pt: seq<real>): real {
    EvalPrefix(p, pt, |p.terms|)
  }

  /** `degree(d)`: the largest exponent of variable d, 0 when it does not occur. */
  function DegreeIn(p: MPoly, d: nat): (r: nat)
    ensures forall k :: 0 <= k < |p.terms| ==> ExponentAt(p.terms[k], d) <= r
    ensures r == 0 || exists k :: 0 <= k < |p.terms| && ExponentAt(p.terms[k], d) == r
  {
    DegreeInPrefix(p, d, |p.terms|)
  }

  function DegreeInPrefix(p: MPoly, d: nat, k: nat): (r: nat)
    requires k <= |p.terms|
    ensures forall j :: 0 <= j < k ==> ExponentAt(p.terms[j], d) <= r
    ensures r == 0 || exists j :: 0 <= j < k && ExponentAt(p.terms[j], d) == r
    decreases k
  {
    if k == 0 then 0
    else
      var rest := DegreeInPrefix(p, d, k - 1);
      var e := ExponentAt(p.terms[k - 1], d);
      if e > rest then e else rest
  }

  /** The exponents of the monomial x_d in a ring with n variables. */
  function UnitExponents(n: nat, d: nat): (r: seq<nat>)
    ensures |r| == n && forall i :: 0 <= i < n ==> r[i] == if i == d then 1 else 0
  {
    seq(n, i => if i == d then 1 else 0)
  }

  /** The exponents of a constant monomial in a ring with n variables. */
  function ZeroExponents(n: nat): (r: seq<nat>)
    ensures |r| == n && forall i :: 0 <= i < n ==> r[i] == 0
  {
    seq(n, i => 0)
  }

  /** The polynomial x_d − c of the ring with n variables. */
  function VariableMinus(n: nat, d: nat, c: real): (r: MPoly)
    requires d < n
    ensures WellFormed(r) && r.nVariables == n
    ensures forall pt :: |pt| == n ==> MEval(r, pt) == pt[d] - c
  {
    var unit := Term(1.0, UnitExponents(n, d));
    var constant := Term(-c, ZeroExponents(n));
    var r := MPoly(n, [unit, constant]);
    forall pt | |pt| == n
      ensures MEval(r, pt) == pt[d] - c
    {
      UnitMonomial(n, d, pt, n);
      ConstantMonomial(n, pt, n);
      assert TermValue(unit, pt) == pt[d];
      assert TermValue(constant, pt) == -c;
      assert EvalPrefix(r, pt, 1) == pt[d];
    }
    r
  }

  lemma {:induction false} UnitMonomial(n: nat, d: nat, pt: seq<real>, k: nat)
    requires d < n == |pt| && k <= n
    ensures MonomialValue(UnitExponents(n, d), pt, k) == if d < k then pt[d] else 1.0
    decreases k
  {
    if k > 0 {
      UnitMonomial(n, d, pt, k - 1);
      var e := UnitExponents(n, d);
      if k - 1 == d {
        assert Power(pt[d], e[k - 1]) == pt[d];
      } else {
        assert Power(Coord(pt, k - 1), e[k - 1]) == 1.0;
      }
    }
  }

  lemma {:induction false} ConstantMonomial(n: nat, pt: seq<real>, k: nat)
    requires k <= n
    ensures MonomialValue(ZeroExponents(n), pt, k) == 1.0
    decreases k
  {
    if k > 0 {
      ConstantMonomial(n, pt, k - 1);
    }
  }
}
