/**
 * The coefficient tools behind Descartes' rule of signs
 * (`UnivariatePolynomialTools.kt`): the number of sign changes in the
 * coefficient sequence, the lowest-degree non-zero coefficient, the
 * default root bound and the Möbius transform that maps an interval onto
 * (0, ∞). Each source function is a coefficient loop; each is a method
 * here, proved against a specification function or stated outright.
 */
module PolyTools {
  import opened Wrappers
  import opened Polynomials

  // ---------------------------------------------------------------------
  // signs and sign changes: the specification
  // ---------------------------------------------------------------------

  /** `signum()` of a rational. */
  function Signum(c: real): int {
    if c < 0.0 then -1 else if c > 0.0 then 1 else 0
  }

  /** `isChangeInSign`: the two signums differ. */
  predicate IsChangeInSign(first: real, second: real) {
    Signum(first) != Signum(second)
  }

  /** The non-zero coefficients, in order. */
  function NonZeros(s: seq<real>): (r: seq<real>)
    ensures |r| <= |s|
    ensures forall i :: 0 <= i < |r| ==> r[i] != 0.0
    decreases |s|
  {
    if |s| == 0 then []
    else NonZeros(s[..|s| - 1]) + (if s[|s| - 1] != 0.0 then [s[|s| - 1]] else [])
  }

  /** The number of neighbouring elements of `s` whose signums differ. */
  function Changes(s: seq<real>): nat
    decreases |s|
  {
    if |s| <= 1 then 0
    else Changes(s[..|s| - 1]) + (if IsChangeInSign(s[|s| - 2], s[|s| - 1]) then 1 else 0)
  }

  /** The sign-change count of the coefficient sequence, zeros skipped. */
  function SignChanges(p: seq<real>): nat {
    Changes(NonZeros(p))
  }

  /** The lowest-degree non-zero coefficient, 0 when there is none. */
  function FirstNonZero(s: seq<real>): real
    decreases |s|
  {
    if |s| == 0 then 0.0 else if s[0] != 0.0 then s[0] else FirstNonZero(s[1..])
  }

  // ---------------------------------------------------------------------
  // properties of the specification
  // ---------------------------------------------------------------------

  /** Zero coefficients are skipped wherever they are: NonZeros distributes over concatenation. */
  lemma {:induction false} NonZerosAppend(a: seq<real>, b: seq<real>)
    ensures NonZeros(a + b) == NonZeros(a) + NonZeros(b)
    decreases |b|
  {
    if |b| > 0 {
      var last := b[|b| - 1];
      assert (a + b)[..|a + b| - 1] == a + b[..|b| - 1];
      NonZerosAppend(a, b[..|b| - 1]);
    } else {
      assert a + b == a;
    }
  }

  /** Inserting a zero coefficient anywhere leaves the sign-change count unchanged. */
  lemma {:induction false} SignChangesIgnoresZero(a: seq<real>, b: seq<real>)
    ensures SignChanges(a + [0.0] + b) == SignChanges(a + b)
  {
    NonZerosAppend(a + [0.0], b);
    NonZerosAppend(a, [0.0]);
    NonZerosAppend(a, b);
    assert NonZeros([0.0]) == [];
    assert NonZeros(a) + [] == NonZeros(a);
  }

  /** A sequence with no non-zero element has none to change sign between. */
  lemma SignChangesFew(p: seq<real>)
    requires |NonZeros(p)| <= 1
    ensures SignChanges(p) == 0
  {
  }

  /** The zero polynomial has no sign change. */
  lemma SignChangesZeroPoly(p: UPoly)
    requires IsZeroPoly(p)
    ensures SignChanges(p) == 0
  {
    assert p[..0] == [];
  }

  /** At most one change between each neighbouring pair. */
  lemma {:induction false} ChangesBound(s: seq<real>)
    requires |s| > 0
    ensures Changes(s) <= |s| - 1
    decreases |s|
  {
    if |s| > 1 {
      ChangesBound(s[..|s| - 1]);
    }
  }

  /** The count is at most the number of non-zero coefficients less one. */
  lemma SignChangesBound(p: seq<real>)
    requires |NonZeros(p)| > 0
    ensures SignChanges(p) <= |NonZeros(p)| - 1
  {
    ChangesBound(NonZeros(p));
  }

  /** Signum is multiplicative. */
  lemma SignumProduct(c: real, a: real)
    ensures Signum(c * a) == Signum(c) * Signum(a)
  {
    if c < 0.0 && a < 0.0 {
      assert c * a == (-c) * (-a);
      assert (-c) * (-a) > 0.0;
    } else if c < 0.0 && a > 0.0 {
      assert -(c * a) == (-c) * a;
      assert (-c) * a > 0.0;
    } else if c > 0.0 && a < 0.0 {
      assert -(c * a) == c * (-a);
      assert c * (-a) > 0.0;
    }
  }

  /** Scaling by a non-zero constant scales the non-zero coefficients. */
  lemma {:induction false} NonZerosScale(c: real, s: seq<real>)
    requires c != 0.0
    ensures NonZeros(ScaleBy(c, s)) == ScaleBy(c, NonZeros(s))
    decreases |s|
  {
    if |s| > 0 {
      var front := s[..|s| - 1];
      ScaleByFront(c, s);
      NonZerosScale(c, front);
      SignumProduct(c, s[|s| - 1]);
      var last := if s[|s| - 1] != 0.0 then [s[|s| - 1]] else [];
      ScaleByAppend(c, NonZeros(front), last);
      var t := ScaleBy(c, s);
      assert t[|s| - 1] != 0.0 <==> s[|s| - 1] != 0.0;
      if s[|s| - 1] != 0.0 {
        assert |ScaleBy(c, last)| == 1 && ScaleBy(c, last)[0] == t[|s| - 1];
        assert ScaleBy(c, last) == [t[|s| - 1]];
      } else {
        assert ScaleBy(c, last) == [];
      }
    }
  }

  lemma ScaleByFront(c: real, s: seq<real>)
    requires |s| > 0
    ensures ScaleBy(c, s)[..|s| - 1] == ScaleBy(c, s[..|s| - 1])
  {
    var t := ScaleBy(c, s);
    forall i | 0 <= i < |s| - 1
      ensures t[i] == ScaleBy(c, s[..|s| - 1])[i]
    {
    }
  }

  lemma ScaleByAppend(c: real, a: seq<real>, b: seq<real>)
    ensures ScaleBy(c, a + b) == ScaleBy(c, a) + ScaleBy(c, b)
  {
    var l := ScaleBy(c, a + b);
    var r := ScaleBy(c, a) + ScaleBy(c, b);
    forall i | 0 <= i < |a + b|
      ensures l[i] == r[i]
    {
      if i >= |a| {
        assert (a + b)[i] == b[i - |a|];
      }
    }
  }

  /** Scaling by a non-zero constant keeps every neighbouring sign relation. */
  lemma {:induction false} ChangesScale(c: real, s: seq<real>)
    requires c != 0.0
    ensures Changes(ScaleBy(c, s)) == Changes(s)
    decreases |s|
  {
    if |s| > 1 {
      ScaleByFront(c, s);
      ChangesScale(c, s[..|s| - 1]);
      SignumProduct(c, s[|s| - 2]);
      SignumProduct(c, s[|s| - 1]);
    }
  }

  /** Multiplying all coefficients by c ≠ 0, negation in particular, keeps the count. */
  lemma SignChangesScale(c: real, p: seq<real>)
    requires c != 0.0
    ensures SignChanges(ScaleBy(c, p)) == SignChanges(p)
  {
    NonZerosScale(c, p);
    ChangesScale(c, NonZeros(p));
  }

  /** The first non-zero coefficient heads the non-zero coefficients. */
  lemma {:induction false} FirstNonZeroHead(s: seq<real>)
    ensures FirstNonZero(s) == (if |NonZeros(s)| > 0 then NonZeros(s)[0] else 0.0)
    decreases |s|
  {
    if |s| > 0 {
      assert s == [s[0]] + s[1..];
      NonZerosAppend([s[0]], s[1..]);
      assert [s[0]][..0] == [];
      FirstNonZeroHead(s[1..]);
    }
  }

  /** A prefix without non-zero elements leaves the first non-zero element behind it. */
  lemma {:induction false} FirstNonZeroAfterZeros(s: seq<real>, i: nat)
    requires i < |s| && NonZeros(s[..i]) == [] && s[i] != 0.0
    ensures FirstNonZero(s) == s[i]
  {
    assert s == s[..i] + s[i..];
    NonZerosAppend(s[..i], s[i..]);
    assert s[i..] == [s[i]] + s[i + 1..];
    NonZerosAppend([s[i]], s[i + 1..]);
    assert [s[i]][..0] == [];
    FirstNonZeroHead(s);
  }

  /** One more coefficient: it joins the non-zero ones unless it is zero. */
  lemma NonZerosSnoc(p: seq<real>, i: nat)
    requires i < |p|
    ensures p[i] != 0.0 ==> NonZeros(p[..i + 1]) == NonZeros(p[..i]) + [p[i]]
    ensures p[i] == 0.0 ==> NonZeros(p[..i + 1]) == NonZeros(p[..i])
  {
    assert p[..i + 1][..i] == p[..i];
    assert NonZeros(p[..i]) + [] == NonZeros(p[..i]);
  }

  /**
   * One more non-zero element adds a change exactly when its signum differs
   * from the previous one's (the element itself when there is none).
   */
  lemma ChangesSnoc(s: seq<real>, previous: real, c: real)
    requires |s| > 0 ==> previous == s[|s| - 1]
    requires |s| == 0 ==> previous == c
    ensures Changes(s + [c]) == Changes(s) + (if IsChangeInSign(previous, c) then 1 else 0)
    ensures (s + [c])[|s|] == c
  {
    var t := s + [c];
    assert t[..|t| - 1] == s;
    if |s| > 0 {
      assert t[|t| - 2] == previous;
    }
  }

  // ---------------------------------------------------------------------
  // the loops of the source
  // ---------------------------------------------------------------------

  /** `getFirstNonZeroCoefficient`. */
  method GetFirstNonZeroCoefficient(p: UPoly) returns (r: real)
    ensures r == FirstNonZero(p)
    ensures r != 0.0 <==> exists i :: 0 <= i < |p| && p[i] != 0.0
    ensures r != 0.0 ==> exists i :: 0 <= i < |p| && p[i] == r && forall j :: 0 <= j < i ==> p[j] == 0.0
  {
    FirstNonZeroHead(p);
    FirstNonZeroFound(p);
    var i := 0;
    while i < |p|
      invariant 0 <= i <= |p|
      invariant FirstNonZero(p[i..]) == FirstNonZero(p)
    {
      if p[i] != 0.0 {
        return p[i];
      }
      assert p[i..][1..] == p[i + 1..];
      i := i + 1;
    }
    return 0.0;
  }

  /** FirstNonZero is non-zero exactly when some element is, and then it is the earliest one. */
  lemma {:induction false} FirstNonZeroFound(s: seq<real>)
    ensures FirstNonZero(s) != 0.0 <==> exists i :: 0 <= i < |s| && s[i] != 0.0
    ensures FirstNonZero(s) != 0.0 ==>
      exists i :: 0 <= i < |s| && s[i] == FirstNonZero(s) && forall j :: 0 <= j < i ==> s[j] == 0.0
    decreases |s|
  {
    if |s| > 0 && s[0] == 0.0 {
      FirstNonZeroFound(s[1..]);
      if FirstNonZero(s) != 0.0 {
        var i :| 0 <= i < |s[1..]| && s[1..][i] == FirstNonZero(s) && forall j :: 0 <= j < i ==> s[1..][j] == 0.0;
        assert s[i + 1] == FirstNonZero(s);
        assert forall j :: 0 <= j < i + 1 ==> s[j] == 0.0 by {
          forall j | 0 <= j < i + 1
            ensures s[j] == 0.0
          {
            if j > 0 {
              assert s[j] == s[1..][j - 1];
            }
          }
        }
      } else {
        forall i | 0 <= i < |s|
          ensures s[i] == 0.0
        {
          if i > 0 {
            assert s[i] == s[1..][i - 1];
          }
        }
      }
    }
  }

  /**
   * The state of the loop after the first i coefficients: the changes so
   * far, and the last non-zero coefficient seen (the first non-zero one
   * before any is seen).
   */
  ghost predicate CountedUpTo(p: UPoly, i: nat, count: nat, previous: real)
    requires i <= |p|
  {
    var seen := NonZeros(p[..i]);
    count == Changes(seen) && previous == (if |seen| > 0 then seen[|seen| - 1] else FirstNonZero(p))
  }

  /** `getNumberOfSignChanges`. */
  method GetNumberOfSignChanges(p: UPoly) returns (numberOfChanges: nat)
    ensures numberOfChanges == SignChanges(p)
  {
    numberOfChanges := 0;
    var previousCoef := GetFirstNonZeroCoefficient(p);
    var i := 0;
    while i < |p|
      invariant 0 <= i <= |p|
      invariant CountedUpTo(p, i, numberOfChanges, previousCoef)
    {
      numberOfChanges, previousCoef := CountRound(p, i, numberOfChanges, previousCoef);
      i := i + 1;
    }
    WholePrefix(p, i);
  }

  /** One round of the loop: a non-zero coefficient counts a change against the previous one and replaces it. */
  method CountRound(p: UPoly, i: nat, count: nat, previousCoef: real) returns (nextCount: nat, nextPrevious: real)
    requires i < |p| && CountedUpTo(p, i, count, previousCoef)
    ensures CountedUpTo(p, i + 1, nextCount, nextPrevious)
  {
    var coef := p[i];
    NonZerosSnoc(p, i);
    nextCount, nextPrevious := count, previousCoef;
    if coef != 0.0 {
      if |NonZeros(p[..i])| == 0 {
        FirstNonZeroAfterZeros(p, i);
      }
      ChangesSnoc(NonZeros(p[..i]), previousCoef, coef);
      if IsChangeInSign(previousCoef, coef) {
        nextCount := count + 1;
      }
      nextPrevious := coef;
    }
  }

  lemma WholePrefix(p: seq<real>, i: nat)
    requires i == |p|
    ensures p[..i] == p
  {
  }

  // ---------------------------------------------------------------------
  // the root bound
  // ---------------------------------------------------------------------

  function Abs(x: real): real {
    if x < 0.0 then -x else x
  }

  /**
   * `getDefaultBoundForDescartMethod`: 0 for the zero polynomial, otherwise
   * twice the largest |c_i / lc|. The leading coefficient's own fraction is
   * 1, so the bound is at least 2.
   */
  method GetDefaultBoundForDescartMethod(p: UPoly) returns (r: real)
    ensures IsZeroPoly(p) ==> r == 0.0
    ensures !IsZeroPoly(p) ==> r >= 2.0
    ensures !IsZeroPoly(p) ==> forall i :: 0 <= i < |p| ==> 2.0 * Abs(p[i] / Lc(p)) <= r
    ensures !IsZeroPoly(p) ==> exists i :: 0 <= i < |p| && r == 2.0 * Abs(p[i] / Lc(p))
    ensures r == DefaultBound(p)
  {
    if IsZeroPoly(p) {
      return 0.0;
    }
    var lc := Lc(p);
    assert lc != 0.0;
    var bound := 0.0;
    var i := 0;
    while i < |p|
      invariant 0 <= i <= |p|
      invariant forall j :: 0 <= j < i ==> Abs(p[j] / lc) <= bound
      invariant bound == 0.0 || exists j :: 0 <= j < i && bound == Abs(p[j] / lc)
      invariant bound == MaxFraction(p, lc, i)
    {
      var fraction := Abs(p[i] / lc);
      if fraction > bound {
        bound := fraction;
      }
      i := i + 1;
    }
    SelfFraction(p, lc);
    assert bound >= 1.0;
    r := bound * 2.0;
  }

  /** The largest |c_i / lc| over the first k coefficients, 0 when k is 0. */
  function MaxFraction(p: UPoly, lc: real, k: nat): (r: real)
    requires k <= |p| && lc != 0.0
    ensures r >= 0.0
    decreases k
  {
    if k == 0 then 0.0
    else
      var previous := MaxFraction(p, lc, k - 1);
      var fraction := Abs(p[k - 1] / lc);
      if fraction > previous then fraction else previous
  }

  /** The bound the method computes: 0 for the zero polynomial, else twice the largest fraction. */
  function DefaultBound(p: UPoly): (r: real)
    ensures r >= 0.0
  {
    if IsZeroPoly(p) then 0.0 else MaxFraction(p, Lc(p), |p|) * 2.0
  }

  /** The leading coefficient's own fraction is 1. */
  lemma SelfFraction(p: UPoly, lc: real)
    requires lc == Lc(p) && lc != 0.0
    ensures Abs(p[|p| - 1] / lc) == 1.0
  {
    assert lc / lc == 1.0;
  }

  // ---------------------------------------------------------------------
  // the transform onto (0, ∞)
  // ---------------------------------------------------------------------

  /** The table the source parses at start-up holds (1 + x)^k for k in 0..10. */
  const NormalizationFactorCount: nat := 11

  /** Entry k of that table: (1 + x)^k. */
  function NormalizationFactor(k: nat): UPoly {
    PPow(Create(1.0, 1.0), k)
  }

  /** `substitution` after i coefficients: (u + l·x)^i, one factor multiplied in per step. */
  function SubstitutionPower(l: real, u: real, i: nat): UPoly
    decreases i
  {
    if i == 0 then One() else PMul(SubstitutionPower(l, u, i - 1), Create(u, l))
  }

  /** The exponent n − i that the loop pairs with coefficient i. */
  function Exponent(p: UPoly, i: nat): nat
    requires i < |p|
  {
    Degree(p) - i
  }

  /** The summand of coefficient i: (1 + x)^(n−i) · (c_i · (u + l·x)^i). */
  function Term(p: UPoly, l: real, u: real, i: nat): UPoly
    requires i < |p|
  {
    PMul(NormalizationFactor(Exponent(p, i)), PScale(p[i], SubstitutionPower(l, u, i)))
  }

  /** `result` after the first k coefficients: the summands of the non-zero ones. */
  function Transformed(p: UPoly, l: real, u: real, k: nat): UPoly
    requires k <= |p|
    decreases k, 1
  {
    if k == 0 then Zero() else Accumulated(p, l, u, k - 1)
  }

  /** One round of the loop: coefficient i's summand added when it is non-zero. */
  function Accumulated(p: UPoly, l: real, u: real, i: nat): UPoly
    requires i < |p|
    decreases i + 1, 0
  {
    var previous := Transformed(p, l, u, i);
    if p[i] != 0.0 then PAdd(previous, Term(p, l, u, i)) else previous
  }

  /**
   * `transformPolyToInterval(lowerBound, upperBound)`: the loop over the
   * coefficients. The table lookup fails with IndexOutOfBounds for a
   * non-zero coefficient whose exponent n − i exceeds 10.
   */
  method TransformPolyToInterval(p: UPoly, lowerBound: real, upperBound: real) returns (r: Result<UPoly>)
    ensures r.Ok? <==> WithinTable(p, |p|)
    ensures r.Err? ==> r.error == IndexOutOfBounds
    ensures r.Ok? ==> r.value == Transformed(p, lowerBound, upperBound, |p|)
  {
    var result: UPoly := [0.0];
    var exponent: int := Degree(p);
    var substitutionTerm := Create(upperBound, lowerBound);
    var substitution: UPoly := [1.0];
    var i: nat := 0;
    while i < |p|
      invariant i <= |p|
      invariant exponent + i == Degree(p)
      invariant substitution == SubstitutionPower(lowerBound, upperBound, i)
      invariant result == Transformed(p, lowerBound, upperBound, i)
      invariant WithinTable(p, i)
    {
      if p[i] != 0.0 && exponent >= NormalizationFactorCount {
        OutsideTable(p, i, exponent);
        return Err(IndexOutOfBounds);
      }
      TableStep(p, i, exponent);
      result, substitution := TransformRound(p, lowerBound, upperBound, i, exponent, result, substitution, substitutionTerm);
      exponent := exponent - 1;
      i := i + 1;
    }
    return Ok(result);
  }

  /**
   * Every non-zero coefficient among the first k has an exponent n − j
   * that the normalization table covers.
   */
  predicate WithinTable(p: UPoly, k: nat)
    requires k <= |p|
  {
    forall j :: 0 <= j < k && p[j] != 0.0 ==> Degree(p) - j < NormalizationFactorCount
  }

  /** The table condition extends by one coefficient. */
  lemma TableStep(p: UPoly, i: nat, e: int)
    requires i < |p| && e + i == Degree(p) && WithinTable(p, i)
    requires p[i] != 0.0 ==> e < NormalizationFactorCount
    ensures WithinTable(p, i + 1)
  {
  }

  /** A non-zero coefficient outside the table breaks the condition. */
  lemma OutsideTable(p: UPoly, i: nat, e: int)
    requires i < |p| && e + i == Degree(p) && p[i] != 0.0 && e >= NormalizationFactorCount
    ensures !WithinTable(p, |p|)
  {
  }

  /**
   * The body of the loop for coefficient c_i: a non-zero c_i adds
   * `normalizationFactors[exponent] * (substitution * c_i)` to the sum, a
   * zero one leaves it.
   */
  method AccumulateTerm(p: UPoly, l: real, u: real, i: nat, exponent: nat, result: UPoly, substitution: UPoly)
      returns (next: UPoly)
    requires i < |p| && exponent + i == Degree(p)
    requires result == Transformed(p, l, u, i) && substitution == SubstitutionPower(l, u, i)
    ensures next == Transformed(p, l, u, i + 1)
  {
    var coef := p[i];
    if coef != 0.0 {
      var normalization := NormalizationFactor(exponent);
      next := PAdd(result, PMul(normalization, PScale(coef, substitution)));
      NonzeroStep(p, l, u, i, exponent, result, substitution, next);
    } else {
      next := result;
      ZeroStep(p, l, u, i, result);
    }
  }

  /** One loop step on a non-zero coefficient extends the sum by its term. */
  lemma NonzeroStep(p: UPoly, l: real, u: real, i: nat, e: nat, prev: UPoly, s: UPoly, added: UPoly)
    requires i < |p| && p[i] != 0.0 && e + i == Degree(p)
    requires prev == Transformed(p, l, u, i) && s == SubstitutionPower(l, u, i)
    requires added == PAdd(prev, PMul(NormalizationFactor(e), PScale(p[i], s)))
    ensures added == Transformed(p, l, u, i + 1)
  {
    TransformedShape(p, l, u, i);
    TermShape(p, l, u, i, e);
  }

  /** One loop step on a zero coefficient leaves the sum as it is. */
  lemma ZeroStep(p: UPoly, l: real, u: real, i: nat, prev: UPoly)
    requires i < |p| && p[i] == 0.0 && prev == Transformed(p, l, u, i)
    ensures prev == Transformed(p, l, u, i + 1)
  {
    TransformedShape(p, l, u, i);
  }

  /** One loop round: coefficient i's summand, then the substitution multiplied by `substitutionTerm`, u + l·x. */
  method TransformRound(p: UPoly, l: real, u: real, i: nat, exponent: nat, result: UPoly, substitution: UPoly, substitutionTerm: UPoly)
      returns (nextResult: UPoly, nextSubstitution: UPoly)
    requires i < |p| && exponent + i == Degree(p)
    requires result == Transformed(p, l, u, i) && substitution == SubstitutionPower(l, u, i)
    requires substitutionTerm == Create(u, l)
    ensures nextResult == Transformed(p, l, u, i + 1)
    ensures nextSubstitution == SubstitutionPower(l, u, i + 1)
  {
    nextResult := AccumulateTerm(p, l, u, i, exponent, result, substitution);
    nextSubstitution := PMul(substitution, substitutionTerm);
    SubstitutionShape(l, u, i);
  }

  lemma TransformedShape(p: UPoly, l: real, u: real, i: nat)
    requires i < |p|
    ensures p[i] != 0.0 ==> Transformed(p, l, u, i + 1) == PAdd(Transformed(p, l, u, i), Term(p, l, u, i))
    ensures p[i] == 0.0 ==> Transformed(p, l, u, i + 1) == Transformed(p, l, u, i)
  {
    assert Transformed(p, l, u, i + 1) == Accumulated(p, l, u, i);
  }

  lemma SubstitutionShape(l: real, u: real, i: nat)
    ensures SubstitutionPower(l, u, i + 1) == PMul(SubstitutionPower(l, u, i), Create(u, l))
  {
  }

  /** The substitution term evaluates to (u + l·x)^i. */
  lemma {:induction false} EvalSubstitutionPower(l: real, u: real, i: nat, x: real)
    ensures Eval(SubstitutionPower(l, u, i), x) == Power(u + l * x, i)
    decreases i
  {
    if i == 0 {
      EvalOne();
    } else {
      EvalSubstitutionPower(l, u, i - 1, x);
      EvalCreate(u, l, x);
      EvalPMulRight(SubstitutionPower(l, u, i - 1), Create(u, l), SubstitutionPower(l, u, i), u + l * x, i, x);
    }
  }

  /** A product by a from the right raises the power of a's value. */
  lemma {:induction false} EvalPMulRight(q: UPoly, a: UPoly, m: UPoly, v: real, k: nat, x: real)
    requires k > 0 && m == PMul(q, a) && Eval(a, x) == v && Eval(q, x) == Power(v, k - 1)
    ensures Eval(m, x) == Power(v, k)
  {
    EvalPMul(q, a, x);
    EvalPowerStepRight(q, a, m, v, k, x);
  }

  lemma EvalPowerStepRight(q: Coeffs, a: Coeffs, m: Coeffs, v: real, k: nat, x: real)
    requires k > 0 && Eval(a, x) == v && Eval(q, x) == Power(v, k - 1)
    requires Eval(m, x) == Eval(q, x) * Eval(a, x)
    ensures Eval(m, x) == Power(v, k)
  {
    MulCommutes(Eval(q, x), Eval(a, x));
  }

  lemma EvalPPowAt(a: UPoly, k: nat, x: real, v: real)
    requires Eval(a, x) == v
    ensures Eval(PPow(a, k), x) == Power(v, k)
  {
    EvalPPow(a, k, x);
  }

  /** The table entry evaluates to (1 + x)^k. */
  lemma EvalNormalizationFactor(k: nat, x: real)
    ensures Eval(NormalizationFactor(k), x) == Power(1.0 + x, k)
  {
    var a := Create(1.0, 1.0);
    EvalCreate(1.0, 1.0, x);
    EvalPPowAt(a, k, x, 1.0 + x);
  }

  /** v·(1 + x)^n: a value multiplied by the n-th power of the denominator. */
  function Weighted(n: nat, x: real, v: real): real {
    Power(1.0 + x, n) * v
  }

  lemma WeightedAdd(n: nat, x: real, a: real, b: real, s: real)
    requires s == a + b
    ensures Weighted(n, x, a) + Weighted(n, x, b) == Weighted(n, x, s)
  {
  }

  /** t's value at x is (1 + x)^n times q's value at y. */
  predicate MoebiusAt(t: Coeffs, q: Coeffs, n: nat, x: real, y: real) {
    Eval(t, x) == Weighted(n, x, Eval(q, y))
  }

  /**
   * t is (1 + x)^n · q((l·x + u)/(1 + x)): at every x and y with
   * y·(1 + x) == l·x + u, which for x ≠ −1 is y == (l·x + u)/(1 + x).
   */
  ghost predicate IsMoebiusTransform(t: Coeffs, q: Coeffs, n: nat, l: real, u: real) {
    forall x: real, y: real :: y * (1.0 + x) == l * x + u ==> MoebiusAt(t, q, n, x, y)
  }

  /**
   * The transform computed by the source is (1 + x)^n · p((l·x + u)/(1 + x)),
   * as its documentation states.
   */
  lemma TransformEval(p: UPoly, l: real, u: real)
    ensures IsMoebiusTransform(Transformed(p, l, u, |p|), p, Degree(p), l, u)
  {
    forall x: real, y: real | y * (1.0 + x) == l * x + u
      ensures MoebiusAt(Transformed(p, l, u, |p|), p, Degree(p), x, y)
    {
      TransformedPrefix(p, l, u, x, y, |p|);
      assert p[..|p|] == p;
    }
  }

  lemma {:induction false} TransformedPrefix(p: UPoly, l: real, u: real, x: real, y: real, k: nat)
    requires k <= |p| && y * (1.0 + x) == l * x + u
    ensures MoebiusAt(Transformed(p, l, u, k), p[..k], Degree(p), x, y)
    decreases k
  {
    if k == 0 {
      assert p[..0] == [];
      MoebiusOfZero(Degree(p), x, y);
    } else {
      var i: nat := k - 1;
      TransformedPrefix(p, l, u, x, y, i);
      TransformedStep(p, l, u, x, y, i, k, Transformed(p, l, u, i), Transformed(p, l, u, k));
    }
  }

  lemma MoebiusOfZero(n: nat, x: real, y: real)
    ensures MoebiusAt(Zero(), [], n, x, y)
  {
    EvalConstant(0.0, x);
  }

  /** Adding the summand of p[i] extends the transform of p[..i] to that of p[..i+1]. */
  lemma {:induction false} TransformedStep(p: UPoly, l: real, u: real, x: real, y: real, i: nat, k: nat, prev: UPoly, cur: UPoly)
    requires k == i + 1 && k <= |p| && y * (1.0 + x) == l * x + u
    requires prev == Transformed(p, l, u, i) && cur == Transformed(p, l, u, k)
    requires MoebiusAt(prev, p[..i], Degree(p), x, y)
    ensures MoebiusAt(cur, p[..k], Degree(p), x, y)
  {
    var c := p[i];
    var front, whole := p[..i], p[..k];
    PrefixSnoc(p, i, k);
    TransformedShape(p, l, u, i);
    if c != 0.0 {
      var e: nat := Degree(p) - i;
      var s := SubstitutionPower(l, u, i);
      var nf := NormalizationFactor(e);
      var scaled := PScale(c, s);
      var term := Term(p, l, u, i);
      TermShape(p, l, u, i, e);
      TermLaw(term, nf, scaled, s, c, l, u, Degree(p), i, e, x, y);
      EvalPAdd(prev, term, x);
      SumLaw(cur, prev, term, front, whole, c, Degree(p), i, x, y);
    } else {
      MoebiusZeroCoefficient(prev, front, Degree(p), x, y);
    }
  }

  lemma TermShape(p: UPoly, l: real, u: real, i: nat, e: nat)
    requires i < |p| && e == Exponent(p, i)
    ensures Term(p, l, u, i) == PMul(NormalizationFactor(e), PScale(p[i], SubstitutionPower(l, u, i)))
  {
  }

  lemma PrefixSnoc(p: Coeffs, i: nat, k: nat)
    requires k == i + 1 && k <= |p|
    ensures p[..k] == p[..i] + [p[i]]
  {
  }

  /** A zero coefficient on top changes no value. */
  lemma MoebiusZeroCoefficient(t: Coeffs, q: Coeffs, n: nat, x: real, y: real)
    requires MoebiusAt(t, q, n, x, y)
    ensures MoebiusAt(t, q + [0.0], n, x, y)
  {
    EvalTrailingZero(q, y);
  }

  /** The summand of coefficient c at position i is (1 + x)^n · c·y^i. */
  lemma TermLaw(term: UPoly, nf: UPoly, scaled: UPoly, s: UPoly, c: real, l: real, u: real, n: nat, i: nat, e: nat, x: real, y: real)
    requires e + i == n && y * (1.0 + x) == l * x + u
    requires term == PMul(nf, scaled) && scaled == PScale(c, s)
    requires s == SubstitutionPower(l, u, i) && nf == NormalizationFactor(e)
    ensures Eval(term, x) == Weighted(n, x, Monomial(c, y, i))
  {
    EvalPMul(nf, scaled, x);
    EvalPScale(c, s, x);
    EvalSubstitutionPower(l, u, i, x);
    EvalNormalizationFactor(e, x);
    TermEval(term, nf, scaled, s, c, l, u, n, i, e, x, y);
  }

  lemma TermEval(term: Coeffs, nf: Coeffs, scaled: Coeffs, s: Coeffs, c: real, l: real, u: real, n: nat, i: nat, e: nat, x: real, y: real)
    requires e + i == n && y * (1.0 + x) == l * x + u
    requires Eval(term, x) == Eval(nf, x) * Eval(scaled, x) && Eval(scaled, x) == c * Eval(s, x)
    requires Eval(s, x) == Power(u + l * x, i) && Eval(nf, x) == Power(1.0 + x, e)
    ensures Eval(term, x) == Weighted(n, x, Monomial(c, y, i))
  {
    assert Eval(scaled, x) == Monomial(c, u + l * x, i);
    TermValue(x, y, c, l, u, n, i, e);
  }

  /** Adding the summand of c_i extends the prefix sum by c_i·y^i. */
  lemma SumLaw(tk: Coeffs, tk1: Coeffs, term: Coeffs, q: Coeffs, qk: Coeffs, c: real, n: nat, i: nat, x: real, y: real)
    requires Eval(tk, x) == Eval(tk1, x) + Eval(term, x) && qk == q + [c] && |q| == i
    requires MoebiusAt(tk1, q, n, x, y) && Eval(term, x) == Weighted(n, x, Monomial(c, y, i))
    ensures MoebiusAt(tk, qk, n, x, y)
  {
    EvalAppend(q, c, y);
    WeightedAdd(n, x, Eval(q, y), Monomial(c, y, i), Eval(qk, y));
  }

  /** With u + l·x == y·(1 + x), a summand (1 + x)^e · c·(u + l·x)^i is (1 + x)^n · c·y^i. */
  lemma TermValue(x: real, y: real, c: real, l: real, u: real, n: nat, i: nat, e: nat)
    requires e + i == n && y * (1.0 + x) == l * x + u
    ensures Power(1.0 + x, e) * Monomial(c, u + l * x, i) == Weighted(n, x, Monomial(c, y, i))
  {
    var a := 1.0 + x;
    var b := u + l * x;
    var pe, pb, pyi, pai, pan := Power(a, e), Power(b, i), Power(y, i), Power(a, i), Power(a, n);
    PowerOfProduct(y, a, b, i);
    PowerSplit(a, e, i, n);
    Rearrange(pe, c, pyi, pai, pan, pb);
    assert Monomial(c, b, i) == c * pb;
    assert Weighted(n, x, Monomial(c, y, i)) == pan * (c * pyi);
  }

  lemma PowerOfProduct(y: real, a: real, b: real, i: nat)
    requires b == y * a
    ensures Power(b, i) == Power(y, i) * Power(a, i)
  {
    PowerMul(y, a, i);
  }

  lemma PowerSplit(a: real, e: nat, i: nat, n: nat)
    requires e + i == n
    ensures Power(a, e) * Power(a, i) == Power(a, n)
  {
    PowerAdd(a, e, i);
  }

  lemma Rearrange(pe: real, c: real, pyi: real, pai: real, pan: real, pb: real)
    requires pe * pai == pan && pb == pyi * pai
    ensures pe * (c * pb) == pan * (c * pyi)
  {
  }
}
