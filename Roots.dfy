/**
 * A root of a univariate polynomial held as a mutable isolating interval
 * (`Root.kt`). The interval is narrowed lazily: `refine` halves it towards
 * the half in which the Möbius-transformed polynomial has exactly one sign
 * change, and the comparisons refine until they can answer. Comparisons
 * may refine forever in general, so they take a fuel bound.
 */
module Roots {
  import opened Wrappers
  import opened Polynomials
  import opened PolyTools

  /** `NumQ.compareTo`: −1, 0 or 1. */
  function Cmp(a: real, b: real): (r: int)
    ensures r == -1 <==> a < b
    ensures r == 0 <==> a == b
    ensures r == 1 <==> a > b
  {
    if a < b then -1 else if a == b then 0 else 1
  }

  /**
   * The Descartes count of p over [l, u]: the sign changes of its Möbius
   * transform, which fails when the transform needs a normalisation factor
   * beyond the table.
   */
  function SignChangesOn(p: UPoly, l: real, u: real): Result<nat> {
    if WithinTable(p, |p|) then Ok(SignChanges(Transformed(p, l, u, |p|))) else Err(IndexOutOfBounds)
  }

  /** `transformPolyToInterval(l, u).getNumberOfSignChanges()`. */
  method CountSignChanges(p: UPoly, l: real, u: real) returns (r: Result<nat>)
    ensures r == SignChangesOn(p, l, u)
  {
    var transformed := TransformPolyToInterval(p, l, u);
    if transformed.Err? {
      return Err(transformed.error);
    }
    var n := GetNumberOfSignChanges(transformed.value);
    return Ok(n);
  }

  /** The midpoint `lowerBound + error / 2`. */
  function Middle(l: real, h: real): real {
    l + (h - l) / 2.0
  }

  /**
   * One `refine` of [l, h]: the half [l, m] when it has the single sign
   * change, else [m, h]; it fails when a count fails or the counts of the
   * halves do not add up to one.
   */
  function RefineStep(p: UPoly, l: real, h: real): Result<(real, real)> {
    var m := Middle(l, h);
    var lower := SignChangesOn(p, l, m);
    var upper := SignChangesOn(p, m, h);
    if lower.Err? then Err(lower.error)
    else if lower.value + upper.value != 1 then Err(IllegalState("This should not happen, but I can't prove it."))
    else if lower.value == 1 then Ok((l, m))
    else Ok((m, h))
  }

  /** A refined interval is one half of the old one and keeps exactly one sign change. */
  lemma RefineHalves(p: UPoly, l: real, h: real)
    requires l <= h && RefineStep(p, l, h).Ok?
    ensures var (a, b) := RefineStep(p, l, h).value;
      l <= a <= b <= h && b - a == (h - l) / 2.0 && (a == l || b == h) &&
      SignChangesOn(p, a, b) == Ok(1)
  {
  }

  /** Refinement fails exactly when a transform needs too large a factor or the halves' counts are not 0 and 1. */
  lemma RefineFails(p: UPoly, l: real, h: real)
    ensures RefineStep(p, l, h).Err? <==>
      !WithinTable(p, |p|) ||
      SignChanges(Transformed(p, l, Middle(l, h), |p|)) + SignChanges(Transformed(p, Middle(l, h), h, |p|)) != 1
  {
  }

  /** Both isolating intervals are disjoint. */
  predicate DisjointBounds(l1: real, h1: real, l2: real, h2: real) {
    MaxQ(l1, l2) > MinQ(h1, h2)
  }

  function MaxQ(a: real, b: real): real {
    if a >= b then a else b
  }

  function MinQ(a: real, b: real): real {
    if a <= b then a else b
  }

  /** [l1, h1] lies inside [l2, h2]. */
  predicate Inside(l1: real, h1: real, l2: real, h2: real) {
    l2 <= l1 && h1 <= h2
  }

  class Root {
    const polynomial: UPoly
    var lowerBound: real
    var upperBound: real

    /** The `init` check: the isolating interval is never empty. */
    ghost predicate Valid()
      reads this
    {
      lowerBound <= upperBound
    }

    constructor (p: UPoly, low: real, high: real)
      requires low <= high
      ensures Valid()
      ensures polynomial == p && lowerBound == low && upperBound == high
    {
      polynomial := p;
      lowerBound := low;
      upperBound := high;
    }

    /** `Root.irrational(low, high, p)`, which the constructor's check rejects when low > high. */
    static method Irrational(low: real, high: real, p: UPoly) returns (r: Result<Root>)
      ensures r.Err? <==> low > high
      ensures r.Err? ==> r.error == EmptyInterval
      ensures r.Ok? ==> fresh(r.value) && r.value.Valid()
      ensures r.Ok? ==> r.value.polynomial == p && r.value.lowerBound == low && r.value.upperBound == high
    {
      if low > high {
        return Err(EmptyInterval);
      }
      var root := new Root(p, low, high);
      return Ok(root);
    }

    /**
     * `Root.rational(p)`: the point root −p[0] / p[1] of a linear
     * polynomial; the division fails when p has no linear coefficient.
     */
    static method Rational(p: UPoly) returns (r: Result<Root>)
      ensures r.Err? <==> Coeff(p, 1) == 0.0
      ensures r.Err? ==> r.error == DivisionByZero
      ensures r.Ok? ==> fresh(r.value) && r.value.Valid() && r.value.polynomial == p
      ensures r.Ok? ==> r.value.lowerBound == r.value.upperBound == RationalRoot(p)
    {
      if Coeff(p, 1) == 0.0 {
        return Err(DivisionByZero);
      }
      var value := RationalRoot(p);
      var root := new Root(p, value, value);
      return Ok(root);
    }

    /** The error `upperBound − lowerBound`. */
    function Error(): real
      reads this
    {
      upperBound - lowerBound
    }

    /** `refine()`: the fields take the interval of RefineStep, and stay as they are when it fails. */
    method Refine() returns (r: Result<()>)
      requires Valid()
      modifies this
      ensures Valid()
      ensures var step := RefineStep(polynomial, old(lowerBound), old(upperBound));
        (r.Ok? <==> step.Ok?) &&
        (r.Err? ==> r.error == step.error && lowerBound == old(lowerBound) && upperBound == old(upperBound)) &&
        (r.Ok? ==> (lowerBound, upperBound) == step.value)
      ensures old(lowerBound) <= lowerBound && upperBound <= old(upperBound)
    {
      var middlePoint := Middle(lowerBound, upperBound);
      var signChangesInLower := CountSignChanges(polynomial, lowerBound, middlePoint);
      if signChangesInLower.Err? {
        return Err(signChangesInLower.error);
      }
      // Both counts fail or succeed together: the table limit depends only on the polynomial.
      var signChangesInUpper := CountSignChanges(polynomial, middlePoint, upperBound);
      if signChangesInLower.value + signChangesInUpper.value != 1 {
        return Err(IllegalState("This should not happen, but I can't prove it."));
      }
      RefineHalves(polynomial, lowerBound, upperBound);
      if signChangesInLower.value == 1 {
        upperBound := middlePoint;
      } else {
        lowerBound := middlePoint;
      }
      return Ok(());
    }

    /**
     * `compareTo(other)`: refines the root with the larger error until the
     * intervals are disjoint, then compares this upper bound with the
     * other's lower bound. Roots of one polynomial answer 0 as soon as this
     * interval lies inside the other's, and 1 when the other's lies inside
     * this one.
     */
    method CompareTo(other: Root, fuel: nat) returns (r: Result<int>)
      requires Valid() && other.Valid()
      modifies this, other
      ensures Valid() && other.Valid()
      ensures old(lowerBound) <= lowerBound && upperBound <= old(upperBound)
      ensures old(other.lowerBound) <= other.lowerBound && other.upperBound <= old(other.upperBound)
      ensures r.Ok? ==> -1 <= r.value <= 1
      ensures r == Ok(0) ==> polynomial == other.polynomial && Inside(lowerBound, upperBound, other.lowerBound, other.upperBound)
      ensures r == Ok(-1) ==> upperBound < other.lowerBound
      ensures r == Ok(1) ==>
        other.upperBound < lowerBound ||
        (polynomial == other.polynomial && Inside(other.lowerBound, other.upperBound, lowerBound, upperBound))
      ensures r.Ok? && polynomial != other.polynomial ==>
        DisjointBounds(lowerBound, upperBound, other.lowerBound, other.upperBound) && r.value == Cmp(upperBound, other.lowerBound)
      ensures fuel > 0 && old(DisjointBounds(lowerBound, upperBound, other.lowerBound, other.upperBound)) ==>
        r == Ok(Cmp(old(upperBound), old(other.lowerBound)))
      ensures r.Err? ==>
        || r.error == OutOfFuel
        || RefineStep(polynomial, lowerBound, upperBound) == Err(r.error)
        || RefineStep(other.polynomial, other.lowerBound, other.upperBound) == Err(r.error)
    {
      var f := fuel;
      while f > 0
        invariant Valid() && other.Valid()
        invariant old(lowerBound) <= lowerBound && upperBound <= old(upperBound)
        invariant old(other.lowerBound) <= other.lowerBound && other.upperBound <= old(other.upperBound)
        invariant f <= fuel
        invariant f == fuel ==>
          (lowerBound, upperBound, other.lowerBound, other.upperBound) ==
          (old(lowerBound), old(upperBound), old(other.lowerBound), old(other.upperBound))
        invariant f < fuel ==> !old(DisjointBounds(lowerBound, upperBound, other.lowerBound, other.upperBound))
        decreases f
      {
        var intersectionLow := MaxQ(lowerBound, other.lowerBound);
        var intersectionHigh := MinQ(upperBound, other.upperBound);
        if intersectionLow > intersectionHigh {
          return Ok(Cmp(upperBound, other.lowerBound));
        }
        if polynomial == other.polynomial {
          if intersectionLow == lowerBound && intersectionHigh == upperBound {
            return Ok(0);
          }
          if intersectionLow == other.lowerBound && intersectionHigh == other.upperBound {
            return Ok(1);
          }
        }
        var refined;
        if Error() > other.Error() {
          refined := Refine();
        } else {
          refined := other.Refine();
        }
        if refined.Err? {
          return Err(refined.error);
        }
        f := f - 1;
      }
      return Err(OutOfFuel);
    }

    /**
     * `compareTo(q)`: a point root compares its value; any other root
     * refines until q lies outside its interval and then compares its lower
     * bound, which is never 0.
     */
    method CompareToValue(q: real, fuel: nat) returns (r: Result<int>)
      requires Valid()
      modifies this
      ensures Valid()
      ensures old(lowerBound) <= lowerBound && upperBound <= old(upperBound)
      ensures old(lowerBound) == old(upperBound) ==> r == Ok(Cmp(old(lowerBound), q)) && lowerBound == old(lowerBound) && upperBound == old(upperBound)
      ensures r.Ok? && old(lowerBound) != old(upperBound) ==> (q < lowerBound || upperBound < q) && r.value != 0
      ensures r.Ok? ==> r.value == Cmp(lowerBound, q)
      ensures fuel > 0 && old(q < lowerBound || upperBound < q) ==> r == Ok(Cmp(old(lowerBound), q))
      ensures r.Err? ==> r.error == OutOfFuel || RefineStep(polynomial, lowerBound, upperBound) == Err(r.error)
    {
      if lowerBound == upperBound {
        return Ok(Cmp(lowerBound, q));
      }
      var f := fuel;
      while f > 0
        invariant Valid()
        invariant old(lowerBound) <= lowerBound && upperBound <= old(upperBound)
        invariant f <= fuel
        invariant f == fuel ==> lowerBound == old(lowerBound) && upperBound == old(upperBound)
        invariant f < fuel ==> !old(q < lowerBound || upperBound < q)
        decreases f
      {
        if q < lowerBound || upperBound < q {
          return Ok(Cmp(lowerBound, q));
        }
        var refined := Refine();
        if refined.Err? {
          return Err(refined.error);
        }
        f := f - 1;
      }
      return Err(OutOfFuel);
    }

    /**
     * `middleValue(other)`: fails unless this root compares below the
     * other, and then lies strictly between the two isolating intervals.
     */
    method MiddleValue(other: Root, fuel: nat) returns (r: Result<real>)
      requires Valid() && other.Valid()
      modifies this, other
      ensures Valid() && other.Valid()
      ensures r.Ok? ==> upperBound < r.value < other.lowerBound
    {
      var order := CompareTo(other, fuel);
      if order.Err? {
        return Err(order.error);
      }
      if order.value >= 0 {
        return Err(IllegalState("Cannot find middle value (empty interval)"));
      }
      return Ok(upperBound + (other.lowerBound - upperBound) / 2.0);
    }

    /** `equals`: roots of different polynomials differ; others are equal when compareTo answers 0. */
    method Equals(other: Root, fuel: nat) returns (r: Result<bool>)
      requires Valid() && other.Valid()
      modifies this, other
      ensures Valid() && other.Valid()
      ensures polynomial != other.polynomial ==> r == Ok(false)
      ensures r == Ok(true) ==> polynomial == other.polynomial && Inside(lowerBound, upperBound, other.lowerBound, other.upperBound)
    {
      if polynomial != other.polynomial {
        return Ok(false);
      }
      var order := CompareTo(other, fuel);
      if order.Err? {
        return Err(order.error);
      }
      return Ok(order.value == 0);
    }

    /** `hashCode`: the polynomial's hash, whatever the interval. */
    function HashCode(polynomialHash: UPoly -> int): int
      reads this
    {
      polynomialHash(polynomial)
    }
  }

  /** The value −p[0] / p[1] of `Root.rational`; coefficients beyond the degree read as 0. */
  function RationalRoot(p: UPoly): real
    requires Coeff(p, 1) != 0.0
  {
    -Coeff(p, 0) / Coeff(p, 1)
  }

  /** The rational root of a linear polynomial is its zero. */
  lemma RationalRootIsZero(p: UPoly)
    requires |p| == 2
    ensures Coeff(p, 1) != 0.0 && Eval(p, RationalRoot(p)) == 0.0
  {
    var x := RationalRoot(p);
    assert Eval(p, x) == p[0] + x * (p[1] + x * Eval(p[2..], x));
    assert p[1] * x == -p[0];
  }

  /** Roots that `equals` calls equal have the same hash code. */
  lemma EqualRootsHashAlike(a: Root, b: Root, polynomialHash: UPoly -> int)
    requires a.polynomial == b.polynomial
    ensures a.HashCode(polynomialHash) == b.HashCode(polynomialHash)
  {
  }
}
