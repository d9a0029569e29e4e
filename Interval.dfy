/**
 * Exact rational intervals [low, high] (`ia/Interval.kt`). Rationals are
 * Dafny reals. Every operator builds a new interval from endpoint
 * expressions; the constructor rejects low > high.
 */
module Intervals {
  import opened Wrappers

  datatype RawInterval = RawInterval(low: real, high: real)

  /** An interval as the constructor admits it: low <= high. */
  type Interval = r: RawInterval | r.low <= r.high witness RawInterval(0.0, 0.0)

  /** The primary constructor: fails (an IllegalStateException) on low > high. */
  function Make(low: real, high: real): (r: Option<Interval>)
    ensures r.Some? <==> low <= high
    ensures r.Some? ==> r.value.low == low && r.value.high == high
  {
    if low > high then None else Some(RawInterval(low, high))
  }

  /** `contains`: inclusive at both ends. */
  predicate Contains(i: Interval, x: real) {
    i.low <= x <= i.high
  }

  /** `min` of two rationals. */
  function Min(a: real, b: real): real {
    if a < b then a else b
  }

  /** `max` of two rationals. */
  function Max(a: real, b: real): real {
    if a > b then a else b
  }

  /** `size`: the width of the interval, never negative. */
  function Size(i: Interval): (r: real)
    ensures r >= 0.0
  {
    i.high - i.low
  }

  /** No two points of an interval are further apart than its size. */
  lemma SizeBoundsDistance(i: Interval, x: real, y: real)
    requires Contains(i, x) && Contains(i, y)
    ensures x - y <= Size(i)
  {
  }

  /** `hasZero`: 0 lies in the interval. */
  function HasZero(i: Interval): (r: bool)
    ensures r <==> Contains(i, 0.0)
  {
    i.low <= 0.0 && i.high >= 0.0
  }

  /** `center`: low + size/2, a point of the interval equally far from both ends. */
  function Center(i: Interval): (r: real)
    ensures Contains(i, r)
    ensures r - i.low == i.high - r
  {
    i.low + Size(i) / 2.0
  }

  /** `isNumber`: the interval is a single point. */
  function IsNumber(i: Interval): (r: bool)
    ensures r <==> Size(i) == 0.0
  {
    i.low == i.high
  }

  lemma IsNumberMeansSinglePoint(i: Interval)
    ensures IsNumber(i) <==> forall x :: Contains(i, x) ==> x == i.low
  {
    if !IsNumber(i) {
      assert Contains(i, i.high) && i.high != i.low;
    }
  }

  // ---------------------------------------------------------------------
  // plus, minus, times
  // ---------------------------------------------------------------------

  /** `plus`: [a.low + b.low, a.high + b.high]. */
  function Plus(a: Interval, b: Interval): (r: Interval)
  {
    RawInterval(a.low + b.low, a.high + b.high)
  }

  /** `minus`: [a.low - b.high, a.high - b.low]. */
  function Minus(a: Interval, b: Interval): (r: Interval)
  {
    RawInterval(a.low - b.high, a.high - b.low)
  }

  /** The sum interval encloses every sum and is the tightest such interval. */
  lemma PlusEncloses(a: Interval, b: Interval)
    ensures forall x, y :: Contains(a, x) && Contains(b, y) ==> Contains(Plus(a, b), x + y)
    ensures Plus(a, b).low == a.low + b.low && Plus(a, b).high == a.high + b.high
  {
  }

  /** The difference interval encloses every difference, with both ends attained. */
  lemma MinusEncloses(a: Interval, b: Interval)
    ensures forall x, y :: Contains(a, x) && Contains(b, y) ==> Contains(Minus(a, b), x - y)
    ensures Minus(a, b).low == a.low - b.high && Minus(a, b).high == a.high - b.low
  {
  }

  /** The smallest interval holding four values. */
  function Hull(c1: real, c2: real, c3: real, c4: real): (r: Interval)
  {
    RawInterval(Min(Min(c1, c2), Min(c3, c4)), Max(Max(c1, c2), Max(c3, c4)))
  }

  /** The hull of the four corner products of [xl, xh] × [yl, yh]. */
  function Corners(xl: real, xh: real, yl: real, yh: real): (r: Interval)
  {
    Hull(xl * yl, xl * yh, xh * yl, xh * yh)
  }

  /** `times`: the hull of the four endpoint products. */
  function Times(a: Interval, b: Interval): (r: Interval)
  {
    Corners(a.low, a.high, b.low, b.high)
  }

  /** Between: v lies between u and w, in either order. */
  predicate Between(u: real, v: real, w: real) {
    (u <= v <= w) || (w <= v <= u)
  }

  /** For x between x1 and x2, x·y lies between x1·y and x2·y. */
  lemma ProductBetween(x1: real, x: real, x2: real, y: real)
    requires x1 <= x <= x2
    ensures Between(x1 * y, x * y, x2 * y)
  {
    var d1, d2 := x - x1, x2 - x;
    assert x * y - x1 * y == d1 * y;
    assert x2 * y - x * y == d2 * y;
    if y >= 0.0 {
      assert d1 * y >= 0.0 && d2 * y >= 0.0;
    } else {
      assert d1 * y <= 0.0 && d2 * y <= 0.0;
    }
  }

  /** For y between y1 and y2, x·y lies between x·y1 and x·y2. */
  lemma ProductBetweenLeft(x: real, y1: real, y: real, y2: real)
    requires y1 <= y <= y2
    ensures Between(x * y1, x * y, x * y2)
  {
    ProductBetween(y1, y, y2, x);
    assert y1 * x == x * y1 && y * x == x * y && y2 * x == x * y2;
  }

  /** A point between two values that each lie between two corners lies in the corners' hull. */
  lemma HullBound(p: real, u: real, w: real, c1: real, c2: real, c3: real, c4: real)
    requires Between(u, p, w) && Between(c1, u, c2) && Between(c3, w, c4)
    ensures Contains(Hull(c1, c2, c3, c4), p)
  {
  }

  /** For x in [xl, xh] and y in [yl, yh], x·y lies in the hull of the corner products. */
  lemma CornersEnclose(xl: real, x: real, xh: real, yl: real, y: real, yh: real)
    requires xl <= x <= xh && yl <= y <= yh
    ensures Contains(Corners(xl, xh, yl, yh), x * y)
  {
    ProductBetween(xl, x, xh, y);
    ProductBetweenLeft(xl, yl, y, yh);
    ProductBetweenLeft(xh, yl, y, yh);
    HullBound(x * y, xl * y, xh * y, xl * yl, xl * yh, xh * yl, xh * yh);
  }

  /** Every product of points of a and b lies in Times(a, b). */
  lemma TimesEncloses(a: Interval, b: Interval, x: real, y: real)
    requires Contains(a, x) && Contains(b, y)
    ensures Contains(Times(a, b), x * y)
  {
    CornersEnclose(a.low, x, a.high, b.low, y, b.high);
  }

  /** Both ends of a hull are among its four values. */
  lemma HullTight(c1: real, c2: real, c3: real, c4: real)
    ensures var r := Hull(c1, c2, c3, c4);
      (r.low == c1 || r.low == c2 || r.low == c3 || r.low == c4) &&
      (r.high == c1 || r.high == c2 || r.high == c3 || r.high == c4)
  {
  }

  /** Both ends of Corners are corner products. */
  lemma CornersTight(xl: real, xh: real, yl: real, yh: real)
    ensures var r := Corners(xl, xh, yl, yh);
      (r.low == xl * yl || r.low == xl * yh || r.low == xh * yl || r.low == xh * yh) &&
      (r.high == xl * yl || r.high == xl * yh || r.high == xh * yl || r.high == xh * yh)
  {
    HullTight(xl * yl, xl * yh, xh * yl, xh * yh);
  }

  /** Times(a, b) is tight: both of its ends are products of endpoints. */
  lemma TimesTight(a: Interval, b: Interval)
    ensures var r := Times(a, b);
      (r.low == a.low * b.low || r.low == a.low * b.high || r.low == a.high * b.low || r.low == a.high * b.high) &&
      (r.high == a.low * b.low || r.high == a.low * b.high || r.high == a.high * b.low || r.high == a.high * b.high)
  {
    CornersTight(a.low, a.high, b.low, b.high);
  }

  // ---------------------------------------------------------------------
  // scalar products and division
  // ---------------------------------------------------------------------

  /** `Interval.times(NumQ)`: swaps the ends for a negative scalar. */
  function TimesScalar(i: Interval, q: real): (r: Interval)
  {
    if q < 0.0 then RawInterval(i.high * q, i.low * q) else RawInterval(i.low * q, i.high * q)
  }

  lemma TimesScalarEncloses(i: Interval, q: real, x: real)
    requires Contains(i, x)
    ensures Contains(TimesScalar(i, q), x * q)
  {
    ProductBetween(i.low, x, i.high, q);
  }

  /**
   * `NumQ.times(Interval)`: [q·low, q·high] without the swap, so the
   * constructor fails for a negative scalar on an interval wider than a
   * point; whenever it succeeds it agrees with TimesScalar.
   */
  function ScalarTimes(q: real, i: Interval): (r: Option<Interval>)
    ensures r.None? <==> q < 0.0 && i.low < i.high
    ensures r.Some? ==> r.value == TimesScalar(i, q)
  {
    assert q * i.high - q * i.low == q * (i.high - i.low);
    assert q < 0.0 && i.low < i.high ==> q * (i.high - i.low) < 0.0;
    assert q >= 0.0 ==> q * (i.high - i.low) >= 0.0;
    Make(q * i.low, q * i.high)
  }

  function Signum(x: real): int {
    if x < 0.0 then -1 else if x == 0.0 then 0 else 1
  }

  /**
   * `div`: rejects a divisor whose endpoints differ in signum, and
   * multiplies by [1/high, 1/low] otherwise. A [0, 0] divisor passes the
   * signum test but its reciprocal divides by zero, so it fails as well:
   * division fails exactly when the divisor contains 0.
   */
  function Div(a: Interval, b: Interval): (r: Result<Interval>)
    ensures r.Err? <==> HasZero(b)
  {
    if Signum(b.low) != Signum(b.high) then
      Err(IllegalState("Zero in division"))
    else if b.low == 0.0 then
      Err(DivisionByZero)
    else
      Ok(Times(a, Reciprocal(b)))
  }

  /** [1/high, 1/low]: the reciprocal of a divisor that does not contain 0. */
  function Reciprocal(b: Interval): (r: Interval)
    requires !HasZero(b)
  {
    assert 1.0 / b.high <= 1.0 / b.low by {
      ReciprocalAntitone(b.low, b.high);
    }
    RawInterval(1.0 / b.high, 1.0 / b.low)
  }

  lemma ReciprocalAntitone(x: real, y: real)
    requires x <= y && (0.0 < x || y < 0.0)
    ensures 1.0 / y <= 1.0 / x
  {
    assert x * y > 0.0;
    assert 1.0 / y - 1.0 / x == (x - y) / (x * y);
  }

  /** For a divisor without 0, Div multiplies by the reciprocal interval. */
  lemma DivByReciprocal(a: Interval, b: Interval)
    requires !HasZero(b)
    ensures Div(a, b) == Ok(Times(a, Reciprocal(b)))
  {
  }

  /** The reciprocal interval holds the reciprocal of every point of b. */
  lemma ReciprocalEncloses(b: Interval, y: real)
    requires Contains(b, y) && !HasZero(b)
    ensures Contains(Reciprocal(b), 1.0 / y)
  {
    ReciprocalAntitone(b.low, y);
    ReciprocalAntitone(y, b.high);
  }

  /** A quotient q of x by y is x times the reciprocal of y. */
  lemma QuotientIsProduct(x: real, y: real, q: real)
    requires y != 0.0 && q * y == x
    ensures q == x * (1.0 / y)
  {
  }

  /** With r the reciprocal of a point y of b, every p = x·r with x in a lies in Div(a, b). */
  lemma DivEnclosesProduct(a: Interval, b: Interval, x: real, y: real, r: real, p: real)
    requires Contains(a, x) && Contains(b, y) && !HasZero(b) && r == 1.0 / y && p == x * r
    ensures Div(a, b).Ok? && Contains(Div(a, b).value, p)
  {
    ReciprocalEncloses(b, y);
    TimesEncloses(a, Reciprocal(b), x, r);
    DivByReciprocal(a, b);
  }

  /** Every quotient q = x/y of points x of a and y of b lies in Div(a, b). */
  lemma DivEncloses(a: Interval, b: Interval, x: real, y: real, q: real)
    requires Contains(a, x) && Contains(b, y) && !HasZero(b) && q * y == x
    ensures Div(a, b).Ok? && Contains(Div(a, b).value, q)
  {
    QuotientIsProduct(x, y, q);
    DivEnclosesProduct(a, b, x, y, 1.0 / y, q);
  }

  // ---------------------------------------------------------------------
  // intersection
  // ---------------------------------------------------------------------

  /** `intersects`. */
  function Intersects(a: Interval, b: Interval): bool {
    a.high >= b.low && a.low <= b.high
  }

  /** Two intervals intersect exactly when they share a point. */
  lemma IntersectsMeansCommonPoint(a: Interval, b: Interval)
    ensures Intersects(a, b) <==> exists x :: Contains(a, x) && Contains(b, x)
  {
    if Intersects(a, b) {
      var x := Max(a.low, b.low);
      assert Contains(a, x) && Contains(b, x);
    }
  }

  /**
   * `intersect`: [larger low, smaller high]. The constructor fails for
   * disjoint intervals, so the declared null result never occurs.
   */
  function Intersect(a: Interval, b: Interval): (r: Option<Interval>)
    ensures r.Some? <==> Intersects(a, b)
    ensures r.Some? ==> forall x :: Contains(r.value, x) <==> Contains(a, x) && Contains(b, x)
  {
    var low := if a.low < b.low then b.low else a.low;
    var high := if a.high < b.high then a.high else b.high;
    Make(low, high)
  }
}
