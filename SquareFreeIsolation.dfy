/**
 * `DescartWithSquareFreeFactorisationRootIsolation`: every square-free
 * factor is isolated on [−B, B], B the default Descartes bound. The work
 * stack first skips an interval whose interval evaluation excludes zero,
 * reports an exact root at the midpoint as a point, and then drops,
 * reports or splits the interval by its Descartes count as the
 * factorisation-based isolator does. The square-free factorisation is a
 * parameter; the work stack runs for at most `fuel` rounds.
 */
module SquareFreeIsolation {
  import opened Wrappers
  import opened Polynomials
  import opened PolyTools
  import opened Intervals
  import opened Roots
  import opened IntervalEval
  import opened Gathering
  import Bisection = PolyFactorIsolation

  // ---------------------------------------------------------------------
  // isolateAllRootsRecursively: the work stack
  // ---------------------------------------------------------------------

  /** The zero-width interval of an exact root at the midpoint of iv, if it is one. */
  function MiddleRoot(p: UPoly, iv: Interval): (r: seq<Interval>)
    ensures |r| <= 1
  {
    var middle := Bisection.Midpoint(iv.low, iv.high);
    if Eval(p, middle) == 0.0 then [Point(middle)] else []
  }

  /**
   * One round on a non-empty stack: pop the last interval; skip it when
   * its interval evaluation excludes zero; otherwise record an exact
   * midpoint root, then drop the interval on no sign change, report it on
   * one sign change below the precision, and split it otherwise.
   */
  function Round(p: UPoly, precision: real, queue: seq<Interval>, result: seq<Interval>): Result<(seq<Interval>, seq<Interval>)>
    requires |queue| > 0
  {
    var iv := queue[|queue| - 1];
    var rest := queue[..|queue| - 1];
    if !HasZero(UEval(p, iv)) then Ok((rest, result))
    else
      match SignChangesOn(p, iv.low, iv.high)
      case Err(e) => Err(e)
      case Ok(n) =>
        var found: seq<Interval> := result + MiddleRoot(p, iv);
        var reported: seq<Interval> := found + [iv];
        if n == 0 then Ok((rest, found))
        else if n == 1 && precision > Bisection.HalfWidth(iv) then Ok((rest, reported))
        else Ok((Bisection.Split(rest, iv), found))
  }

  /** The loop run for at most `fuel` rounds; it runs out of fuel while the stack is not empty. */
  function Work(p: UPoly, precision: real, queue: seq<Interval>, result: seq<Interval>, fuel: nat): Result<seq<Interval>>
    decreases fuel
  {
    if |queue| == 0 then Ok(result)
    else if fuel == 0 then Err(OutOfFuel)
    else
      match Round(p, precision, queue, result)
      case Err(e) => Err(e)
      case Ok(next) => Work(p, precision, next.0, next.1, fuel - 1)
  }

  /**
   * `isolateAllRootsRecursively(polynomial, mainLowerBound, mainUpperBound, precision)`;
   * building the first interval fails when the bounds are the wrong way round.
   */
  method IsolateAllRootsRecursively(p: UPoly, mainLowerBound: real, mainUpperBound: real, precision: real, fuel: nat)
      returns (r: Result<seq<Interval>>)
    ensures mainLowerBound > mainUpperBound ==> r == Err(EmptyInterval)
    ensures mainLowerBound <= mainUpperBound ==> r == Work(p, precision, [RawInterval(mainLowerBound, mainUpperBound)], [], fuel)
  {
    if mainLowerBound > mainUpperBound {
      return Err(EmptyInterval);
    }
    var bounds: Interval := RawInterval(mainLowerBound, mainUpperBound);
    var result: seq<Interval> := [];
    var workQueue: seq<Interval> := [bounds];
    var f := fuel;
    while |workQueue| > 0
      invariant Work(p, precision, workQueue, result, f) == Work(p, precision, [bounds], [], fuel)
      decreases f
    {
      if f == 0 {
        return Err(OutOfFuel);
      }
      var next := WorkRound(p, precision, workQueue, result);
      if next.Err? {
        return Err(next.error);
      }
      workQueue, result := next.value.0, next.value.1;
      f := f - 1;
    }
    return Ok(result);
  }

  /** The loop body: pop, test the interval evaluation, count sign changes, then record, drop, report or split. */
  method WorkRound(p: UPoly, precision: real, workQueue: seq<Interval>, result: seq<Interval>)
      returns (r: Result<(seq<Interval>, seq<Interval>)>)
    requires |workQueue| > 0
    ensures r == Round(p, precision, workQueue, result)
  {
    var interval := workQueue[|workQueue| - 1];
    var rest := workQueue[..|workQueue| - 1];
    var value := EvaluateUPoly(p, interval);
    if !HasZero(value) {
      return Ok((rest, result));
    }
    var numberOfSignChanges := CountSignChanges(p, interval.low, interval.high);
    if numberOfSignChanges.Err? {
      return Err(numberOfSignChanges.error);
    }
    var found := result + MiddleRoot(p, interval);
    if numberOfSignChanges.value == 0 {
      return Ok((rest, found));
    } else if numberOfSignChanges.value == 1 && precision > Bisection.HalfWidth(interval) {
      return Ok((rest, found + [interval]));
    }
    return Ok((Bisection.Split(rest, interval), found));
  }

  // ---------------------------------------------------------------------
  // what the work stack guarantees
  // ---------------------------------------------------------------------

  /**
   * A recorded interval lies in bounds and is either an exact root as a
   * point or an interval narrower than 2·precision with one sign change.
   */
  predicate Found(p: UPoly, bounds: Interval, precision: real, iv: Interval) {
    && Bisection.Within(iv, bounds)
    && ((iv.low == iv.high && Eval(p, iv.low) == 0.0) ||
        (iv.high - iv.low < 2.0 * precision && SignChangesOn(p, iv.low, iv.high) == Ok(1)))
  }

  predicate AllFound(p: UPoly, bounds: Interval, precision: real, result: seq<Interval>) {
    forall i :: 0 <= i < |result| ==> Found(p, bounds, precision, result[i])
  }

  /** An interval skipped by the fast test contains no root of p. */
  lemma SkippedHasNoRoot(p: UPoly, iv: Interval, y: real)
    requires !HasZero(UEval(p, iv)) && Contains(iv, y)
    ensures Eval(p, y) != 0.0
  {
    UEvalEncloses(p, iv, y);
  }

  /** An exact root at the midpoint is recorded as a point, whatever the sign-change count. */
  lemma MiddleRootRecorded(p: UPoly, precision: real, queue: seq<Interval>, result: seq<Interval>)
    requires |queue| > 0 && Round(p, precision, queue, result).Ok?
    requires var iv := queue[|queue| - 1]; HasZero(UEval(p, iv)) && Eval(p, Bisection.Midpoint(iv.low, iv.high)) == 0.0
    ensures var iv := queue[|queue| - 1]; var m := Bisection.Midpoint(iv.low, iv.high);
      Round(p, precision, queue, result).value.1[|result|] == RawInterval(m, m)
  {
  }

  /** A round keeps the stack inside bounds and records only intervals that qualify. */
  lemma RoundSound(p: UPoly, bounds: Interval, precision: real, queue: seq<Interval>, result: seq<Interval>)
    requires |queue| > 0 && Bisection.AllWithin(queue, bounds) && AllFound(p, bounds, precision, result)
    requires Round(p, precision, queue, result).Ok?
    ensures Bisection.AllWithin(Round(p, precision, queue, result).value.0, bounds)
    ensures AllFound(p, bounds, precision, Round(p, precision, queue, result).value.1)
  {
    var iv := queue[|queue| - 1];
    assert Bisection.Within(iv, bounds);
    var middle := Bisection.Midpoint(iv.low, iv.high);
    if Eval(p, middle) == 0.0 {
      assert Found(p, bounds, precision, Point(middle));
    }
  }

  /** Every interval the work stack records lies in bounds and is a point root or a narrow one-sign-change interval. */
  lemma {:induction false} WorkSound(p: UPoly, bounds: Interval, precision: real, queue: seq<Interval>, result: seq<Interval>, fuel: nat)
    requires Bisection.AllWithin(queue, bounds) && AllFound(p, bounds, precision, result)
    requires Work(p, precision, queue, result, fuel).Ok?
    ensures AllFound(p, bounds, precision, Work(p, precision, queue, result, fuel).value)
    decreases fuel
  {
    if |queue| > 0 {
      RoundSound(p, bounds, precision, queue, result);
      var next := Round(p, precision, queue, result).value;
      WorkSound(p, bounds, precision, next.0, next.1, fuel - 1);
    }
  }

  /** The work stack fails only by running out of fuel or by a transform beyond the factor table. */
  lemma {:induction false} WorkFails(p: UPoly, precision: real, queue: seq<Interval>, result: seq<Interval>, fuel: nat)
    requires Work(p, precision, queue, result, fuel).Err?
    ensures Work(p, precision, queue, result, fuel).error == OutOfFuel ||
      (Work(p, precision, queue, result, fuel).error == IndexOutOfBounds && !WithinTable(p, |p|))
    decreases fuel
  {
    if |queue| > 0 && fuel > 0 && Round(p, precision, queue, result).Ok? {
      var next := Round(p, precision, queue, result).value;
      WorkFails(p, precision, next.0, next.1, fuel - 1);
    }
  }

  // ---------------------------------------------------------------------
  // isolateAllRoots and isolateRoots
  // ---------------------------------------------------------------------

  /** `boundRoots`: B, then −B, each as a point when it is a root. */
  function BoundRoots(p: UPoly): (r: seq<Interval>)
    ensures Point(DefaultBound(p)) in r <==> Eval(p, DefaultBound(p)) == 0.0
    ensures Point(-DefaultBound(p)) in r <==> Eval(p, -DefaultBound(p)) == 0.0
    ensures forall iv :: iv in r ==> iv.low == iv.high && Eval(p, iv.low) == 0.0
  {
    var b := DefaultBound(p);
    (if Eval(p, b) == 0.0 then [Point(b)] else []) + (if Eval(p, -b) == 0.0 then [Point(-b)] else [])
  }

  /** `isolateAllRoots(polynomial, precision)` as a function: the bound roots, then the work stack's intervals. */
  function AllRoots(p: UPoly, precision: real, fuel: nat): Result<seq<Interval>> {
    match Work(p, precision, [Bisection.DefaultBounds(p)], [], fuel)
    case Err(e) => Err(e)
    case Ok(intervals) => Ok(BoundRoots(p) + intervals)
  }

  /** `isolateAllRoots(polynomial, precision)`. */
  method IsolateAllRoots(p: UPoly, precision: real, fuel: nat) returns (r: Result<seq<Interval>>)
    ensures r == AllRoots(p, precision, fuel)
  {
    var defaultBound := GetDefaultBoundForDescartMethod(p);
    var boundRoots: seq<Interval> := [];
    if Eval(p, defaultBound) == 0.0 {
      boundRoots := boundRoots + [Point(defaultBound)];
    }
    if Eval(p, -defaultBound) == 0.0 {
      boundRoots := boundRoots + [Point(-defaultBound)];
    }
    assert boundRoots == BoundRoots(p);
    var intervals := IsolateAllRootsRecursively(p, -defaultBound, defaultBound, precision, fuel);
    if intervals.Err? {
      return Err(intervals.error);
    }
    return Ok(boundRoots + intervals.value);
  }

  /** Every interval of `isolateAllRoots` lies in [−B, B] and is a point root or a narrow one-sign-change interval. */
  lemma AllRootsSound(p: UPoly, precision: real, fuel: nat)
    requires AllRoots(p, precision, fuel).Ok?
    ensures AllFound(p, Bisection.DefaultBounds(p), precision, AllRoots(p, precision, fuel).value)
  {
    var bounds := Bisection.DefaultBounds(p);
    WorkSound(p, bounds, precision, [bounds], [], fuel);
    var intervals := Work(p, precision, [bounds], [], fuel).value;
    var all := AllRoots(p, precision, fuel).value;
    forall i | 0 <= i < |all|
      ensures Found(p, bounds, precision, all[i])
    {
      if i >= |BoundRoots(p)| {
        assert all[i] == intervals[i - |BoundRoots(p)|];
      } else {
        assert all[i] in BoundRoots(p);
      }
    }
  }

  /** `isolateAllRoots` as a function value, for the concatenation over the factors. */
  function Isolator(precision: real, fuel: nat): UPoly -> Result<seq<Interval>> {
    f => AllRoots(f, precision, fuel)
  }

  /** `isolateRoots` on given square-free factors: their results concatenated in factor order. */
  function FactorsRoots(factors: seq<UPoly>, precision: real, fuel: nat): Result<seq<Interval>> {
    Gather(factors, Isolator(precision, fuel), |factors|)
  }

  /** `isolateRoots(polynomial, precision)` with `squareFree` as the square-free factorisation. */
  method IsolateRoots(p: UPoly, squareFree: UPoly -> seq<UPoly>, precision: real, fuel: nat) returns (r: Result<seq<Interval>>)
    ensures r == FactorsRoots(squareFree(p), precision, fuel)
  {
    var factors := squareFree(p);
    var computedRoots: seq<Interval> := [];
    var i := 0;
    while i < |factors|
      invariant i <= |factors|
      invariant Gather(factors, Isolator(precision, fuel), i) == Ok(computedRoots)
    {
      var next := AddFactor(factors, precision, fuel, i, computedRoots);
      if next.Err? {
        GatherErrorStays(factors, Isolator(precision, fuel), i + 1, |factors|);
        return next;
      }
      computedRoots := next.value;
      i := i + 1;
    }
    return Ok(computedRoots);
  }

  /** `computedRoots += isolateAllRoots(poly, precision)` for factor i. */
  method AddFactor(factors: seq<UPoly>, precision: real, fuel: nat, i: nat, computedRoots: seq<Interval>)
      returns (r: Result<seq<Interval>>)
    requires i < |factors| && Gather(factors, Isolator(precision, fuel), i) == Ok(computedRoots)
    ensures r == Gather(factors, Isolator(precision, fuel), i + 1)
  {
    var next := IsolateAllRoots(factors[i], precision, fuel);
    if next.Err? {
      return Err(next.error);
    }
    return Ok(computedRoots + next.value);
  }

  /** Every interval of the result lies in its own factor's [−B, B] and is a point root or a narrow one-sign-change interval. */
  lemma FactorsRootsSound(factors: seq<UPoly>, precision: real, fuel: nat)
    requires FactorsRoots(factors, precision, fuel).Ok?
    ensures forall iv :: iv in FactorsRoots(factors, precision, fuel).value ==>
      exists j :: 0 <= j < |factors| && Found(factors[j], Bisection.DefaultBounds(factors[j]), precision, iv)
  {
    var isolate := Isolator(precision, fuel);
    GatherMembers(factors, isolate, |factors|);
    forall j | 0 <= j < |factors| && isolate(factors[j]).Ok?
      ensures forall iv :: iv in isolate(factors[j]).value ==> Found(factors[j], Bisection.DefaultBounds(factors[j]), precision, iv)
    {
      AllRootsSound(factors[j], precision, fuel);
    }
  }
}
