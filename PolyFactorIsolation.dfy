/**
 * `DescartWithPolyFactorisationRootIsolation`: the polynomial is factored,
 * a linear factor gives its root −c0 directly, and every other factor is
 * isolated by a bisection work stack that reports an interval once the
 * Descartes count is exactly one and its half-width is below the
 * requested precision. The factorisation is a parameter; the work stack
 * runs for at most `fuel` rounds.
 */
module PolyFactorIsolation {
  import opened Wrappers
  import opened Polynomials
  import opened PolyTools
  import opened Intervals
  import opened Roots
  import opened Gathering

  /** `(upperBound + lowerBound) / 2`. */
  function Midpoint(l: real, u: real): (r: real)
    requires l <= u
    ensures l <= r <= u
  {
    (u + l) / 2.0
  }

  /** `actualPrecision`: half the width of iv. */
  function HalfWidth(iv: Interval): (r: real)
    ensures r >= 0.0 && iv.high - iv.low == 2.0 * r
  {
    (iv.high - iv.low) / 2.0
  }

  /** The stack with the two halves of iv pushed, the upper half last. */
  function Split(rest: seq<Interval>, iv: Interval): (r: seq<Interval>)
    ensures |r| == |rest| + 2 && r[..|rest|] == rest
    ensures r[|rest|] == RawInterval(iv.low, Midpoint(iv.low, iv.high))
    ensures r[|rest| + 1] == RawInterval(Midpoint(iv.low, iv.high), iv.high)
  {
    var middle := Midpoint(iv.low, iv.high);
    var lower: Interval := RawInterval(iv.low, middle);
    var upper: Interval := RawInterval(middle, iv.high);
    rest + [lower, upper]
  }

  // ---------------------------------------------------------------------
  // isolateIrracionalRootsRecursively: the work stack
  // ---------------------------------------------------------------------

  /**
   * One round on a non-empty stack: pop the last interval; no sign change
   * drops it, one sign change on an interval narrower than twice the
   * precision reports it, anything else splits it at the midpoint.
   */
  function Round(p: UPoly, precision: real, queue: seq<Interval>, result: seq<Interval>): Result<(seq<Interval>, seq<Interval>)>
    requires |queue| > 0
  {
    var iv := queue[|queue| - 1];
    var rest := queue[..|queue| - 1];
    match SignChangesOn(p, iv.low, iv.high)
    case Err(e) => Err(e)
    case Ok(n) =>
      var reported: seq<Interval> := result + [iv];
      if n == 0 then Ok((rest, result))
      else if n == 1 && precision > HalfWidth(iv) then Ok((rest, reported))
      else Ok((Split(rest, iv), result))
  }

  /** The loop run for at most `fuel` rounds; it runs out of fuel while the stack is not empty. */
  function Work(p: UPoly, precision: real, queue: seq<Interval>, result: seq<Interval>, fuel: nat): Result<seq<Interval>>
    decreases fuel
  {
    if |queue| == 0 then Ok(result)
    else if fuel == 0 then Err(OutOfFuel)
    else
      match Round(p, precision, queue, result)
      case Err(e) => Err(e)
      case Ok(next) => Work(p, precision, next.0, next.1, fuel - 1)
  }

  /** `isolateIrracionalRootsRecursively(polynomial, bounds, precision)`. */
  method IsolateIrrationalRootsRecursively(p: UPoly, bounds: Interval, precision: real, fuel: nat) returns (r: Result<seq<Interval>>)
    ensures r == Work(p, precision, [bounds], [], fuel)
  {
    var result: seq<Interval> := [];
    var workQueue: seq<Interval> := [bounds];
    var f := fuel;
    while |workQueue| > 0
      invariant Work(p, precision, workQueue, result, f) == Work(p, precision, [bounds], [], fuel)
      decreases f
    {
      if f == 0 {
        return Err(OutOfFuel);
      }
      var next := WorkRound(p, precision, workQueue, result);
      if next.Err? {
        return Err(next.error);
      }
      workQueue, result := next.value.0, next.value.1;
      f := f - 1;
    }
    return Ok(result);
  }

  /** The loop body: pop, count sign changes, then drop, report or split. */
  method WorkRound(p: UPoly, precision: real, workQueue: seq<Interval>, result: seq<Interval>)
      returns (r: Result<(seq<Interval>, seq<Interval>)>)
    requires |workQueue| > 0
    ensures r == Round(p, precision, workQueue, result)
  {
    var iv := workQueue[|workQueue| - 1];
    var rest := workQueue[..|workQueue| - 1];
    var numberOfSignChanges := CountSignChanges(p, iv.low, iv.high);
    if numberOfSignChanges.Err? {
      return Err(numberOfSignChanges.error);
    }
    var actualPrecision := HalfWidth(iv);
    if numberOfSignChanges.value == 0 {
      return Ok((rest, result));
    } else if numberOfSignChanges.value == 1 && precision > actualPrecision {
      return Ok((rest, result + [iv]));
    }
    return Ok((Split(rest, iv), result));
  }

  // ---------------------------------------------------------------------
  // what the work stack guarantees
  // ---------------------------------------------------------------------

  predicate Within(iv: Interval, bounds: Interval) {
    bounds.low <= iv.low && iv.high <= bounds.high
  }

  /** A reported interval: inside bounds, narrower than twice the precision, one sign change. */
  predicate Reported(p: UPoly, bounds: Interval, precision: real, iv: Interval) {
    && Within(iv, bounds)
    && iv.high - iv.low < 2.0 * precision
    && SignChangesOn(p, iv.low, iv.high) == Ok(1)
  }

  predicate AllWithin(queue: seq<Interval>, bounds: Interval) {
    forall i :: 0 <= i < |queue| ==> Within(queue[i], bounds)
  }

  predicate AllReported(p: UPoly, bounds: Interval, precision: real, result: seq<Interval>) {
    forall i :: 0 <= i < |result| ==> Reported(p, bounds, precision, result[i])
  }

  /** A round keeps the stack inside bounds and reports only intervals that qualify. */
  lemma RoundSound(p: UPoly, bounds: Interval, precision: real, queue: seq<Interval>, result: seq<Interval>)
    requires |queue| > 0 && AllWithin(queue, bounds) && AllReported(p, bounds, precision, result)
    requires Round(p, precision, queue, result).Ok?
    ensures AllWithin(Round(p, precision, queue, result).value.0, bounds)
    ensures AllReported(p, bounds, precision, Round(p, precision, queue, result).value.1)
  {
    var iv := queue[|queue| - 1];
    assert Within(iv, bounds);
  }

  /** Every interval the work stack reports lies in bounds, is narrower than 2·precision and has one sign change. */
  lemma {:induction false} WorkSound(p: UPoly, bounds: Interval, precision: real, queue: seq<Interval>, result: seq<Interval>, fuel: nat)
    requires AllWithin(queue, bounds) && AllReported(p, bounds, precision, result)
    requires Work(p, precision, queue, result, fuel).Ok?
    ensures AllReported(p, bounds, precision, Work(p, precision, queue, result, fuel).value)
    decreases fuel
  {
    if |queue| > 0 {
      RoundSound(p, bounds, precision, queue, result);
      var next := Round(p, precision, queue, result).value;
      WorkSound(p, bounds, precision, next.0, next.1, fuel - 1);
    }
  }

  /** The work stack fails only by running out of fuel or by a transform beyond the factor table. */
  lemma {:induction false} WorkFails(p: UPoly, precision: real, queue: seq<Interval>, result: seq<Interval>, fuel: nat)
    requires Work(p, precision, queue, result, fuel).Err?
    ensures Work(p, precision, queue, result, fuel).error == OutOfFuel ||
      (Work(p, precision, queue, result, fuel).error == IndexOutOfBounds && !WithinTable(p, |p|))
    decreases fuel
  {
    if |queue| > 0 && fuel > 0 && Round(p, precision, queue, result).Ok? {
      var next := Round(p, precision, queue, result).value;
      WorkFails(p, precision, next.0, next.1, fuel - 1);
    }
  }

  /** Bounds on which the Descartes count is zero are dropped at once: nothing is reported. */
  lemma NoChangeNoReport(p: UPoly, bounds: Interval, precision: real, fuel: nat)
    requires SignChangesOn(p, bounds.low, bounds.high) == Ok(0) && fuel > 0
    ensures Work(p, precision, [bounds], [], fuel) == Ok([])
  {
    assert Round(p, precision, [bounds], []) == Ok(([], []));
  }

  // ---------------------------------------------------------------------
  // isolateInBounds and isolateRoots
  // ---------------------------------------------------------------------

  /** `poly[0].negate()`: the root of a linear factor, which the factorisation returns monic. */
  function LinearRoot(f: UPoly): real {
    -f[0]
  }

  /** A monic linear factor vanishes at −c0. */
  lemma LinearRootIsRoot(f: UPoly)
    requires Degree(f) == 1 && f[1] == 1.0
    ensures Eval(f, LinearRoot(f)) == 0.0
  {
    RationalRootIsZero(f);
    assert RationalRoot(f) == LinearRoot(f);
  }

  /** The intervals one factor contributes. */
  function FactorIntervals(f: UPoly, bounds: Interval, precision: real, fuel: nat): Result<seq<Interval>> {
    if Degree(f) == 1 then
      Ok(if Contains(bounds, LinearRoot(f)) then [RawInterval(LinearRoot(f), LinearRoot(f))] else [])
    else Work(f, precision, [bounds], [], fuel)
  }

  /** The isolation of one factor as a function value, for the concatenation over the factors. */
  function Isolator(bounds: Interval, precision: real, fuel: nat): UPoly -> Result<seq<Interval>> {
    f => FactorIntervals(f, bounds, precision, fuel)
  }

  /** `isolateInBounds` on given factors: their intervals concatenated; the first failure wins. */
  function InBounds(factors: seq<UPoly>, bounds: Interval, precision: real, fuel: nat): Result<seq<Interval>> {
    Gather(factors, Isolator(bounds, precision, fuel), |factors|)
  }

  /** `isolateInBounds(polynomial, bounds, precision)` with `factor` as the factorisation. */
  method IsolateInBounds(p: UPoly, factor: UPoly -> seq<UPoly>, bounds: Interval, precision: real, fuel: nat)
      returns (r: Result<seq<Interval>>)
    ensures r == InBounds(factor(p), bounds, precision, fuel)
  {
    var factors := factor(p);
    var computedRoots: seq<Interval> := [];
    var i := 0;
    while i < |factors|
      invariant i <= |factors|
      invariant Gather(factors, Isolator(bounds, precision, fuel), i) == Ok(computedRoots)
    {
      var next := AddFactor(factors, bounds, precision, fuel, i, computedRoots);
      if next.Err? {
        GatherErrorStays(factors, Isolator(bounds, precision, fuel), i + 1, |factors|);
        return next;
      }
      computedRoots := next.value;
      i := i + 1;
    }
    return Ok(computedRoots);
  }

  /** `computedRoots += …` for factor i. */
  method AddFactor(factors: seq<UPoly>, bounds: Interval, precision: real, fuel: nat, i: nat, computedRoots: seq<Interval>)
      returns (r: Result<seq<Interval>>)
    requires i < |factors| && Gather(factors, Isolator(bounds, precision, fuel), i) == Ok(computedRoots)
    ensures r == Gather(factors, Isolator(bounds, precision, fuel), i + 1)
  {
    var next := IsolateFactor(factors[i], bounds, precision, fuel);
    if next.Err? {
      return Err(next.error);
    }
    return Ok(computedRoots + next.value);
  }

  /** One factor of the loop: the linear case, else the work stack. */
  method IsolateFactor(f: UPoly, bounds: Interval, precision: real, fuel: nat) returns (r: Result<seq<Interval>>)
    ensures r == FactorIntervals(f, bounds, precision, fuel)
  {
    if Degree(f) == 1 {
      var root := LinearRoot(f);
      if Contains(bounds, root) {
        return Ok([RawInterval(root, root)]);
      }
      return Ok([]);
    }
    r := IsolateIrrationalRootsRecursively(f, bounds, precision, fuel);
  }

  /** What one factor may contribute: its point −c0 in bounds when linear, a reported interval otherwise. */
  predicate FromFactor(f: UPoly, bounds: Interval, precision: real, iv: Interval) {
    if Degree(f) == 1 then iv.low == iv.high == LinearRoot(f) && Contains(bounds, iv.low)
    else Reported(f, bounds, precision, iv)
  }

  lemma FactorIntervalsSound(f: UPoly, bounds: Interval, precision: real, fuel: nat)
    requires FactorIntervals(f, bounds, precision, fuel).Ok?
    ensures forall iv :: iv in FactorIntervals(f, bounds, precision, fuel).value ==> FromFactor(f, bounds, precision, iv)
  {
    if Degree(f) != 1 {
      WorkSound(f, bounds, precision, [bounds], [], fuel);
    }
  }

  /** Every interval of the result comes from one of the factors, as FromFactor allows. */
  lemma InBoundsSound(factors: seq<UPoly>, bounds: Interval, precision: real, fuel: nat)
    requires InBounds(factors, bounds, precision, fuel).Ok?
    ensures forall iv :: iv in InBounds(factors, bounds, precision, fuel).value ==>
      exists j :: 0 <= j < |factors| && FromFactor(factors[j], bounds, precision, iv)
  {
    var isolate := Isolator(bounds, precision, fuel);
    GatherMembers(factors, isolate, |factors|);
    forall j | 0 <= j < |factors| && isolate(factors[j]).Ok?
      ensures forall iv :: iv in isolate(factors[j]).value ==> FromFactor(factors[j], bounds, precision, iv)
    {
      FactorIntervalsSound(factors[j], bounds, precision, fuel);
    }
  }

  /** isolateInBounds fails only by running out of fuel or on a factor of degree above the table. */
  lemma InBoundsFails(factors: seq<UPoly>, bounds: Interval, precision: real, fuel: nat)
    requires InBounds(factors, bounds, precision, fuel).Err?
    ensures InBounds(factors, bounds, precision, fuel).error == OutOfFuel ||
      exists j :: 0 <= j < |factors| && !WithinTable(factors[j], |factors[j]|) &&
        InBounds(factors, bounds, precision, fuel).error == IndexOutOfBounds
  {
    var isolate := Isolator(bounds, precision, fuel);
    GatherFails(factors, isolate, |factors|);
    var j :| 0 <= j < |factors| && isolate(factors[j]).Err? && isolate(factors[j]).error == InBounds(factors, bounds, precision, fuel).error;
    WorkFails(factors[j], precision, [bounds], [], fuel);
  }

  /** `[−B, B]` for B the default Descartes bound. */
  function DefaultBounds(p: UPoly): (r: Interval)
    ensures r.low == -DefaultBound(p) && r.high == DefaultBound(p)
  {
    RawInterval(-DefaultBound(p), DefaultBound(p))
  }

  /** `isolateRoots(polynomial, precision)`: isolateInBounds on [−B, B]. */
  method IsolateRoots(p: UPoly, factor: UPoly -> seq<UPoly>, precision: real, fuel: nat) returns (r: Result<seq<Interval>>)
    ensures r == InBounds(factor(p), DefaultBounds(p), precision, fuel)
  {
    var bound := GetDefaultBoundForDescartMethod(p);
    var defaultBound: Interval := RawInterval(-bound, bound);
    r := IsolateInBounds(p, factor, defaultBound, precision, fuel);
  }
}
