/**
 * The rectangular abstraction of a model (synth/StateSpace.kt): the state
 * space is refined box by box until every remaining box is either small
 * enough to give up on (unsafe) or provably free of equilibria because
 * some equation's interval value over it excludes zero (safe); transitions
 * then join boxes that share a facet, in the direction the equation of the
 * facet's dimension can flow.
 */
module StateSpaces {
  import opened Wrappers
  import opened Intervals
  import opened MPolys
  import opened Boxes
  import opened IntervalEval
  import opened TransitionSystems

  /**
   * `Model` (synth/Model.kt): the variable and parameter bounds and one
   * equation (the variable's derivative) per variable. The evaluation
   * places the parameters before the variables.
   */
  datatype Model = Model(varBounds: Box, paramBounds: Box, equations: seq<RationalFunction>)

  // ---------------------------------------------------------------------
  // computeStateSpace
  // ---------------------------------------------------------------------

  /** The boxes `subdivide` returns, in mask order. */
  function Children(b: Box): seq<Box> {
    seq(MaskCount(|b|), m requires 0 <= m < MaskCount(|b|) => Child(b, m))
  }

  /** The equation's interval over the box excludes zero. */
  predicate Excludes(f: RationalFunction, vars: Box, params: Box) {
    REvalInterval(f, params + vars).Ok? && !HasZero(REvalInterval(f, params + vars).value)
  }

  /** `equations.any { !it.evaluate(box, params).hasZero }` from equation k on; an evaluation failure surfaces. */
  function AnyExcludesZero(eqs: seq<RationalFunction>, vars: Box, params: Box, k: nat): Result<bool>
    requires k <= |eqs|
    decreases |eqs| - k
  {
    if k == |eqs| then Ok(false)
    else match REvalInterval(eqs[k], params + vars)
      case Err(e) => Err(e)
      case Ok(v) => if !HasZero(v) then Ok(true) else AnyExcludesZero(eqs, vars, params, k + 1)
  }

  /** `any` answers true exactly when it meets an excluding equation before any failing one, false when none excludes. */
  lemma {:induction false} AnyExcludesMeans(eqs: seq<RationalFunction>, vars: Box, params: Box, k: nat)
    requires k <= |eqs|
    ensures AnyExcludesZero(eqs, vars, params, k) == Ok(true) ==> exists e :: k <= e < |eqs| && Excludes(eqs[e], vars, params)
    ensures AnyExcludesZero(eqs, vars, params, k) == Ok(false) <==>
      forall e :: k <= e < |eqs| ==> REvalInterval(eqs[e], params + vars).Ok? && HasZero(REvalInterval(eqs[e], params + vars).value)
    decreases |eqs| - k
  {
    if k < |eqs| {
      AnyExcludesMeans(eqs, vars, params, k + 1);
      if REvalInterval(eqs[k], params + vars).Ok? && !HasZero(REvalInterval(eqs[k], params + vars).value) {
        assert Excludes(eqs[k], vars, params);
      }
    }
  }

  /** What the `when` decides for one box. */
  datatype Verdict = Split | Unsafe | Safe

  /** The `when` of the refinement loop: too large, too small, some equation nonzero, otherwise split. */
  function Judge(model: Model, smallest: real, largest: real, box: Box): Result<Verdict> {
    if Volume(box) > largest then Ok(Split)
    else if Volume(box) < smallest then Ok(Unsafe)
    else match AnyExcludesZero(model.equations, box, model.paramBounds, 0)
      case Err(e) => Err(e)
      case Ok(safe) => if safe then Ok(Safe) else Ok(Split)
  }

  /**
   * A box judged safe lies between the sizes, and at each of its points
   * (with parameters from the parameter box) some equation is defined and
   * nonzero: it holds no equilibrium. A box judged unsafe is below the
   * smallest volume, and a box above the largest is always split.
   */
  lemma JudgeMeans(model: Model, smallest: real, largest: real, box: Box)
    ensures Volume(box) > largest ==> Judge(model, smallest, largest, box) == Ok(Split)
    ensures Judge(model, smallest, largest, box) == Ok(Unsafe) <==> Volume(box) <= largest && Volume(box) < smallest
    ensures Judge(model, smallest, largest, box) == Ok(Safe) ==>
      smallest <= Volume(box) <= largest &&
      forall pt :: InBox(model.paramBounds + box, pt) ==> NonzeroSomewhere(model, pt)
  {
    AnyExcludesMeans(model.equations, box, model.paramBounds, 0);
    if Judge(model, smallest, largest, box) == Ok(Safe) {
      forall pt | InBox(model.paramBounds + box, pt)
        ensures NonzeroSomewhere(model, pt)
      {
        var e :| 0 <= e < |model.equations| && Excludes(model.equations[e], box, model.paramBounds);
        NoZeroInside(model.equations[e], box, model.paramBounds, pt);
      }
    }
  }

  /** At the point some equation is defined and nonzero. */
  ghost predicate NonzeroSomewhere(model: Model, pt: seq<real>) {
    exists e :: 0 <= e < |model.equations| &&
      MEval(model.equations[e].denominator, pt) != 0.0 &&
      MEval(model.equations[e].numerator, pt) / MEval(model.equations[e].denominator, pt) != 0.0
  }

  /** An equation whose interval excludes zero is defined and nonzero at every point of the box. */
  lemma NoZeroInside(f: RationalFunction, vars: Box, params: Box, pt: seq<real>)
    requires Excludes(f, vars, params) && InBox(params + vars, pt)
    ensures MEval(f.denominator, pt) != 0.0 && MEval(f.numerator, pt) / MEval(f.denominator, pt) != 0.0
  {
    REvalEncloses(f, params + vars, pt);
  }

  /** The output so far and the two volume accumulators. */
  datatype Resolution = Resolution(result: seq<Box>, safeVolume: real, unsafeVolume: real)

  /** `Judge` for fixed sizes, as the loop applies it to each box. */
  function Judging(model: Model, smallest: real, largest: real): Box -> Result<Verdict> {
    (box: Box) => Judge(model, smallest, largest, box)
  }

  /** One pass of the `for` over boxes[..k]: the boxes to resolve next and the output extended. */
  function Round(judge: Box -> Result<Verdict>, boxes: seq<Box>, k: nat, start: Resolution): Result<(seq<Box>, Resolution)>
    requires k <= |boxes|
    decreases k
  {
    if k == 0 then Ok(([], start))
    else match Round(judge, boxes, k - 1, start)
      case Err(e) => Err(e)
      case Ok(pass) =>
        var (next, acc) := pass;
        var box := boxes[k - 1];
        match judge(box)
        case Err(e) => Err(e)
        case Ok(verdict) =>
          match verdict
          case Split => Ok((next + Children(box), acc))
          case Unsafe => Ok((next, Resolution(acc.result + [box], acc.safeVolume, acc.unsafeVolume + Volume(box))))
          case Safe => Ok((next, Resolution(acc.result + [box], acc.safeVolume + Volume(box), acc.unsafeVolume)))
  }

  /** The `while` loop from `toResolve`, one step of fuel per pass; out of fuel while boxes remain is a failure. */
  function Resolve(judge: Box -> Result<Verdict>, toResolve: seq<Box>, acc: Resolution, fuel: nat): Result<Resolution>
    decreases fuel
  {
    if |toResolve| == 0 then Ok(acc)
    else if fuel == 0 then Err(OutOfFuel)
    else match Round(judge, toResolve, |toResolve|, acc)
      case Err(e) => Err(e)
      case Ok(pass) => Resolve(judge, pass.0, pass.1, fuel - 1)
  }

  /** A fraction of the volume of the variable bounds. */
  function Size(model: Model, division: real): real {
    Volume(model.varBounds) * division
  }

  /** `computeStateSpace`: the sizes are fractions of the variable bounds' volume. */
  function StateSpace(model: Model, initial: seq<Box>, maxDivision: real, minDivision: real, fuel: nat): Result<Resolution> {
    Resolve(Judging(model, Size(model, maxDivision), Size(model, minDivision)),
            initial, Resolution([], 0.0, 0.0), fuel)
  }

  /** The volume of the boxes the verdict was given to. */
  function SumWhere(judge: Box -> Result<Verdict>, bs: seq<Box>, verdict: Verdict): real
    decreases |bs|
  {
    if |bs| == 0 then 0.0
    else
      var last := bs[|bs| - 1];
      SumWhere(judge, bs[..|bs| - 1], verdict) + (if judge(last) == Ok(verdict) then Volume(last) else 0.0)
  }

  /** The total volume of a list of boxes. */
  function TotalVolume(bs: seq<Box>): real
    decreases |bs|
  {
    if |bs| == 0 then 0.0 else TotalVolume(bs[..|bs| - 1]) + Volume(bs[|bs| - 1])
  }

  /** A box that was output: judged safe or unsafe. */
  ghost predicate Finished(judge: Box -> Result<Verdict>, box: Box) {
    judge(box) == Ok(Safe) || judge(box) == Ok(Unsafe)
  }

  /** The loop's invariant: every output box was finished, and each accumulator is the volume of its kind. */
  ghost predicate Accounted(judge: Box -> Result<Verdict>, acc: Resolution) {
    (forall i :: 0 <= i < |acc.result| ==> Finished(judge, acc.result[i])) &&
    acc.safeVolume == SumWhere(judge, acc.result, Safe) &&
    acc.unsafeVolume == SumWhere(judge, acc.result, Unsafe)
  }

  /** When every box is safe or unsafe, the two kinds' volumes add up to the total. */
  lemma {:induction false} SplitVolume(judge: Box -> Result<Verdict>, bs: seq<Box>)
    requires forall i :: 0 <= i < |bs| ==> Finished(judge, bs[i])
    ensures SumWhere(judge, bs, Safe) + SumWhere(judge, bs, Unsafe) == TotalVolume(bs)
    decreases |bs|
  {
    if |bs| > 0 {
      var front := bs[..|bs| - 1];
      assert forall i :: 0 <= i < |front| ==> front[i] == bs[i];
      SplitVolume(judge, front);
      assert Finished(judge, bs[|bs| - 1]);
    }
  }

  /** Outputting one finished box keeps the invariant. */
  lemma OutputKeeps(judge: Box -> Result<Verdict>, acc: Resolution, box: Box, verdict: Verdict, after: Resolution)
    requires Accounted(judge, acc)
    requires judge(box) == Ok(verdict) && verdict != Split
    requires after.result == acc.result + [box]
    requires after.safeVolume == acc.safeVolume + (if verdict == Safe then Volume(box) else 0.0)
    requires after.unsafeVolume == acc.unsafeVolume + (if verdict == Unsafe then Volume(box) else 0.0)
    ensures Accounted(judge, after)
  {
    assert after.result[..|after.result| - 1] == acc.result;
  }

  /** A pass keeps the invariant. */
  lemma {:induction false} RoundKeeps(judge: Box -> Result<Verdict>, boxes: seq<Box>, k: nat, start: Resolution)
    requires k <= |boxes| && Accounted(judge, start)
    requires Round(judge, boxes, k, start).Ok?
    ensures Accounted(judge, Round(judge, boxes, k, start).value.1)
    decreases k
  {
    if k > 0 {
      RoundKeeps(judge, boxes, k - 1, start);
      var acc := Round(judge, boxes, k - 1, start).value.1;
      var box := boxes[k - 1];
      var verdict := judge(box).value;
      if verdict != Split {
        OutputKeeps(judge, acc, box, verdict, Round(judge, boxes, k, start).value.1);
      }
    }
  }

  /** The whole loop keeps the invariant. */
  lemma {:induction false} ResolveKeeps(judge: Box -> Result<Verdict>, toResolve: seq<Box>, acc: Resolution, fuel: nat)
    requires Accounted(judge, acc)
    requires Resolve(judge, toResolve, acc, fuel).Ok?
    ensures Accounted(judge, Resolve(judge, toResolve, acc, fuel).value)
    decreases fuel
  {
    if |toResolve| > 0 {
      RoundKeeps(judge, toResolve, |toResolve|, acc);
      var pass := Round(judge, toResolve, |toResolve|, acc).value;
      ResolveKeeps(judge, pass.0, pass.1, fuel - 1);
    }
  }

  /**
   * What `computeStateSpace` returns: no output box is above the largest
   * volume (those are always split), every output box is a safe or an
   * unsafe one, the safe and unsafe volumes are the volumes of those boxes,
   * and together they are the volume of the whole output.
   */
  lemma StateSpaceSound(model: Model, initial: seq<Box>, maxDivision: real, minDivision: real, fuel: nat, acc: Resolution)
    requires StateSpace(model, initial, maxDivision, minDivision, fuel) == Ok(acc)
    ensures forall i :: 0 <= i < |acc.result| ==>
      Volume(acc.result[i]) <= Size(model, minDivision) &&
      Finished(Judging(model, Size(model, maxDivision), Size(model, minDivision)), acc.result[i])
    ensures acc.safeVolume ==
      SumWhere(Judging(model, Size(model, maxDivision), Size(model, minDivision)), acc.result, Safe)
    ensures acc.unsafeVolume ==
      SumWhere(Judging(model, Size(model, maxDivision), Size(model, minDivision)), acc.result, Unsafe)
    ensures acc.safeVolume + acc.unsafeVolume == TotalVolume(acc.result)
  {
    var smallest := Size(model, maxDivision);
    var largest := Size(model, minDivision);
    var judge := Judging(model, smallest, largest);
    ResolveKeeps(judge, initial, Resolution([], 0.0, 0.0), fuel);
    SplitVolume(judge, acc.result);
    forall i | 0 <= i < |acc.result|
      ensures Volume(acc.result[i]) <= largest
    {
      JudgingApplies(model, smallest, largest, acc.result[i]);
      JudgeMeans(model, smallest, largest, acc.result[i]);
    }
  }

  /** The loop applies `Judge` itself. */
  lemma JudgingApplies(model: Model, smallest: real, largest: real, box: Box)
    ensures Judging(model, smallest, largest)(box) == Judge(model, smallest, largest, box)
  {
  }

  /** A failure in a pass is the pass's result. */
  lemma {:induction false} RoundErrorStays(judge: Box -> Result<Verdict>, boxes: seq<Box>, k: nat, n: nat, start: Resolution)
    requires k <= n <= |boxes| && Round(judge, boxes, k, start).Err?
    ensures Round(judge, boxes, n, start) == Round(judge, boxes, k, start)
    decreases n - k
  {
    if k < n {
      RoundErrorStays(judge, boxes, k, n - 1, start);
    }
  }

  /** One pass of the loop: a failing pass is the loop's failure, otherwise the loop goes on from the pass's result. */
  lemma ResolveStep(judge: Box -> Result<Verdict>, toResolve: seq<Box>, acc: Resolution, fuel: nat, pass: Result<(seq<Box>, Resolution)>)
    requires |toResolve| > 0 && fuel > 0 && pass == Round(judge, toResolve, |toResolve|, acc)
    ensures pass.Err? ==> Resolve(judge, toResolve, acc, fuel) == Err(pass.error)
    ensures pass.Ok? ==> Resolve(judge, toResolve, acc, fuel) == Resolve(judge, pass.value.0, pass.value.1, fuel - 1)
  {
  }

  /** One pass of the `for` loop, from the accumulators of the passes before; `judge` decides the `when`. */
  method ResolvePass(judge: Box -> Result<Verdict>, toResolve: seq<Box>, acc: Resolution)
    returns (r: Result<(seq<Box>, Resolution)>)
    ensures r == Round(judge, toResolve, |toResolve|, acc)
  {
    var nextResolve: seq<Box> := [];
    var result := acc.result;
    var safeVolume := acc.safeVolume;
    var unsafeVolume := acc.unsafeVolume;
    for k := 0 to |toResolve|
      invariant Round(judge, toResolve, k, acc) == Ok((nextResolve, Resolution(result, safeVolume, unsafeVolume)))
    {
      var box := toResolve[k];
      var verdict := judge(box);
      if verdict.Err? {
        RoundErrorStays(judge, toResolve, k + 1, |toResolve|, acc);
        return Err(verdict.error);
      }
      match verdict.value
      case Split =>
        var children := Subdivide(box);
        assert children == Children(box);
        nextResolve := nextResolve + children;
      case Unsafe =>
        result := result + [box];
        unsafeVolume := unsafeVolume + Volume(box);
      case Safe =>
        result := result + [box];
        safeVolume := safeVolume + Volume(box);
    }
    return Ok((nextResolve, Resolution(result, safeVolume, unsafeVolume)));
  }

  /** `computeStateSpace`: the two sizes from the variable bounds, then the refinement loop. */
  method ComputeStateSpace(model: Model, initial: seq<Box>, maxDivision: real, minDivision: real, fuel: nat)
    returns (r: Result<Resolution>)
    ensures r == StateSpace(model, initial, maxDivision, minDivision, fuel)
  {
    var smallest := Size(model, maxDivision);
    var largest := Size(model, minDivision);
    r := Refine(Judging(model, smallest, largest), initial, fuel);
  }

  /** The `while` loop of `computeStateSpace`, with `judge` deciding the `when`: passes until nothing is left to resolve, at most `fuel` of them. */
  method Refine(judge: Box -> Result<Verdict>, initial: seq<Box>, fuel: nat)
    returns (r: Result<Resolution>)
    ensures r == Resolve(judge, initial, Resolution([], 0.0, 0.0), fuel)
  {
    ghost var target := Resolve(judge, initial, Resolution([], 0.0, 0.0), fuel);
    var toResolve := initial;
    var acc := Resolution([], 0.0, 0.0);
    var left := fuel;
    while |toResolve| > 0
      invariant target == Resolve(judge, toResolve, acc, left)
      decreases left
    {
      if left == 0 {
        return Err(OutOfFuel);
      }
      var pass := ResolvePass(judge, toResolve, acc);
      ResolveStep(judge, toResolve, acc, left, pass);
      if pass.Err? {
        return Err(pass.error);
      }
      toResolve, acc, left := pass.value.0, pass.value.1, left - 1;
    }
    return Ok(acc);
  }

  // ---------------------------------------------------------------------
  // makeTransitions
  // ---------------------------------------------------------------------

  /** The boxes meet in dimension d: one's lower end is the other's upper end. */
  predicate Touches(a: Box, b: Box, d: nat)
    requires d < |a| && d < |b|
  {
    a[d].low == b[d].high || a[d].high == b[d].low
  }

  /**
   * The dimension loop from d on with `transitionDimension` so far:
   * None for `continue@neighbour` (a dimension without intersection, or a
   * second touching dimension), Some(td) once every dimension passed; a
   * box with fewer dimensions than the first fails the array access.
   */
  function TouchScan(a: Box, b: Box, dims: nat, d: nat, td: int): Result<Option<int>>
    requires d <= dims
    decreases dims - d
  {
    if d == dims then Ok(Some(td))
    else if d >= |a| || d >= |b| then Err(IndexOutOfBounds)
    else if !Intersects(a[d], b[d]) then Ok(None)
    else if Touches(a, b, d) then (if td > -1 then Ok(None) else TouchScan(a, b, dims, d + 1, d))
    else TouchScan(a, b, dims, d + 1, td)
  }

  /**
   * The first n dimensions all intersect and td tells which touch:
   * none (td = -1), or exactly td.
   */
  ghost predicate Scanned(a: Box, b: Box, n: nat, td: int)
    requires n <= |a| && n <= |b|
  {
    (forall d :: 0 <= d < n ==> Intersects(a[d], b[d])) &&
    (td == -1 || 0 <= td < n) &&
    (forall d :: 0 <= d < n ==> (Touches(a, b, d) <==> d == td))
  }

  /** The scan from d, with the first d dimensions scanned to td, ends with t exactly when all dims are scanned to t. */
  lemma {:induction false} TouchScanFrom(a: Box, b: Box, dims: nat, d: nat, td: int)
    requires dims <= |a| && dims <= |b| && d <= dims && Scanned(a, b, d, td)
    ensures TouchScan(a, b, dims, d, td).Ok?
    ensures forall t :: TouchScan(a, b, dims, d, td) == Ok(Some(t)) <==> Scanned(a, b, dims, t)
    decreases dims - d
  {
    if d < dims {
      assert forall t :: Scanned(a, b, dims, t) ==> Intersects(a[d], b[d]) && (Touches(a, b, d) <==> d == t);
      assert 0 <= td ==> Touches(a, b, td);
      if Intersects(a[d], b[d]) && !(Touches(a, b, d) && td > -1) {
        var td' := if Touches(a, b, d) then d else td;
        assert Scanned(a, b, d + 1, td');
        TouchScanFrom(a, b, dims, d + 1, td');
      }
    } else {
      forall t | Scanned(a, b, dims, t)
        ensures t == td
      {
        assert 0 <= t ==> Touches(a, b, t);
        assert 0 <= td ==> Touches(a, b, td);
      }
    }
  }

  /**
   * The whole dimension loop: for boxes with at least `dims` dimensions it
   * succeeds, and it ends with td exactly when every dimension intersects
   * and td is the only touching one (-1: none touches).
   */
  lemma TouchScanMeans(a: Box, b: Box, dims: nat)
    requires dims <= |a| && dims <= |b|
    ensures TouchScan(a, b, dims, 0, -1).Ok?
    ensures forall t :: TouchScan(a, b, dims, 0, -1) == Ok(Some(t)) <==> Scanned(a, b, dims, t)
  {
    TouchScanFrom(a, b, dims, 0, -1);
  }

  /** A completed scan read every dimension and ends with -1 or a dimension below dims. */
  lemma {:induction false} TouchScanBounds(a: Box, b: Box, dims: nat, d: nat, td: int, t: int)
    requires d <= dims && d <= |a| && d <= |b| && -1 <= td < d && TouchScan(a, b, dims, d, td) == Ok(Some(t))
    ensures dims <= |a| && dims <= |b| && -1 <= t < dims
    decreases dims - d
  {
    if d < dims {
      TouchScanBounds(a, b, dims, d + 1, if Touches(a, b, d) then d else td, t);
    }
  }

  /** `state.data[d] intersect other.data[d]`, which the caller knows to exist. */
  function Meet(a: Interval, b: Interval): Interval {
    match Intersect(a, b)
    case Some(v) => v
    case None => a
  }

  /** `vars`: the intersection of the two boxes, dimension by dimension. */
  function Facet(a: Box, b: Box, dims: nat): (r: Box)
    requires dims <= |a| && dims <= |b|
    ensures |r| == dims
  {
    seq(dims, d requires 0 <= d < dims => Meet(a[d], b[d]))
  }

  /** `mapIndexed { i, box -> box to i }.toMap()`: a later equal box overrides an earlier one. */
  function IndexMap(boxes: seq<Box>, k: nat): map<Box, int>
    requires k <= |boxes|
    decreases k
  {
    if k == 0 then map[] else IndexMap(boxes, k - 1)[boxes[k - 1] := k - 1]
  }

  /** Position p holds b and no later position below k does. */
  ghost predicate LastAt(boxes: seq<Box>, k: nat, b: Box, p: int)
    requires k <= |boxes|
  {
    0 <= p < k && boxes[p] == b && forall j :: p < j < k ==> boxes[j] != b
  }

  /** The index map holds every box of the list, at the last position holding an equal box. */
  lemma {:induction false} IndexMapMeans(boxes: seq<Box>, k: nat)
    requires k <= |boxes|
    ensures forall b :: b in IndexMap(boxes, k) <==> b in boxes[..k]
    ensures forall b :: b in IndexMap(boxes, k) ==> LastAt(boxes, k, b, IndexMap(boxes, k)[b])
    decreases k
  {
    if k > 0 {
      IndexMapMeans(boxes, k - 1);
      assert boxes[..k] == boxes[..k - 1] + [boxes[k - 1]];
    }
  }

  /** `boxToIndex.getValue(box)` for a box of the list. */
  function IndexOf(boxes: seq<Box>, i: nat): (r: int)
    requires i < |boxes|
  {
    IndexMapMeans(boxes, |boxes|);
    assert boxes[i] in boxes[..|boxes|];
    IndexMap(boxes, |boxes|)[boxes[i]]
  }

  /** The index of a box is its position when no other position holds an equal box. */
  lemma IndexOfDistinct(boxes: seq<Box>, i: nat)
    requires i < |boxes| && forall j :: 0 <= j < |boxes| && j != i ==> boxes[j] != boxes[i]
    ensures IndexOf(boxes, i) == i
  {
    IndexMapMeans(boxes, |boxes|);
  }

  /** The direction test: up (state's upper end is the facet) wants a positive, down a negative derivative. */
  predicate Enabled(a: Box, facet: Box, td: nat, derivative: Interval)
    requires td < |a| && td < |facet|
  {
    if facet[td].low == a[td].high then derivative.high > 0.0 else derivative.low < 0.0
  }

  /** The rest of the `neighbour` loop once the touching dimension td is known: the facet, the equation, the direction. */
  function FacetEdge(model: Model, boxes: seq<Box>, dims: nat, i: nat, j: nat, td: nat): Result<Option<Edge>>
    requires i < |boxes| && j < |boxes| && td < dims <= |boxes[i]| && dims <= |boxes[j]|
  {
    var vars := Facet(boxes[i], boxes[j], dims);
    if vars[td].low != vars[td].high then Err(IllegalState("WTF?"))
    else if td >= |model.equations| then Err(IndexOutOfBounds)
    else match REvalInterval(model.equations[td], model.paramBounds + vars)
      case Err(e) => Err(e)
      case Ok(derivative) =>
        if Enabled(boxes[i], vars, td, derivative) then Ok(Some((IndexOf(boxes, i), IndexOf(boxes, j)))) else Ok(None)
  }

  /** The body of the `neighbour` loop for the pair (i, j): the transition it adds, if any. */
  function PairEdge(model: Model, boxes: seq<Box>, dims: nat, i: nat, j: nat): Result<Option<Edge>>
    requires i < |boxes| && j < |boxes|
  {
    if i == j then Ok(None)
    else match TouchScan(boxes[i], boxes[j], dims, 0, -1)
      case Err(e) => Err(e)
      case Ok(scan) =>
        match scan
        case None => Ok(None)
        case Some(td) =>
          TouchScanBounds(boxes[i], boxes[j], dims, 0, -1, td);
          if td < 0 then Err(IndexOutOfBounds) else FacetEdge(model, boxes, dims, i, j, td)
  }

  /** The pair (i, j) adds the transition e. */
  ghost predicate Adds(model: Model, boxes: seq<Box>, dims: nat, i: nat, j: nat, e: Edge)
    requires i < |boxes| && j < |boxes|
  {
    PairEdge(model, boxes, dims, i, j) == Ok(Some(e))
  }

  /** Boxes that share exactly the facet of dimension td: they intersect everywhere and touch only in td. */
  ghost predicate Adjacent(a: Box, b: Box, dims: nat, td: int)
    requires dims <= |a| && dims <= |b|
  {
    td >= 0 && Scanned(a, b, dims, td)
  }

  /** Adjacent boxes meet in a single point of dimension td, so the facet check never fails. */
  lemma FacetIsPoint(a: Box, b: Box, dims: nat, td: nat)
    requires dims <= |a| && dims <= |b| && Adjacent(a, b, dims, td)
    ensures Intersect(a[td], b[td]).Some? && Facet(a, b, dims)[td].low == Facet(a, b, dims)[td].high
    ensures Facet(a, b, dims)[td].low == a[td].high || Facet(a, b, dims)[td].low == a[td].low
  {
    assert Intersects(a[td], b[td]) && Touches(a, b, td);
  }

  /** The boxes at i and j are adjacent in td, whose equation evaluates over the facet and allows the direction. */
  ghost predicate Flows(model: Model, boxes: seq<Box>, dims: nat, i: nat, j: nat, td: int)
    requires i < |boxes| && j < |boxes| && dims <= |boxes[i]| && dims <= |boxes[j]|
  {
    var facet := Facet(boxes[i], boxes[j], dims);
    0 <= td < |model.equations| && Adjacent(boxes[i], boxes[j], dims, td) &&
    REvalInterval(model.equations[td], model.paramBounds + facet).Ok? &&
    Enabled(boxes[i], facet, td, REvalInterval(model.equations[td], model.paramBounds + facet).value)
  }

  /**
   * The rule for one pair of a list whose boxes have at least `dims`
   * dimensions: a transition comes only from two different positions
   * whose boxes are adjacent in some td with an equation, and it is added
   * exactly when that equation's derivative over the facet allows the
   * direction; it joins the positions' indices.
   */
  lemma PairEdgeMeans(model: Model, boxes: seq<Box>, dims: nat, i: nat, j: nat, e: Edge)
    requires i < |boxes| && j < |boxes| && dims <= |boxes[i]| && dims <= |boxes[j]|
    ensures Adds(model, boxes, dims, i, j, e) <==>
      i != j && e == (IndexOf(boxes, i), IndexOf(boxes, j)) && exists td :: Flows(model, boxes, dims, i, j, td)
  {
    if i != j {
      var a := boxes[i];
      var b := boxes[j];
      TouchScanMeans(a, b, dims);
      var scan := TouchScan(a, b, dims, 0, -1).value;
      assert forall t :: Flows(model, boxes, dims, i, j, t) ==> TouchScan(a, b, dims, 0, -1) == Ok(Some(t)) && t >= 0;
      if scan.Some? && scan.value >= 0 {
        var td := scan.value;
        assert PairEdge(model, boxes, dims, i, j) == FacetEdge(model, boxes, dims, i, j, td);
        FacetEdgeMeans(model, boxes, dims, i, j, td, e);
      }
    }
  }

  /** Past the scan, the pair of adjacent boxes adds the transition exactly when the equation allows the direction. */
  lemma FacetEdgeMeans(model: Model, boxes: seq<Box>, dims: nat, i: nat, j: nat, td: nat, e: Edge)
    requires i < |boxes| && j < |boxes| && td < dims <= |boxes[i]| && dims <= |boxes[j]|
    requires Adjacent(boxes[i], boxes[j], dims, td)
    ensures FacetEdge(model, boxes, dims, i, j, td) == Ok(Some(e)) <==>
      e == (IndexOf(boxes, i), IndexOf(boxes, j)) && Flows(model, boxes, dims, i, j, td)
  {
    FacetIsPoint(boxes[i], boxes[j], dims, td);
  }

  /** A transition joins the indices of two different positions. */
  lemma AddsIndices(model: Model, boxes: seq<Box>, dims: nat, i: nat, j: nat, e: Edge)
    requires i < |boxes| && j < |boxes| && Adds(model, boxes, dims, i, j, e)
    ensures i != j && e == (IndexOf(boxes, i), IndexOf(boxes, j))
  {
  }

  /** Two boxes that intersect everywhere but touch nowhere reach `vars[-1]`: the pair fails. */
  lemma NoTouchFails(model: Model, boxes: seq<Box>, dims: nat, i: nat, j: nat)
    requires i < |boxes| && j < |boxes| && i != j && dims <= |boxes[i]| && dims <= |boxes[j]|
    requires Scanned(boxes[i], boxes[j], dims, -1)
    ensures PairEdge(model, boxes, dims, i, j) == Err(IndexOutOfBounds)
  {
    TouchScanMeans(boxes[i], boxes[j], dims);
  }

  /**
   * A pair that is adjacent in td but gets no upward transition: at every
   * point of the facet, for every parameter of the box, the equation's
   * value is at most zero (the flow cannot leave upwards); likewise
   * downwards.
   */
  lemma NoEdgeNoFlow(model: Model, boxes: seq<Box>, dims: nat, i: nat, j: nat, td: nat, pt: seq<real>)
    requires i < |boxes| && j < |boxes| && i != j && dims <= |boxes[i]| && dims <= |boxes[j]|
    requires td < |model.equations| && Adjacent(boxes[i], boxes[j], dims, td)
    requires PairEdge(model, boxes, dims, i, j) == Ok(None)
    requires InBox(model.paramBounds + Facet(boxes[i], boxes[j], dims), pt)
    ensures MEval(model.equations[td].denominator, pt) != 0.0
    ensures var q := MEval(model.equations[td].numerator, pt) / MEval(model.equations[td].denominator, pt);
      if Facet(boxes[i], boxes[j], dims)[td].low == boxes[i][td].high then q <= 0.0 else q >= 0.0
  {
    var a := boxes[i];
    var b := boxes[j];
    TouchScanMeans(a, b, dims);
    FacetIsPoint(a, b, dims, td);
    assert TouchScan(a, b, dims, 0, -1) == Ok(Some(td));
    REvalEncloses(model.equations[td], model.paramBounds + Facet(a, b, dims), pt);
  }

  /** The rule for every pair of positions of the list, with the first box's dimension count. */
  function PairRule(model: Model, boxes: seq<Box>): (nat, nat) -> Result<Option<Edge>> {
    (i: nat, j: nat) => if i < |boxes| && j < |boxes| then PairEdge(model, boxes, |boxes[0]|, i, j) else Ok(None)
  }

  /** The transitions of state i against the others j < k, in order. */
  function EdgeRow(pair: (nat, nat) -> Result<Option<Edge>>, i: nat, k: nat): Result<seq<Edge>>
    decreases k
  {
    if k == 0 then Ok([])
    else match EdgeRow(pair, i, k - 1)
      case Err(e) => Err(e)
      case Ok(es) =>
        match pair(i, k - 1)
        case Err(e) => Err(e)
        case Ok(edge) => Ok(if edge.Some? then es + [edge.value] else es)
  }

  /** The transitions of states i < k against all n states, state by state. */
  function EdgeRows(pair: (nat, nat) -> Result<Option<Edge>>, n: nat, k: nat): Result<seq<Edge>>
    decreases k
  {
    if k == 0 then Ok([])
    else match EdgeRows(pair, n, k - 1)
      case Err(e) => Err(e)
      case Ok(es) =>
        match EdgeRow(pair, k - 1, n)
        case Err(e) => Err(e)
        case Ok(row) => Ok(es + row)
  }

  /** `makeTransitions`: the dimension count comes from the first box, which an empty list lacks. */
  function Transitions(model: Model, boxes: seq<Box>): Result<RectTransitionSystem> {
    if |boxes| == 0 then Err(NoSuchElement)
    else match EdgeRows(PairRule(model, boxes), |boxes|, |boxes|)
      case Err(e) => Err(e)
      case Ok(es) => Ok(RectTransitionSystem(boxes, es))
  }

  /** The pair (i, j) gives the transition e. */
  ghost predicate Gives(pair: (nat, nat) -> Result<Option<Edge>>, i: nat, j: nat, e: Edge) {
    pair(i, j) == Ok(Some(e))
  }

  /** A row holds exactly the transitions its pairs give, and succeeds exactly when every pair does. */
  lemma {:induction false} EdgeRowMeans(pair: (nat, nat) -> Result<Option<Edge>>, i: nat, k: nat)
    ensures EdgeRow(pair, i, k).Ok? <==> forall j :: 0 <= j < k ==> pair(i, j).Ok?
    ensures EdgeRow(pair, i, k).Ok? ==> forall e :: e in EdgeRow(pair, i, k).value <==> exists j :: 0 <= j < k && Gives(pair, i, j, e)
    decreases k
  {
    if k > 0 {
      EdgeRowMeans(pair, i, k - 1);
      if EdgeRow(pair, i, k).Ok? {
        var es := EdgeRow(pair, i, k - 1).value;
        var edge := pair(i, k - 1).value;
        forall e | e in EdgeRow(pair, i, k).value
          ensures exists j :: 0 <= j < k && Gives(pair, i, j, e)
        {
          if e in es {
            var j :| 0 <= j < k - 1 && Gives(pair, i, j, e);
            assert 0 <= j < k && Gives(pair, i, j, e);
          } else {
            assert Gives(pair, i, k - 1, e);
          }
        }
        forall e, j | 0 <= j < k && Gives(pair, i, j, e)
          ensures e in EdgeRow(pair, i, k).value
        {
          if j < k - 1 {
            assert e in es;
          } else {
            assert edge == Some(e);
          }
        }
      }
    }
  }

  /** The rows hold exactly the transitions of the pairs, and succeed exactly when every pair does. */
  lemma {:induction false} EdgeRowsMeans(pair: (nat, nat) -> Result<Option<Edge>>, n: nat, k: nat)
    ensures EdgeRows(pair, n, k).Ok? <==> forall i, j :: 0 <= i < k && 0 <= j < n ==> pair(i, j).Ok?
    ensures EdgeRows(pair, n, k).Ok? ==> forall e :: e in EdgeRows(pair, n, k).value <==>
      exists i, j :: 0 <= i < k && 0 <= j < n && Gives(pair, i, j, e)
    decreases k
  {
    if k > 0 {
      EdgeRowsMeans(pair, n, k - 1);
      EdgeRowMeans(pair, k - 1, n);
    }
  }

  /** The rule applied to two positions of the list is the pair rule. */
  lemma PairRuleApplies(model: Model, boxes: seq<Box>, i: nat, j: nat)
    requires i < |boxes| && j < |boxes|
    ensures PairRule(model, boxes)(i, j) == PairEdge(model, boxes, |boxes[0]|, i, j)
  {
  }

  /**
   * `makeTransitions` keeps the list as the states; it fails on an empty
   * list or when some pair fails; otherwise its transitions are exactly
   * those the pair rule gives for some two positions of the list.
   */
  lemma TransitionsMeans(model: Model, boxes: seq<Box>)
    ensures Transitions(model, boxes).Ok? <==>
      |boxes| > 0 && forall i, j :: 0 <= i < |boxes| && 0 <= j < |boxes| ==> PairRule(model, boxes)(i, j).Ok?
    ensures Transitions(model, boxes).Ok? ==>
      Transitions(model, boxes).value.states == boxes &&
      forall e :: e in Transitions(model, boxes).value.transitions <==>
        exists i, j :: 0 <= i < |boxes| && 0 <= j < |boxes| && Gives(PairRule(model, boxes), i, j, e)
  {
    if |boxes| > 0 {
      EdgeRowsMeans(PairRule(model, boxes), |boxes|, |boxes|);
    }
  }

  /**
   * Over boxes with at least the first box's dimensions: a successful
   * `makeTransitions` holds the transition e exactly when two different
   * positions, joined by e's indices, hold boxes adjacent in some
   * dimension whose equation allows the flow across their facet.
   */
  lemma TransitionsExact(model: Model, boxes: seq<Box>, e: Edge)
    requires Transitions(model, boxes).Ok? && forall i :: 0 <= i < |boxes| ==> |boxes[0]| <= |boxes[i]|
    ensures e in Transitions(model, boxes).value.transitions <==>
      exists i, j :: 0 <= i < |boxes| && 0 <= j < |boxes| && i != j && e == (IndexOf(boxes, i), IndexOf(boxes, j)) &&
        exists td :: Flows(model, boxes, |boxes[0]|, i, j, td)
  {
    TransitionsMeans(model, boxes);
    forall i, j | 0 <= i < |boxes| && 0 <= j < |boxes|
      ensures Gives(PairRule(model, boxes), i, j, e) <==>
        i != j && e == (IndexOf(boxes, i), IndexOf(boxes, j)) && exists td :: Flows(model, boxes, |boxes[0]|, i, j, td)
    {
      PairRuleApplies(model, boxes, i, j);
      PairEdgeMeans(model, boxes, |boxes[0]|, i, j, e);
    }
  }

  /** Over a list without repeated boxes, every transition joins two different positions, by position. */
  lemma NoSelfTransition(model: Model, boxes: seq<Box>, e: Edge)
    requires forall i, j :: 0 <= i < j < |boxes| ==> boxes[i] != boxes[j]
    requires Transitions(model, boxes).Ok? && e in Transitions(model, boxes).value.transitions
    ensures e.0 != e.1 && 0 <= e.0 < |boxes| && 0 <= e.1 < |boxes|
  {
    TransitionsMeans(model, boxes);
    var i, j :| 0 <= i < |boxes| && 0 <= j < |boxes| && Gives(PairRule(model, boxes), i, j, e);
    PairRuleApplies(model, boxes, i, j);
    AddsIndices(model, boxes, |boxes[0]|, i, j, e);
    IndexOfDistinct(boxes, i);
    IndexOfDistinct(boxes, j);
  }

  /** A failure in a row is the row's result. */
  lemma {:induction false} EdgeRowErrorStays(pair: (nat, nat) -> Result<Option<Edge>>, i: nat, k: nat, n: nat)
    requires k <= n && EdgeRow(pair, i, k).Err?
    ensures EdgeRow(pair, i, n) == EdgeRow(pair, i, k)
    decreases n - k
  {
    if k < n {
      EdgeRowErrorStays(pair, i, k, n - 1);
    }
  }

  /** A failure in the rows is the rows' result. */
  lemma {:induction false} EdgeRowsErrorStays(pair: (nat, nat) -> Result<Option<Edge>>, n: nat, k: nat, m: nat)
    requires k <= m && EdgeRows(pair, n, k).Err?
    ensures EdgeRows(pair, n, m) == EdgeRows(pair, n, k)
    decreases m - k
  {
    if k < m {
      EdgeRowsErrorStays(pair, n, k, m - 1);
    }
  }

  /** The dimension loop of one pair, with `transitionDimension` and the early `continue@neighbour`. */
  method ScanDimensions(a: Box, b: Box, dims: nat) returns (r: Result<Option<int>>)
    ensures r == TouchScan(a, b, dims, 0, -1)
  {
    var transitionDimension := -1;
    for d := 0 to dims
      invariant -1 <= transitionDimension < d
      invariant TouchScan(a, b, dims, 0, -1) == TouchScan(a, b, dims, d, transitionDimension)
    {
      if d >= |a| || d >= |b| {
        return Err(IndexOutOfBounds);
      }
      if !Intersects(a[d], b[d]) {
        return Ok(None);
      }
      if a[d].low == b[d].high || a[d].high == b[d].low {
        if transitionDimension > -1 {
          return Ok(None);
        }
        transitionDimension := d;
      }
    }
    return Ok(Some(transitionDimension));
  }

  /** The body of the `neighbour` loop: the transition from state i to other j, if any. */
  method PairTransition(model: Model, boxes: seq<Box>, dims: nat, i: nat, j: nat) returns (r: Result<Option<Edge>>)
    requires i < |boxes| && j < |boxes|
    ensures r == PairEdge(model, boxes, dims, i, j)
  {
    if i == j {
      return Ok(None);
    }
    var state := boxes[i];
    var other := boxes[j];
    var scan := ScanDimensions(state, other, dims);
    if scan.Err? {
      return Err(scan.error);
    }
    if scan.value.None? {
      return Ok(None);
    }
    var transitionDimension := scan.value.value;
    TouchScanBounds(state, other, dims, 0, -1, transitionDimension);
    if transitionDimension < 0 {
      return Err(IndexOutOfBounds);
    }
    var vars := Facet(state, other, dims);
    if vars[transitionDimension].low != vars[transitionDimension].high {
      return Err(IllegalState("WTF?"));
    }
    if transitionDimension >= |model.equations| {
      return Err(IndexOutOfBounds);
    }
    var possibleDerivatives := EvaluateRationalWith(model.equations[transitionDimension], vars, model.paramBounds);
    if possibleDerivatives.Err? {
      return Err(possibleDerivatives.error);
    }
    if vars[transitionDimension].low == state[transitionDimension].high {
      if possibleDerivatives.value.high > 0.0 {
        return Ok(Some((IndexOf(boxes, i), IndexOf(boxes, j))));
      }
    } else {
      if possibleDerivatives.value.low < 0.0 {
        return Ok(Some((IndexOf(boxes, i), IndexOf(boxes, j))));
      }
    }
    return Ok(None);
  }

  /** The `neighbour` loop for one state, appending to the transitions of the states before. */
  method StateTransitions(model: Model, boxes: seq<Box>, i: nat, before: seq<Edge>) returns (r: Result<seq<Edge>>)
    requires i < |boxes| && EdgeRows(PairRule(model, boxes), |boxes|, i) == Ok(before)
    ensures r == EdgeRows(PairRule(model, boxes), |boxes|, i + 1)
  {
    var row := RowTransitions(model, boxes, i);
    if row.Err? {
      return Err(row.error);
    }
    RowsStep(PairRule(model, boxes), |boxes|, i, before, row.value);
    return Ok(before + row.value);
  }

  /** The `neighbour` loop of state i: its transitions against every other, in list order. */
  method RowTransitions(model: Model, boxes: seq<Box>, i: nat) returns (r: Result<seq<Edge>>)
    requires i < |boxes|
    ensures r == EdgeRow(PairRule(model, boxes), i, |boxes|)
  {
    ghost var pair := PairRule(model, boxes);
    var row: seq<Edge> := [];
    for j := 0 to |boxes|
      invariant EdgeRow(pair, i, j) == Ok(row)
    {
      var edge := RuleTransition(model, boxes, i, j);
      RowStep(pair, i, j, row, edge);
      if edge.Err? {
        EdgeRowErrorStays(pair, i, j + 1, |boxes|);
        return Err(edge.error);
      }
      if edge.value.Some? {
        row := row + [edge.value.value];
      }
    }
    return Ok(row);
  }

  /** The pair rule's transition for two positions of the list. */
  method RuleTransition(model: Model, boxes: seq<Box>, i: nat, j: nat) returns (r: Result<Option<Edge>>)
    requires i < |boxes| && j < |boxes|
    ensures r == PairRule(model, boxes)(i, j)
  {
    r := PairTransition(model, boxes, |boxes[0]|, i, j);
    PairRuleApplies(model, boxes, i, j);
  }

  /** One more pair of a row. */
  lemma RowStep(pair: (nat, nat) -> Result<Option<Edge>>, i: nat, j: nat, row: seq<Edge>, edge: Result<Option<Edge>>)
    requires EdgeRow(pair, i, j) == Ok(row) && pair(i, j) == edge
    ensures EdgeRow(pair, i, j + 1) == if edge.Err? then Err(edge.error) else if edge.value.Some? then Ok(row + [edge.value.value]) else Ok(row)
  {
  }

  /** One more row of the rows. */
  lemma RowsStep(pair: (nat, nat) -> Result<Option<Edge>>, n: nat, i: nat, before: seq<Edge>, row: seq<Edge>)
    requires EdgeRows(pair, n, i) == Ok(before) && EdgeRow(pair, i, n) == Ok(row)
    ensures EdgeRows(pair, n, i + 1) == Ok(before + row)
  {
  }

  /** `makeTransitions`: every state against every other, in list order. */
  method MakeTransitions(model: Model, boxes: seq<Box>) returns (r: Result<RectTransitionSystem>)
    ensures r == Transitions(model, boxes)
  {
    if |boxes| == 0 {
      return Err(NoSuchElement);
    }
    ghost var pair := PairRule(model, boxes);
    var transitions: seq<Edge> := [];
    for i := 0 to |boxes|
      invariant EdgeRows(pair, |boxes|, i) == Ok(transitions)
    {
      var next := StateTransitions(model, boxes, i, transitions);
      if next.Err? {
        EdgeRowsErrorStays(pair, |boxes|, i + 1, |boxes|);
        return Err(next.error);
      }
      transitions := next.value;
    }
    return Ok(RectTransitionSystem(boxes, transitions));
  }
}
