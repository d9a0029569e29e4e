/**
 * The cell scans shared by `LevelGraph` and `CADPolynomials`
 * (params/LevelGraph.kt, params/CADPolynomials.kt): isolate the roots of one
 * level's polynomials, keep those inside the box, sort them, check that the
 * box bounds are among them, and then either find the cell of a point or
 * walk every cell depth first with a work stack, sampling each cell at the
 * middle of the gap between two consecutive roots.
 *
 * The computer-algebra steps (subresultants, factorisation, partial
 * evaluation, conversion to a univariate polynomial followed by root
 * isolation) are the functions of an `Algebra` value.
 */
module CellWalks {
  import opened Wrappers
  import opened Intervals
  import opened Boxes
  import opened MPolys
  import opened IntervalEval
  import opened Gathering

  /** The computer-algebra operations the decomposition code calls. */
  datatype Algebra = Algebra(
    /** subresultant sequence of p and its derivative in variable l */
    discriminantChain: (MPoly, nat) -> seq<MPoly>,
    /** subresultant sequence of p and q in variable l */
    resultantChain: (MPoly, MPoly, nat) -> seq<MPoly>,
    /** `normalize` of one polynomial: its factors, each divided by its leading coefficient */
    factors: MPoly -> seq<MPoly>,
    /** `p.evaluate(d, v)`: x_d replaced by v */
    substitute: (MPoly, nat, real) -> MPoly,
    /** the polynomials as univariate ones, isolated by the square-free Descartes isolator at a precision */
    isolate: (seq<MPoly>, real) -> seq<Interval>)

  // ---------------------------------------------------------------------
  // Projection filters
  // ---------------------------------------------------------------------

  /** `normalize` of a list: the factors of each polynomial, in order. */
  function Normalize(alg: Algebra, ps: seq<MPoly>): (r: seq<MPoly>)
    ensures forall q :: q in r <==> exists p :: p in ps && q in alg.factors(p)
    decreases |ps|
  {
    if |ps| == 0 then []
    else
      var rest := Normalize(alg, ps[..|ps| - 1]);
      assert forall p :: p in ps <==> p in ps[..|ps| - 1] || p == ps[|ps| - 1];
      rest + alg.factors(ps[|ps| - 1])
  }

  /**
   * `canHaveZero`: the interval value of p over the box contains zero;
   * evaluation fails if p uses a variable the box does not have.
   */
  function CanHaveZero(p: MPoly, box: Box): Result<bool> {
    match MEvalInterval(p, box)
    case Ok(i) => Ok(HasZero(i))
    case Err(e) => Err(e)
  }

  /** A polynomial the filter drops has no zero anywhere in the box. */
  lemma CanHaveZeroSound(p: MPoly, box: Box, pt: seq<real>)
    requires CanHaveZero(p, box) == Ok(false) && InBox(box, pt)
    ensures MEval(p, pt) != 0.0
  {
    MEvalEncloses(p, box, pt);
  }

  /** `filter { it.canHaveZero(bounds) }`: the first failing evaluation aborts the filter. */
  function KeepZeros(ps: seq<MPoly>, box: Box): (r: Result<seq<MPoly>>)
    ensures r.Err? <==> exists p :: p in ps && CanHaveZero(p, box).Err?
    ensures r.Ok? ==> forall q :: q in r.value <==> q in ps && CanHaveZero(q, box) == Ok(true)
    decreases |ps|
  {
    if |ps| == 0 then Ok([])
    else
      var rest := KeepZeros(ps[..|ps| - 1], box);
      var last := ps[|ps| - 1];
      assert forall p :: p in ps <==> p in ps[..|ps| - 1] || p == last;
      match CanHaveZero(last, box)
      case Err(e) => (if rest.Err? then rest else Err(e))
      case Ok(keep) =>
        if rest.Err? then rest
        else if keep then Ok(rest.value + [last]) else rest
  }

  // ---------------------------------------------------------------------
  // Roots of one level
  // ---------------------------------------------------------------------

  /** A root interval that reaches across one of the bounds of the box's interval. */
  predicate Straddles(root: Interval, bound: Interval) {
    (root.low < bound.low && root.high > bound.low) || (root.low < bound.high && root.high > bound.high)
  }

  predicate Within(root: Interval, bound: Interval) {
    root.low >= bound.low && root.high <= bound.high
  }

  /** The filter: a straddling root is an error ("Root crosses boundary"); roots outside are dropped. */
  function KeepWithin(roots: seq<Interval>, bound: Interval): (r: Result<seq<Interval>>)
    ensures r.Err? <==> exists i :: 0 <= i < |roots| && Straddles(roots[i], bound)
    ensures r.Err? ==> r.error == IllegalState("Root crosses boundary")
    ensures r.Ok? ==> forall x :: x in r.value <==> x in roots && Within(x, bound)
    decreases |roots|
  {
    if |roots| == 0 then Ok([])
    else
      var rest := KeepWithin(roots[..|roots| - 1], bound);
      var last := roots[|roots| - 1];
      assert forall x :: x in roots <==> x in roots[..|roots| - 1] || x == last;
      assert forall i :: 0 <= i < |roots| - 1 ==> roots[i] == roots[..|roots| - 1][i];
      if rest.Err? then rest
      else if Straddles(last, bound) then Err(IllegalState("Root crosses boundary"))
      else if Within(last, bound) then Ok(rest.value + [last])
      else rest
  }

  predicate SortedByLow(s: seq<Interval>) {
    forall i, j :: 0 <= i < j < |s| ==> s[i].low <= s[j].low
  }

  /** x placed after every element whose low does not exceed its own (so the sort is stable). */
  function InsertByLow(x: Interval, s: seq<Interval>): (r: seq<Interval>)
    ensures |r| == |s| + 1
    decreases |s|
  {
    if |s| == 0 then [x]
    else if s[|s| - 1].low <= x.low then s + [x]
    else InsertByLow(x, s[..|s| - 1]) + [s[|s| - 1]]
  }

  /** A sorted list stays sorted when an element no lower than all of it is added at the end. */
  lemma AppendSorted(front: seq<Interval>, x: Interval)
    requires SortedByLow(front) && forall i :: 0 <= i < |front| ==> front[i].low <= x.low
    ensures SortedByLow(front + [x])
  {
    var r := front + [x];
    forall i, j | 0 <= i < j < |r|
      ensures r[i].low <= r[j].low
    {
      if j < |front| {
        assert r[i] == front[i] && r[j] == front[j];
      } else {
        assert r[i] == front[i] && r[j] == x;
      }
    }
  }

  lemma {:induction false} InsertByLowSorted(x: Interval, s: seq<Interval>)
    requires SortedByLow(s)
    ensures SortedByLow(InsertByLow(x, s)) && multiset(InsertByLow(x, s)) == multiset(s) + multiset{x}
    decreases |s|
  {
    if |s| == 0 {
    } else if s[|s| - 1].low <= x.low {
      AppendSorted(s, x);
    } else {
      var init := s[..|s| - 1];
      var last := s[|s| - 1];
      assert s == init + [last];
      assert SortedByLow(init) by {
        forall i, j | 0 <= i < j < |init|
          ensures init[i].low <= init[j].low
        {
          assert init[i] == s[i] && init[j] == s[j];
        }
      }
      InsertByLowSorted(x, init);
      var front := InsertByLow(x, init);
      forall i | 0 <= i < |front|
        ensures front[i].low <= last.low
      {
        var y := front[i];
        assert y in multiset(init) + multiset{x};
        if y != x {
          assert y in init;
          var k :| 0 <= k < |init| && init[k] == y;
          assert s[k] == y;
        }
      }
      AppendSorted(front, last);
      assert InsertByLow(x, s) == front + [last];
    }
  }

  /** `sortedBy { it.low }`: a stable sort by lower bound. */
  function SortByLow(s: seq<Interval>): (r: seq<Interval>)
    ensures |r| == |s|
    decreases |s|
  {
    if |s| == 0 then [] else InsertByLow(s[|s| - 1], SortByLow(s[..|s| - 1]))
  }

  /** The sort returns its input, reordered by lower bound. */
  lemma {:induction false} SortByLowSorted(s: seq<Interval>)
    ensures SortedByLow(SortByLow(s)) && multiset(SortByLow(s)) == multiset(s)
    decreases |s|
  {
    if |s| > 0 {
      var init := s[..|s| - 1];
      assert s == init + [s[|s| - 1]];
      SortByLowSorted(init);
      InsertByLowSorted(s[|s| - 1], SortByLow(init));
    }
  }

  /**
   * The roots of one level inside the box's interval, sorted by lower
   * bound; `distinct` says whether the isolator's list first goes through
   * `toSet()`.
   */
  function LevelRoots(alg: Algebra, polys: seq<MPoly>, precision: real, bound: Interval, distinct: bool)
    : Result<seq<Interval>>
  {
    var found := alg.isolate(polys, precision);
    var listed := if distinct then Dedup(found) else found;
    match KeepWithin(listed, bound)
    case Err(e) => Err(e)
    case Ok(kept) => Ok(SortByLow(kept))
  }

  /** The level's roots are sorted, exactly the isolated roots within the bound, and fail on a straddling one. */
  lemma LevelRootsMeans(alg: Algebra, polys: seq<MPoly>, precision: real, bound: Interval, distinct: bool)
    ensures var r := LevelRoots(alg, polys, precision, bound, distinct);
      && (r.Ok? ==> SortedByLow(r.value))
      && (r.Ok? ==> forall x :: x in r.value <==> x in alg.isolate(polys, precision) && Within(x, bound))
      && (r.Err? <==> exists x :: x in alg.isolate(polys, precision) && Straddles(x, bound))
  {
    var found := alg.isolate(polys, precision);
    var listed := if distinct then Dedup(found) else found;
    assert forall x :: x in listed <==> x in found;
    match KeepWithin(listed, bound)
    case Err(e) =>
      assert exists i :: 0 <= i < |listed| && Straddles(listed[i], bound);
      var i :| 0 <= i < |listed| && Straddles(listed[i], bound);
      assert listed[i] in found;
    case Ok(kept) =>
      SortByLowSorted(kept);
      var sorted := SortByLow(kept);
      assert forall x :: x in sorted <==> x in multiset(sorted);
      assert forall x :: x in kept <==> x in multiset(kept);
      assert forall i :: 0 <= i < |listed| ==> !Straddles(listed[i], bound);
      assert forall x :: x in listed ==> !Straddles(x, bound);
  }

  /**
   * The two "bounds missing" sanity checks on the first and the last root.
   * `PointRoots`: a point root that is not the bound (LevelGraph.walkCells);
   * `ProperRoots`: a proper interval whose low is not the bound (the others).
   */
  datatype BoundCheck = PointRoots | ProperRoots

  predicate Mismatch(root: Interval, bound: real, check: BoundCheck) {
    match check
    case PointRoots => root.low == root.high && root.low != bound
    case ProperRoots => root.low != root.high && root.low != bound
  }

  /** `first()`/`last()` fail on no roots; then the first root is checked against low, the last against high. */
  function CheckEnds(roots: seq<Interval>, bound: Interval, check: BoundCheck): (r: Result<()>)
    ensures r.Ok? <==> |roots| > 0 && !Mismatch(roots[0], bound.low, check) && !Mismatch(roots[|roots| - 1], bound.high, check)
    ensures |roots| == 0 ==> r == Err(NoSuchElement)
  {
    if |roots| == 0 then Err(NoSuchElement)
    else if Mismatch(roots[0], bound.low, check) || Mismatch(roots[|roots| - 1], bound.high, check)
    then Err(IllegalState("bounds missing"))
    else Ok(())
  }

  // ---------------------------------------------------------------------
  // cellForPoint
  // ---------------------------------------------------------------------

  /** Cell c lies between roots c and c + 1, and v is in it. */
  predicate InCell(roots: seq<Interval>, c: int, v: real) {
    0 <= c && c + 1 < |roots| && roots[c].high <= v <= roots[c + 1].low
  }

  /**
   * The linear scan of `cellForPoint`: the first cell c (n roots bound
   * n − 1 cells) with roots[c].high <= v <= roots[c + 1].low, if any.
   */
  method FindCell(roots: seq<Interval>, v: real) returns (r: Option<nat>)
    ensures r.Some? ==> InCell(roots, r.value, v) && forall c :: 0 <= c < r.value ==> !InCell(roots, c, v)
    ensures r.None? ==> forall c :: !InCell(roots, c, v)
  {
    var cell := 0;
    while cell < |roots| - 1
      invariant 0 <= cell
      invariant forall c :: 0 <= c < cell ==> !InCell(roots, c, v)
    {
      if roots[cell].high <= v <= roots[cell + 1].low {
        return Some(cell);
      }
      cell := cell + 1;
    }
    return None;
  }

  /** How one decomposition scans: isolation precision, the box, toSet or not, which bound check. */
  datatype Scan = Scan(alg: Algebra, precision: real, box: Box, distinct: bool, check: BoundCheck)

  /** levelsCopy.forEach { it.replaceAll { p -> p.evaluate(d, v) } } */
  function SubstituteAll(alg: Algebra, levels: seq<seq<MPoly>>, d: nat, v: real): (r: seq<seq<MPoly>>)
    ensures |r| == |levels|
  {
    seq(|levels|, l requires 0 <= l < |levels| =>
      seq(|levels[l]|, i requires 0 <= i < |levels[l]| => alg.substitute(levels[l][i], d, v)))
  }

  /** The checks of one dimension of `cellForPoint`, in the order the source makes them. */
  function LocateIn(s: Scan, polys: seq<MPoly>, d: nat, point: seq<real>): (r: Result<Option<nat>>)
    requires d < |s.box|
  {
    match LevelRoots(s.alg, polys, s.precision, s.box[d], s.distinct)
    case Err(e) => Err(e)
    case Ok(roots) =>
      if d >= |point| then Err(IndexOutOfBounds)
      else match CheckEnds(roots, s.box[d], s.check)
        case Err(e) => Err(e)
        case Ok(_) =>
          if exists i :: 0 <= i < |roots| && Contains(roots[i], point[d])
          then Err(IllegalState("Point inside root interval"))
          else Ok(FirstCell(roots, point[d], 0))
  }

  /** The first cell from c on that holds v: the value `FindCell` computes. */
  function FirstCell(roots: seq<Interval>, v: real, c: nat): (r: Option<nat>)
    ensures r.Some? ==> c <= r.value && InCell(roots, r.value, v)
    ensures r.Some? ==> forall k :: c <= k < r.value ==> !InCell(roots, k, v)
    ensures r.None? ==> forall k :: c <= k ==> !InCell(roots, k, v)
    decreases |roots| - c
  {
    if c + 1 >= |roots| then None
    else if InCell(roots, c, v) then Some(c)
    else FirstCell(roots, v, c + 1)
  }

  /**
   * The loop of `cellForPoint` over the dimensions from 0 upward: for each
   * dimension its cell, or None when the scan found none; once a cell is
   * found all levels are evaluated at the point's coordinate.
   */
  method LocatePoint(s: Scan, levels: seq<seq<MPoly>>, point: seq<real>) returns (r: Result<seq<Option<nat>>>)
    ensures r == Located(s, levels, point, 0)
  {
    ghost var whole := Located(s, levels, point, 0);
    var found: seq<Option<nat>> := [];
    var current := levels;
    var d := 0;
    PrependNothing(whole);
    while d < |s.box|
      invariant d <= |s.box|
      invariant whole == Prepend(found, Located(s, current, point, d))
      decreases |s.box| - d
    {
      LocatedStep(s, current, point, d, found, whole);
      if d >= |current| {
        return Err(IndexOutOfBounds);
      }
      var cell := LocateIn(s, current[d], d, point);
      if cell.Err? {
        return Err(cell.error);
      }
      found := found + [cell.value];
      current := if cell.value.Some? then SubstituteAll(s.alg, current, d, point[d]) else current;
      d := d + 1;
    }
    assert found + [] == found;
    return Ok(found);
  }

  /** The cells of the dimensions from d on, the levels evaluated at the coordinates before d. */
  function Located(s: Scan, levels: seq<seq<MPoly>>, point: seq<real>, d: nat): (r: Result<seq<Option<nat>>>)
    ensures r.Ok? ==> |r.value| == |s.box| - d || d > |s.box|
    decreases |s.box| - d
  {
    if d >= |s.box| then Ok([])
    else if d >= |levels| then Err(IndexOutOfBounds)
    else match LocateIn(s, levels[d], d, point)
      case Err(e) => Err(e)
      case Ok(cell) =>
        var next := if cell.Some? then SubstituteAll(s.alg, levels, d, point[d]) else levels;
        match Located(s, next, point, d + 1)
        case Err(e) => Err(e)
        case Ok(rest) => Ok([cell] + rest)
  }

  function Prepend(found: seq<Option<nat>>, r: Result<seq<Option<nat>>>): Result<seq<Option<nat>>> {
    match r
    case Err(e) => Err(e)
    case Ok(rest) => Ok(found + rest)
  }

  lemma PrependNothing(r: Result<seq<Option<nat>>>)
    ensures Prepend([], r) == r
  {
    if r.Ok? {
      assert [] + r.value == r.value;
    }
  }

  /** One round of `LocatePoint`: it fails where `Located` fails, or moves one dimension on. */
  lemma LocatedStep(s: Scan, current: seq<seq<MPoly>>, point: seq<real>, d: nat, found: seq<Option<nat>>,
                    whole: Result<seq<Option<nat>>>)
    requires d < |s.box|
    requires whole == Prepend(found, Located(s, current, point, d))
    ensures d >= |current| ==> whole == Err(IndexOutOfBounds)
    ensures d < |current| && LocateIn(s, current[d], d, point).Err? ==>
      whole == Err(LocateIn(s, current[d], d, point).error)
    ensures d < |current| && LocateIn(s, current[d], d, point).Ok? ==>
      var cell := LocateIn(s, current[d], d, point).value;
      var next := if cell.Some? then SubstituteAll(s.alg, current, d, point[d]) else current;
      whole == Prepend(found + [cell], Located(s, next, point, d + 1))
  {
    if d < |current| && LocateIn(s, current[d], d, point).Ok? {
      var cell := LocateIn(s, current[d], d, point).value;
      var next := if cell.Some? then SubstituteAll(s.alg, current, d, point[d]) else current;
      match Located(s, next, point, d + 1)
      case Err(e) =>
      case Ok(rest) =>
        assert found + ([cell] + rest) == (found + [cell]) + rest;
    }
  }

  /** The cell one dimension of `cellForPoint` reports holds the point's coordinate, and no earlier cell does. */
  lemma LocateInMeans(s: Scan, polys: seq<MPoly>, d: nat, point: seq<real>)
    requires d < |s.box| && LocateIn(s, polys, d, point).Ok?
    ensures var roots := LevelRoots(s.alg, polys, s.precision, s.box[d], s.distinct).value;
      && d < |point|
      && (forall i :: 0 <= i < |roots| ==> !Contains(roots[i], point[d]))
      && (LocateIn(s, polys, d, point).value.Some? ==>
            var c := LocateIn(s, polys, d, point).value.value;
            InCell(roots, c, point[d]) && forall k :: 0 <= k < c ==> !InCell(roots, k, point[d]))
      && (LocateIn(s, polys, d, point).value.None? ==> forall c :: !InCell(roots, c, point[d]))
  {
  }

  /** Each failure of one dimension of `cellForPoint`, and only these. */
  lemma LocateInFails(s: Scan, polys: seq<MPoly>, d: nat, point: seq<real>)
    requires d < |s.box|
    ensures var rootsIn := LevelRoots(s.alg, polys, s.precision, s.box[d], s.distinct);
      LocateIn(s, polys, d, point).Err? <==>
        || rootsIn.Err?
        || d >= |point|
        || CheckEnds(rootsIn.value, s.box[d], s.check).Err?
        || exists i :: 0 <= i < |rootsIn.value| && Contains(rootsIn.value[i], point[d])
  {
  }

  // ---------------------------------------------------------------------
  // walkCells
  // ---------------------------------------------------------------------

  /** The sample of the cell between two roots: the middle of the gap between them. */
  function GapMiddle(lower: Interval, upper: Interval): real {
    lower.high + (upper.low - lower.high) / 2.0
  }

  /** The sample lies in the gap, strictly inside it when the gap is not empty. */
  lemma GapMiddleBetween(lower: Interval, upper: Interval)
    requires lower.high <= upper.low
    ensures lower.high <= GapMiddle(lower, upper) <= upper.low
    ensures lower.high < upper.low ==> lower.high < GapMiddle(lower, upper) < upper.low
  {
  }

  /** A work stack entry: the levels still to process, the cell coordinates and the sample point so far. */
  datatype Entry = Entry(levels: seq<seq<MPoly>>, coordinates: seq<nat>, sample: seq<real>)

  /** What the walk yields: a sample point and the coordinates of its cell. */
  type Visit = (seq<real>, seq<nat>)

  /**
   * Which dimension an entry works on: the one after the last processed
   * (`LevelGraph`, first variable first) or dims − |coordinates| − 1
   * (`CADPolynomials`, last variable first).
   */
  datatype Direction = FirstVariableFirst | LastVariableFirst

  function EntryDimension(s: Scan, dir: Direction, e: Entry): int {
    match dir
    case FirstVariableFirst => |s.box| - |e.levels|
    case LastVariableFirst => |s.box| - |e.coordinates| - 1
  }

  /** The entries for the cells between consecutive roots, in the order they are pushed. */
  function Children(s: Scan, e: Entry, d: nat, roots: seq<Interval>): (r: seq<Entry>)
    requires |e.levels| > 0 && |roots| >= 1
    ensures |r| == |roots| - 1
    ensures forall c :: 0 <= c < |r| ==> |r[c].levels| == |e.levels| - 1
    ensures forall c :: 0 <= c < |r| ==>
      var mid := GapMiddle(roots[c], roots[c + 1]);
      r[c] == Entry(SubstituteAll(s.alg, e.levels[1..], d, mid), e.coordinates + [c], e.sample + [mid])
  {
    seq(|roots| - 1, c requires 0 <= c < |roots| - 1 =>
      var mid := GapMiddle(roots[c], roots[c + 1]);
      Entry(SubstituteAll(s.alg, e.levels[1..], d, mid), e.coordinates + [c], e.sample + [mid]))
  }

  /** Processing a popped entry that still has levels: the entries it pushes, or the error it raises. */
  function Expand(s: Scan, dir: Direction, e: Entry): (r: Result<seq<Entry>>)
    requires |e.levels| > 0
    ensures r.Ok? ==> forall c :: 0 <= c < |r.value| ==> |r.value[c].levels| == |e.levels| - 1
  {
    var d := EntryDimension(s, dir, e);
    if d < 0 || d >= |s.box| then Err(IndexOutOfBounds)
    else match LevelRoots(s.alg, e.levels[0], s.precision, s.box[d], s.distinct)
      case Err(err) => Err(err)
      case Ok(roots) =>
        match CheckEnds(roots, s.box[d], s.check)
        case Err(err) => Err(err)
        case Ok(_) => Ok(Children(s, e, d, roots))
  }

  /** One more than the most levels any entry has. */
  function Depth(es: seq<Entry>): (r: nat)
    ensures forall i :: 0 <= i < |es| ==> |es[i].levels| < r
    ensures |es| == 0 ==> r == 0
    decreases |es|
  {
    if |es| == 0 then 0
    else
      var rest := Depth(es[..|es| - 1]);
      var last := |es[|es| - 1].levels| + 1;
      assert forall i :: 0 <= i < |es| - 1 ==> es[i] == es[..|es| - 1][i];
      if rest < last then last else rest
  }

  lemma DepthOfChildren(es: seq<Entry>, k: nat)
    requires forall i :: 0 <= i < |es| ==> |es[i].levels| == k
    ensures Depth(es) <= k + 1
    decreases |es|
  {
    if |es| > 0 {
      DepthOfChildren(es[..|es| - 1], k);
    }
  }

  lemma DepthOfPrefix(es: seq<Entry>)
    requires |es| > 0
    ensures Depth(es[..|es| - 1]) <= Depth(es)
  {
  }

  /** What the walk yields from one entry on, depth first. */
  function Walk(s: Scan, dir: Direction, e: Entry): Result<seq<Visit>>
    decreases |e.levels| + 1, 0, 0
  {
    if |e.levels| == 0 then Ok([(e.sample, e.coordinates)])
    else match Expand(s, dir, e)
      case Err(err) => Err(err)
      case Ok(children) =>
        DepthOfChildren(children, |e.levels| - 1);
        Pending(s, dir, children)
  }

  /**
   * What a stack yields: the top (last) entry's walk first, then the rest
   * of the stack's: the order of `removeAt(lastIndex)`.
   */
  function Pending(s: Scan, dir: Direction, stack: seq<Entry>): Result<seq<Visit>>
    decreases Depth(stack), 1, |stack|
  {
    if |stack| == 0 then Ok([])
    else
      DepthOfPrefix(stack);
      Append(Walk(s, dir, stack[|stack| - 1]), Pending(s, dir, stack[..|stack| - 1]))
  }

  /** The number of entries the walk from e pops, e included; 0 is never needed but keeps the function total. */
  function Pops(s: Scan, dir: Direction, e: Entry): nat
    decreases |e.levels| + 1, 0, 0
  {
    if |e.levels| == 0 then 1
    else match Expand(s, dir, e)
      case Err(_) => 1
      case Ok(children) =>
        DepthOfChildren(children, |e.levels| - 1);
        1 + StackPops(s, dir, children)
  }

  function StackPops(s: Scan, dir: Direction, stack: seq<Entry>): nat
    decreases Depth(stack), 1, |stack|
  {
    if |stack| == 0 then 0
    else
      DepthOfPrefix(stack);
      Pops(s, dir, stack[|stack| - 1]) + StackPops(s, dir, stack[..|stack| - 1])
  }

  lemma AppendAssociates<T>(a: Result<seq<T>>, b: Result<seq<T>>, c: Result<seq<T>>)
    ensures Append(Append(a, b), c) == Append(a, Append(b, c))
  {
    if a.Ok? && b.Ok? && c.Ok? {
      assert (a.value + b.value) + c.value == a.value + (b.value + c.value);
    }
  }

  lemma AppendNothing<T>(r: Result<seq<T>>)
    ensures Append(Ok([]), r) == r
  {
    if r.Ok? {
      assert [] + r.value == r.value;
    }
  }

  /** Pushing entries on a stack: they are walked first, last pushed first. */
  lemma {:induction false} PendingPush(s: Scan, dir: Direction, rest: seq<Entry>, pushed: seq<Entry>)
    ensures Pending(s, dir, rest + pushed) == Append(Pending(s, dir, pushed), Pending(s, dir, rest))
    decreases |pushed|
  {
    if |pushed| == 0 {
      assert rest + pushed == rest;
      AppendNothing(Pending(s, dir, rest));
    } else {
      var all := rest + pushed;
      var init := pushed[..|pushed| - 1];
      var top := pushed[|pushed| - 1];
      assert all[..|all| - 1] == rest + init;
      assert all[|all| - 1] == top;
      PendingPush(s, dir, rest, init);
      AppendAssociates(Walk(s, dir, top), Pending(s, dir, init), Pending(s, dir, rest));
    }
  }

  /** Pushing entries adds the pops of their walks. */
  lemma {:induction false} StackPopsPush(s: Scan, dir: Direction, rest: seq<Entry>, pushed: seq<Entry>)
    ensures StackPops(s, dir, rest + pushed) == StackPops(s, dir, pushed) + StackPops(s, dir, rest)
    decreases |pushed|
  {
    if |pushed| == 0 {
      assert rest + pushed == rest;
    } else {
      var all := rest + pushed;
      var init := pushed[..|pushed| - 1];
      assert all[..|all| - 1] == rest + init;
      assert all[|all| - 1] == pushed[|pushed| - 1];
      StackPopsPush(s, dir, rest, init);
    }
  }

  /** The entry on top of a stack is walked before the rest. */
  lemma PendingPop(s: Scan, dir: Direction, stack: seq<Entry>)
    requires |stack| > 0
    ensures Pending(s, dir, stack) == Append(Walk(s, dir, stack[|stack| - 1]), Pending(s, dir, stack[..|stack| - 1]))
    ensures StackPops(s, dir, stack) == Pops(s, dir, stack[|stack| - 1]) + StackPops(s, dir, stack[..|stack| - 1])
  {
  }

  lemma PendingSingle(s: Scan, dir: Direction, e: Entry)
    ensures Pending(s, dir, [e]) == Walk(s, dir, e)
  {
    assert [e][..0] == [];
    var w := Walk(s, dir, e);
    if w.Ok? {
      assert w.value + [] == w.value;
    }
  }

  /**
   * `walkCells`: the work stack loop. Popping the last entry either yields
   * its sample (no levels left) or pushes one entry per cell of the next
   * dimension; the visits come out in exactly the depth-first order of `Walk`.
   */
  method WalkCells(s: Scan, dir: Direction, start: Entry) returns (r: Result<seq<Visit>>)
    ensures r == Walk(s, dir, start)
  {
    var stack := [start];
    var visits: seq<Visit> := [];
    PendingSingle(s, dir, start);
    AppendNothing(Walk(s, dir, start));
    while |stack| > 0
      invariant Walk(s, dir, start) == Append(Ok(visits), Pending(s, dir, stack))
      decreases StackPops(s, dir, stack)
    {
      var e := stack[|stack| - 1];
      var rest := stack[..|stack| - 1];
      PendingPop(s, dir, stack);
      if |e.levels| == 0 {
        AppendAssociates(Ok(visits), Ok([(e.sample, e.coordinates)]), Pending(s, dir, rest));
        visits := visits + [(e.sample, e.coordinates)];
        stack := rest;
      } else {
        var children := Expand(s, dir, e);
        if children.Err? {
          return Err(children.error);
        }
        PendingPush(s, dir, rest, children.value);
        StackPopsPush(s, dir, rest, children.value);
        stack := rest + children.value;
      }
    }
    assert Pending(s, dir, stack) == Ok([]);
    assert visits + [] == visits;
    return Ok(visits);
  }
}
