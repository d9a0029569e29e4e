/**
 * The semi-algebraic tree solver (params/SemiAlgTreeSolver.kt): a set of the
 * bounding box is a tree of cylinders. A cylinder over a point of the lower
 * dimensions holds the sorted roots, in the next dimension, of the
 * polynomials of its level, and one cell per gap between consecutive roots
 * (the box bounds close the first and last gaps); the cells of the last
 * dimension are leaves that say whether the cell belongs to the set.
 *
 * Root isolation (partial evaluation at the point, conversion to a
 * univariate polynomial, `isolateRootsInBounds`, the hash set of
 * root/polynomial pairs and the sort by root) and the projection
 * operators (`Projection.discriminant`, `Projection.resultant`) are the
 * functions of an `Oracles` value.
 */
module TreeSolvers {
  import opened Wrappers
  import opened MPolys
  import opened Boxes
  import opened LevelLists
  import Polynomials
  import LevelGraphs
  import Roots

  /** A `Root`: its exact value and its univariate polynomial; two roots are equal when both agree. */
  datatype RootValue = RootValue(value: real, polynomial: Polynomials.UPoly)

  /** `Pair<Root, MPoly>`: a root and the polynomial of the level list it came from. */
  datatype RootAt = RootAt(root: RootValue, poly: MPoly)

  /** `Tree`: a leaf says whether its cell is in the set; a cylinder has roots and one cell per gap. */
  datatype Tree = Leaf(level: int, member: bool) | Cylinder(level: int, roots: seq<RootAt>, cells: seq<Tree>)

  /** The computer-algebra steps the solver calls. */
  datatype Oracles = Oracles(
    /**
     * the roots, between the two bounds, of the set's polynomials
     * evaluated at the point, each with its polynomial, sorted by root
     */
    rootsBetween: (set<MPoly>, seq<real>, real, real) -> Result<seq<RootAt>>,
    /** `Projection.discriminant(p, level)` */
    discriminant: (MPoly, nat) -> seq<MPoly>,
    /** `Projection.resultant(p, q, level)` */
    resultant: (MPoly, MPoly, nat) -> seq<MPoly>,
    /** the iteration order of a hash set of polynomials (`toList`) */
    order: set<MPoly> -> seq<MPoly>)

  /** `SemiAlgTreeSolver(boundBox, ring)`: the box, the ring's variable count and the oracles. */
  datatype Solver = Solver(bounds: Box, ring: nat, oracles: Oracles)

  /** The ring has a variable for every dimension of the box, so the bound polynomials exist. */
  predicate Valid(s: Solver) {
    |s.bounds| <= s.ring
  }

  /** `Root.linear(x - c)`: the rational root c of the linear polynomial −c + x. */
  function LinearRoot(c: real): RootValue {
    RootValue(c, [-c, 1.0])
  }

  /** The root of `Root.linear(x - c)` is c, and c is a zero of its polynomial. */
  lemma LinearRootIsRoot(c: real)
    ensures LinearRoot(c).value == c
    ensures Polynomials.Coeff(LinearRoot(c).polynomial, 0) + Polynomials.Coeff(LinearRoot(c).polynomial, 1) * c == 0.0
  {
  }

  /** `boundRoots[d].first`: the box's lower bound in dimension d, as a root. */
  function LowRoot(s: Solver, d: nat): RootValue
    requires d < |s.bounds|
  {
    LinearRoot(s.bounds[d].low)
  }

  /** `boundPolynomials[d].first` with its root: x_d − low_d. */
  function BoundLow(s: Solver, d: nat): RootAt
    requires Valid(s) && d < |s.bounds|
  {
    RootAt(LowRoot(s, d), VariableMinus(s.ring, d, s.bounds[d].low))
  }

  /** `boundPolynomials[d].second` with its root: x_d − high_d. */
  function BoundHigh(s: Solver, d: nat): RootAt
    requires Valid(s) && d < |s.bounds|
  {
    RootAt(LinearRoot(s.bounds[d].high), VariableMinus(s.ring, d, s.bounds[d].high))
  }

  // ---------------------------------------------------------------------
  // Tree members
  // ---------------------------------------------------------------------

  /** `roots`: a leaf has none. */
  function RootsOf(t: Tree): seq<RootAt> {
    match t
    case Leaf(_, _) => []
    case Cylinder(_, roots, _) => roots
  }

  /** `roots.map { it.second }.toSet()`. */
  function PolysOf(roots: seq<RootAt>): set<MPoly> {
    set x | x in roots :: x.poly
  }

  /** The polynomials of a list of roots are exactly those some root came from. */
  lemma PolysOfMeans(roots: seq<RootAt>, p: MPoly)
    ensures p in PolysOf(roots) <==> exists i :: 0 <= i < |roots| && roots[i].poly == p
  {
    if p in PolysOf(roots) {
      var x :| x in roots && x.poly == p;
      var i :| 0 <= i < |roots| && roots[i] == x;
    }
  }

  /** `lookup(cell)`: a leaf is its own cell; a cylinder's cell index must exist. */
  function LookupCell(t: Tree, cell: int): (r: Result<Tree>)
    ensures t.Leaf? ==> r == Ok(t)
    ensures t.Cylinder? ==> (r.Ok? <==> 0 <= cell < |t.cells|) && (r.Ok? ==> r.value == t.cells[cell])
    ensures r.Err? ==> r.error == IndexOutOfBounds
  {
    match t
    case Leaf(_, _) => Ok(t)
    case Cylinder(_, _, cells) => if 0 <= cell < |cells| then Ok(cells[cell]) else Err(IndexOutOfBounds)
  }

  /** The roots are sorted by value, as `binarySearch` needs. */
  ghost predicate SortedRoots(roots: seq<RootAt>) {
    forall i, j :: 0 <= i < j < |roots| ==> roots[i].root.value <= roots[j].root.value
  }

  /** How many roots lie below x. */
  function Below(roots: seq<RootAt>, x: real): (r: nat)
    ensures r <= |roots|
    decreases |roots|
  {
    if |roots| == 0 then 0
    else Below(roots[..|roots| - 1], x) + (if roots[|roots| - 1].root.value < x then 1 else 0)
  }

  /** Some root is exactly x. */
  predicate IsRoot(roots: seq<RootAt>, x: real) {
    exists i :: 0 <= i < |roots| && roots[i].root.value == x
  }

  /**
   * `lookup(point)`: a leaf is its own cell; a cylinder fails when the
   * point is one of its roots, and otherwise returns the cell after the
   * roots below the point.
   */
  function LookupPoint(t: Tree, point: real): Result<Tree> {
    match t
    case Leaf(_, _) => Ok(t)
    case Cylinder(_, roots, cells) =>
      if IsRoot(roots, point) then Err(IllegalState("The point is also a root"))
      else if Below(roots, point) < |cells| then Ok(cells[Below(roots, point)])
      else Err(IndexOutOfBounds)
  }

  /** Over sorted roots the roots below x are a prefix: x lies above the first k and below the rest. */
  lemma {:induction false} BelowPrefix(roots: seq<RootAt>, x: real, k: nat)
    requires k <= |roots|
    requires forall i :: 0 <= i < k ==> roots[i].root.value < x
    requires forall i :: k <= i < |roots| ==> roots[i].root.value >= x
    ensures Below(roots, x) == k
    decreases |roots|
  {
    if |roots| > 0 {
      var init := roots[..|roots| - 1];
      if k == |roots| {
        BelowPrefix(init, x, k - 1);
      } else {
        BelowPrefix(init, x, k);
      }
    }
  }

  /**
   * Over sorted roots a point that is no root falls in exactly one gap:
   * the cell `lookup` returns lies between the roots just below and just
   * above the point.
   */
  lemma LookupPointGap(t: Tree, point: real)
    requires t.Cylinder? && SortedRoots(t.roots) && LookupPoint(t, point).Ok?
    ensures var k := Below(t.roots, point);
      LookupPoint(t, point) == Ok(t.cells[k]) &&
      (k == 0 || t.roots[k - 1].root.value < point) &&
      (k == |t.roots| || point < t.roots[k].root.value)
  {
    var k := GapOf(t.roots, point, |t.roots|);
    BelowPrefix(t.roots, point, k);
  }

  /** Over sorted roots the first n split into those below and those above a point that is no root. */
  lemma {:induction false} GapOf(roots: seq<RootAt>, x: real, n: nat) returns (k: nat)
    requires n <= |roots| && SortedRoots(roots) && !IsRoot(roots, x)
    ensures k <= n
    ensures forall i :: 0 <= i < k ==> roots[i].root.value < x
    ensures forall i :: k <= i < n ==> roots[i].root.value > x
  {
    if n == 0 {
      k := 0;
    } else {
      k := GapOf(roots, x, n - 1);
      assert roots[n - 1].root.value != x;
      if roots[n - 1].root.value < x {
        k := n;
      }
    }
  }

  /**
   * `roots.binarySearch { root.compareTo(point) }`: over sorted roots, an
   * index holding the point, or −(insertion point) − 1 when no root is the
   * point, the insertion point being the number of roots below it.
   */
  method BinarySearch(roots: seq<RootAt>, point: real) returns (r: int)
    ensures -|roots| - 1 <= r < |roots|
    ensures SortedRoots(roots) && r >= 0 ==> roots[r].root.value == point
    ensures SortedRoots(roots) && r < 0 ==> !IsRoot(roots, point) && -r - 1 == Below(roots, point)
  {
    var low := 0;
    var high := |roots| - 1;
    while low <= high
      invariant 0 <= low <= high + 1 <= |roots|
      invariant SortedRoots(roots) ==> forall i :: 0 <= i < low ==> roots[i].root.value < point
      invariant SortedRoots(roots) ==> forall i :: high < i < |roots| ==> roots[i].root.value > point
      decreases high - low
    {
      var mid := (low + high) / 2;
      var value := roots[mid].root.value;
      if value < point {
        low := mid + 1;
      } else if value > point {
        high := mid - 1;
      } else {
        return mid;
      }
    }
    if SortedRoots(roots) {
      BelowPrefix(roots, point, low);
    }
    return -(low + 1);
  }

  /** `Cylinder.lookup(point)` with its binary search; over sorted roots it is `LookupPoint`. */
  method Lookup(t: Tree, point: real) returns (r: Result<Tree>)
    ensures SortedRoots(RootsOf(t)) ==> r == LookupPoint(t, point)
  {
    if t.Leaf? {
      return Ok(t);
    }
    var searchResult := BinarySearch(t.roots, point);
    if searchResult >= 0 {
      return Err(IllegalState("The point is also a root"));
    }
    var index := -searchResult - 1;
    if index >= |t.cells| {
      return Err(IndexOutOfBounds);
    }
    return Ok(t.cells[index]);
  }

  // ---------------------------------------------------------------------
  // fold1 and level lists
  // ---------------------------------------------------------------------

  /** The first k elements combined from the left. */
  function FoldPrefix<T>(xs: seq<T>, f: (T, T) -> T, k: nat): T
    requires 1 <= k <= |xs|
    decreases k
  {
    if k == 1 then xs[0] else f(FoldPrefix(xs, f, k - 1), xs[k - 1])
  }

  /** `fold1`: `first()` fails on an empty list; otherwise the elements combined from the left. */
  function Fold1<T>(xs: seq<T>, f: (T, T) -> T): Result<T> {
    if |xs| == 0 then Err(NoSuchElement) else Ok(FoldPrefix(xs, f, |xs|))
  }

  /** The usual left fold from an accumulator. */
  function FoldLeft<T>(f: (T, T) -> T, acc: T, ys: seq<T>): T
    decreases |ys|
  {
    if |ys| == 0 then acc else FoldLeft(f, f(acc, ys[0]), ys[1..])
  }

  /** A left fold over ys + [y] folds ys first and then y. */
  lemma {:induction false} FoldLeftSnoc<T>(f: (T, T) -> T, acc: T, ys: seq<T>, y: T)
    ensures FoldLeft(f, acc, ys + [y]) == f(FoldLeft(f, acc, ys), y)
    decreases |ys|
  {
    if |ys| > 0 {
      assert (ys + [y])[1..] == ys[1..] + [y];
      FoldLeftSnoc(f, f(acc, ys[0]), ys[1..], y);
    }
  }

  /** `fold1` of [x] is x, and of x1, ..., xn it is the left fold of the rest from x1. */
  lemma Fold1IsFoldLeft<T>(xs: seq<T>, f: (T, T) -> T)
    requires |xs| > 0
    ensures |xs| == 1 ==> Fold1(xs, f) == Ok(xs[0])
    ensures Fold1(xs, f) == Ok(FoldLeft(f, xs[0], xs[1..]))
  {
    FoldPrefixIsFoldLeft(xs, f, |xs|);
    assert xs[1..|xs|] == xs[1..];
  }

  lemma {:induction false} FoldPrefixIsFoldLeft<T>(xs: seq<T>, f: (T, T) -> T, k: nat)
    requires 1 <= k <= |xs|
    ensures FoldPrefix(xs, f, k) == FoldLeft(f, xs[0], xs[1..k])
    decreases k
  {
    if k > 1 {
      FoldPrefixIsFoldLeft(xs, f, k - 1);
      assert xs[1..k] == xs[1..k - 1] + [xs[k - 1]];
      FoldLeftSnoc(f, xs[0], xs[1..k - 1], xs[k - 1]);
    }
  }

  /** The loop of `fold1`. */
  method Fold1Loop<T>(xs: seq<T>, f: (T, T) -> T) returns (r: Result<T>)
    ensures r == Fold1(xs, f)
  {
    if |xs| == 0 {
      return Err(NoSuchElement);
    }
    var result := xs[0];
    for i := 1 to |xs|
      invariant result == FoldPrefix(xs, f, i)
    {
      result := f(result, xs[i]);
    }
    return Ok(result);
  }

  /** `zip`, as the folded action. */
  function ZipAction(): (LevelList, LevelList) -> LevelList {
    (a: LevelList, b: LevelList) => Zipped(a, b)
  }

  /**
   * `levelList`: none for a leaf; for a cylinder the set of its roots'
   * polynomials, followed by its cells' level lists zipped together
   * (`fold1`, which fails for a cylinder without cells).
   */
  function LevelListOf(t: Tree): Result<LevelList>
    decreases t, 1
  {
    match t
    case Leaf(_, _) => Ok([])
    case Cylinder(_, roots, cells) =>
      match ChildLists(t, |cells|)
      case Err(e) => Err(e)
      case Ok(lists) =>
        match Fold1(lists, ZipAction())
        case Err(e) => Err(e)
        case Ok(zipped) => Ok([PolysOf(roots)] + zipped)
  }

  /** The level lists of the first k cells of a cylinder. */
  function ChildLists(t: Tree, k: nat): (r: Result<seq<LevelList>>)
    requires t.Cylinder? && k <= |t.cells|
    ensures r.Ok? ==> |r.value| == k
    decreases t, 0, k
  {
    if k == 0 then Ok([])
    else match ChildLists(t, k - 1)
      case Err(e) => Err(e)
      case Ok(lists) =>
        match LevelListOf(t.cells[k - 1])
        case Err(e) => Err(e)
        case Ok(l) => Ok(lists + [l])
  }

  /** The union of entry i of the first k lists. */
  function EntryUnion(lists: seq<LevelList>, i: nat, k: nat): set<MPoly>
    requires k <= |lists|
    decreases k
  {
    if k == 0 then {} else EntryUnion(lists, i, k - 1) + EntryOr(lists[k - 1], i)
  }

  /** The longest of the first k lists. */
  function LongestOf(lists: seq<LevelList>, k: nat): nat
    requires k <= |lists|
    decreases k
  {
    if k == 0 then 0 else
      var rest := LongestOf(lists, k - 1);
      if |lists[k - 1]| > rest then |lists[k - 1]| else rest
  }

  /** The zip fold of k lists is as long as the longest, and each entry is the union of that entry of all k. */
  lemma {:induction false} FoldZipEntries(lists: seq<LevelList>, k: nat)
    requires 1 <= k <= |lists|
    ensures |FoldPrefix(lists, ZipAction(), k)| == LongestOf(lists, k)
    ensures forall i :: 0 <= i < LongestOf(lists, k) ==> FoldPrefix(lists, ZipAction(), k)[i] == EntryUnion(lists, i, k)
    decreases k
  {
    if k == 1 {
      assert forall i :: 0 <= i < |lists[0]| ==> EntryUnion(lists, i, 1) == lists[0][i];
    } else {
      FoldZipEntries(lists, k - 1);
      var before := FoldPrefix(lists, ZipAction(), k - 1);
      assert FoldPrefix(lists, ZipAction(), k) == Zipped(before, lists[k - 1]);
      forall i | 0 <= i < LongestOf(lists, k)
        ensures Zipped(before, lists[k - 1])[i] == EntryUnion(lists, i, k)
      {
        if i >= LongestOf(lists, k - 1) {
          EntryUnionBeyond(lists, i, k - 1);
        }
      }
    }
  }

  /** Past the longest of the first k lists their entry union is empty. */
  lemma {:induction false} EntryUnionBeyond(lists: seq<LevelList>, i: nat, k: nat)
    requires k <= |lists| && i >= LongestOf(lists, k)
    ensures EntryUnion(lists, i, k) == {}
    decreases k
  {
    if k > 0 {
      EntryUnionBeyond(lists, i, k - 1);
    }
  }

  /**
   * The level list of a cylinder with cells: its first entry is the set of
   * its roots' polynomials, and entry i + 1 is the union of entry i of its
   * cells' level lists, as long as the longest of them.
   */
  lemma LevelListEntries(t: Tree)
    requires t.Cylinder? && |t.cells| > 0 && ChildLists(t, |t.cells|).Ok?
    ensures var lists := ChildLists(t, |t.cells|).value;
      LevelListOf(t).Ok? && |LevelListOf(t).value| == LongestOf(lists, |lists|) + 1 &&
      LevelListOf(t).value[0] == PolysOf(t.roots) &&
      forall i :: 0 <= i < LongestOf(lists, |lists|) ==> LevelListOf(t).value[i + 1] == EntryUnion(lists, i, |lists|)
  {
    var lists := ChildLists(t, |t.cells|).value;
    FoldZipEntries(lists, |lists|);
  }

  /** A leaf has no roots and no level list, and is its own cell for either lookup. */
  lemma LeafMembers(level: int, member: bool, point: real, cell: int)
    ensures var t := Leaf(level, member);
      RootsOf(t) == [] && LevelListOf(t) == Ok([]) && LookupPoint(t, point) == Ok(t) && LookupCell(t, cell) == Ok(t)
  {
  }

  // ---------------------------------------------------------------------
  // rootPairs
  // ---------------------------------------------------------------------

  /** The pairs of consecutive roots of low, roots..., high. */
  function Pairs(roots: seq<RootAt>, low: RootAt, high: RootAt): seq<(RootAt, RootAt)> {
    var chain := [low] + roots + [high];
    seq(|roots| + 1, k requires 0 <= k < |roots| + 1 => (chain[k], chain[k + 1]))
  }

  /**
   * The action runs n + 1 times over n roots: first on (low, r0), then on
   * consecutive roots, last on (r(n−1), high); once on (low, high) when
   * there are no roots. Each pair's upper root is the next pair's lower one.
   */
  lemma PairsMeans(roots: seq<RootAt>, low: RootAt, high: RootAt)
    ensures var ps := Pairs(roots, low, high);
      |ps| == |roots| + 1 && ps[0].0 == low && ps[|roots|].1 == high &&
      (|roots| == 0 ==> ps == [(low, high)]) &&
      (forall k :: 0 <= k < |roots| ==> ps[k].1 == roots[k] && ps[k + 1].0 == roots[k])
  {
  }

  /** `rootPairs(low, high, action)`: the pairs the action receives, in order. */
  method RootPairs(roots: seq<RootAt>, low: RootAt, high: RootAt) returns (r: seq<(RootAt, RootAt)>)
    ensures r == Pairs(roots, low, high)
  {
    if |roots| == 0 {
      return [(low, high)];
    }
    r := [(low, roots[0])];
    for i := 0 to |roots| - 1
      invariant r == Pairs(roots, low, high)[..i + 1]
    {
      r := r + [(roots[i], roots[i + 1])];
    }
    r := r + [(roots[|roots| - 1], high)];
  }

  // ---------------------------------------------------------------------
  // makeLevelList
  // ---------------------------------------------------------------------

  /** The polynomials of a list, as a set. */
  function Elements(ps: seq<MPoly>): (r: set<MPoly>)
    ensures forall p :: p in r <==> p in ps
  {
    set p | p in ps
  }

  /** The projections of p to the level below: its discriminant and its resultants with both bound polynomials. */
  function BoundProjections(s: Solver, p: MPoly, level: nat): seq<MPoly>
    requires Valid(s) && level < |s.bounds|
  {
    s.oracles.discriminant(p, level) + s.oracles.resultant(p, BoundLow(s, level).poly, level)
      + s.oracles.resultant(p, BoundHigh(s, level).poly, level)
  }

  /** `for (p in ps) addAll(projections of p)`. */
  function ProjectAll(s: Solver, ps: set<MPoly>, level: nat): set<MPoly>
    requires Valid(s) && level < |s.bounds|
  {
    set p, q | p in ps && q in BoundProjections(s, p, level) :: q
  }

  /** The resultants of list[i] with list[i + 1], ..., list[j − 1]. */
  function RowResultants(s: Solver, list: seq<MPoly>, level: nat, i: nat, j: nat): set<MPoly>
    requires i < |list| && j <= |list|
    decreases j
  {
    if j <= i + 1 then {}
    else RowResultants(s, list, level, i, j - 1) + Elements(s.oracles.resultant(list[i], list[j - 1], level))
  }

  /** The resultants of every pair list[i], list[j] with i < j and i below k. */
  function PairResultants(s: Solver, list: seq<MPoly>, level: nat, k: nat): set<MPoly>
    requires k <= |list|
    decreases k
  {
    if k == 0 then {}
    else PairResultants(s, list, level, k - 1) + RowResultants(s, list, level, k - 1, |list|)
  }

  lemma {:induction false} RowResultantsMeans(s: Solver, list: seq<MPoly>, level: nat, i: nat, j: nat, q: MPoly)
    requires i < |list| && j <= |list|
    ensures q in RowResultants(s, list, level, i, j) <==>
      exists m :: i < m < j && q in s.oracles.resultant(list[i], list[m], level)
    decreases j
  {
    if j > i + 1 {
      RowResultantsMeans(s, list, level, i, j - 1, q);
    }
  }

  /**
   * The nested loop over `list.indices`: a polynomial is added exactly when
   * it is a resultant of list[i] and list[j] for some i < j.
   */
  lemma {:induction false} PairResultantsMeans(s: Solver, list: seq<MPoly>, level: nat, k: nat, q: MPoly)
    requires k <= |list|
    ensures q in PairResultants(s, list, level, k) <==>
      exists i, j :: 0 <= i < k && i < j < |list| && q in s.oracles.resultant(list[i], list[j], level)
    decreases k
  {
    if k > 0 {
      PairResultantsMeans(s, list, level, k - 1, q);
      RowResultantsMeans(s, list, level, k - 1, |list|, q);
    }
  }

  /** The nested loop of `makeLevelList` over the indices of the list. */
  method PairLoop(s: Solver, list: seq<MPoly>, level: nat) returns (r: set<MPoly>)
    ensures r == PairResultants(s, list, level, |list|)
  {
    r := {};
    for i := 0 to |list|
      invariant r == PairResultants(s, list, level, i)
    {
      var row := {};
      for j := i + 1 to |list|
        invariant row == RowResultants(s, list, level, i, j)
      {
        row := row + Elements(s.oracles.resultant(list[i], list[j], level));
      }
      r := r + row;
    }
  }

  /** The polynomials of a set whose level is below the given one (`filter { it.level < level }`). */
  function Carry(polys: set<MPoly>, level: int): (r: set<MPoly>)
    ensures forall p :: p in r <==> p in polys && LevelGraphs.Level(p) < level
  {
    set p | p in polys && LevelGraphs.Level(p) < level
  }

  /**
   * `makeLevelList(set, level)`: level 0 holds everything that is left;
   * above it, the polynomials of at least that level stay, and the rest is
   * carried down together with the projections of those that stay (their
   * discriminants, their resultants with the bound polynomials and with
   * each other, in the order the set lists them). The bound polynomials
   * exist only for the levels of the box.
   */
  function MakeLevelList(s: Solver, polys: set<MPoly>, level: int): Result<LevelList>
    requires Valid(s)
    decreases if level < 0 then 0 else level
  {
    if level == 0 then Ok([polys])
    else if level < 0 || level >= |s.bounds| then Err(IndexOutOfBounds)
    else
      match MakeLevelList(s, Descend(s, polys, level), level - 1)
      case Err(e) => Err(e)
      case Ok(lower) => Ok(lower + [polys - Carry(polys, level)])
  }

  /** What one level of `makeLevelList` passes down: the carried polynomials and the projections of the rest. */
  function Descend(s: Solver, polys: set<MPoly>, level: nat): (r: set<MPoly>)
    requires Valid(s) && level < |s.bounds|
    ensures Carry(polys, level) <= r
  {
    var thisLevel := polys - Carry(polys, level);
    var list := s.oracles.order(thisLevel);
    Carry(polys, level) + ProjectAll(s, thisLevel, level) + PairResultants(s, list, level, |list|)
  }

  /** Where a polynomial of the set ends up: at its own level, tops at the start level, constants at 0. */
  function Place(p: MPoly, level: nat): nat {
    var l := LevelGraphs.Level(p);
    if l >= level then level else if l < 0 then 0 else l
  }

  /**
   * `makeLevelList(set, level)` succeeds exactly for level 0 and the levels
   * of the box above it, with level + 1 entries; its last entry holds the
   * polynomials of the set of at least that level (all of them at level 0).
   */
  lemma {:induction false} MakeLevelListShape(s: Solver, polys: set<MPoly>, level: int)
    requires Valid(s)
    ensures MakeLevelList(s, polys, level).Ok? <==> level == 0 || 0 < level < |s.bounds|
    ensures MakeLevelList(s, polys, level).Ok? ==>
      var r := MakeLevelList(s, polys, level).value;
      && |r| == level + 1
      && (level == 0 ==> r[0] == polys)
      && (level > 0 ==> r[level] == polys - Carry(polys, level))
    decreases if level < 0 then 0 else level
  {
    if 0 < level < |s.bounds| {
      MakeLevelListShape(s, Descend(s, polys, level), level - 1);
    }
  }

  /** Every entry k > 0 of `makeLevelList` holds only polynomials of level at least k. */
  lemma {:induction false} MakeLevelListLevels(s: Solver, polys: set<MPoly>, level: int, k: nat, q: MPoly)
    requires Valid(s) && MakeLevelList(s, polys, level).Ok?
    requires 1 <= k < |MakeLevelList(s, polys, level).value| && q in MakeLevelList(s, polys, level).value[k]
    ensures LevelGraphs.Level(q) >= k
    decreases if level < 0 then 0 else level
  {
    MakeLevelListShape(s, polys, level);
    assert 0 < level < |s.bounds|;
    var next := Descend(s, polys, level);
    MakeLevelListShape(s, next, level - 1);
    var lower := MakeLevelList(s, next, level - 1).value;
    var top := polys - Carry(polys, level);
    assert MakeLevelList(s, polys, level).value == lower + [top];
    if k < level {
      assert (lower + [top])[k] == lower[k];
      MakeLevelListLevels(s, next, level - 1, k, q);
    } else {
      assert q in top;
    }
  }

  /** Every polynomial of the set is stored by `makeLevelList` at its place. */
  lemma {:induction false} MakeLevelListPlaces(s: Solver, polys: set<MPoly>, level: int, p: MPoly)
    requires Valid(s) && MakeLevelList(s, polys, level).Ok? && p in polys
    ensures Place(p, level) < |MakeLevelList(s, polys, level).value|
    ensures p in MakeLevelList(s, polys, level).value[Place(p, level)]
    decreases if level < 0 then 0 else level
  {
    MakeLevelListShape(s, polys, level);
    if level > 0 {
      var next := Descend(s, polys, level);
      MakeLevelListShape(s, next, level - 1);
      var lower := MakeLevelList(s, next, level - 1).value;
      if LevelGraphs.Level(p) < level {
        assert p in next;
        MakeLevelListPlaces(s, next, level - 1, p);
        assert Place(p, level) == Place(p, level - 1);
        assert lower[Place(p, level)] == (lower + [polys - Carry(polys, level)])[Place(p, level)];
      }
    }
  }

  // ---------------------------------------------------------------------
  // intersectCylinder
  // ---------------------------------------------------------------------

  /** The resultants of every x of xs with every y of ys. */
  function CrossResultants(s: Solver, xs: set<MPoly>, ys: set<MPoly>, level: nat): set<MPoly> {
    set x, y, q | x in xs && y in ys && q in s.oracles.resultant(x, y, level) :: q
  }

  /**
   * `intersectCylinder(rootLevel, a, b, i)`: past one list, the other
   * list's entry; where both have entry i, the union of what the deeper
   * levels add that is new here, carried down when its level is lower, and
   * otherwise replaced by its projections: the discriminant, the resultants
   * with the bounds and with this level's polynomials; plus the resultants
   * of the polynomials only one side has with those of the other side.
   */
  function IntersectCylinder(s: Solver, rootLevel: int, a: LevelList, b: LevelList, i: nat): (r: Result<set<MPoly>>)
    requires Valid(s)
    ensures i >= |b| ==> r == Ok(EntryOr(a, i))
    ensures i >= |a| ==> r == Ok(EntryOr(b, i))
    decreases MaxLen(a, b) - i
  {
    if i >= |a| && i >= |b| then Ok({})
    else if i >= |a| then Ok(b[i])
    else if i >= |b| then Ok(a[i])
    else
      var level := rootLevel + i;
      if level < 0 || level >= |s.bounds| then Err(IndexOutOfBounds)
      else
        match IntersectCylinder(s, rootLevel, a, b, i + 1)
        case Err(e) => Err(e)
        case Ok(deeper) => Ok(Intersect(s, level, a[i], b[i], deeper))
  }

  /** One level of `intersectCylinder`, given what the deeper levels produced. */
  function Intersect(s: Solver, level: nat, left: set<MPoly>, right: set<MPoly>, deeper: set<MPoly>): set<MPoly>
    requires Valid(s) && level < |s.bounds|
  {
    var current := left + right;
    var intersections := deeper - current;
    var insert := intersections - Carry(intersections, level);
    Carry(intersections, level) + ProjectAll(s, insert, level) + CrossResultants(s, insert, current, level)
      + CrossResultants(s, left - right, right, level) + CrossResultants(s, left, right - left, level)
  }

  /** The resultant oracle gives the same polynomials whichever argument comes first. */
  ghost predicate SymmetricResultant(o: Oracles) {
    forall p, q, l :: Elements(o.resultant(p, q, l)) == Elements(o.resultant(q, p, l))
  }

  lemma CrossSymmetric(s: Solver, xs: set<MPoly>, ys: set<MPoly>, level: nat)
    requires SymmetricResultant(s.oracles)
    ensures CrossResultants(s, xs, ys, level) == CrossResultants(s, ys, xs, level)
  {
    forall q | q in CrossResultants(s, xs, ys, level)
      ensures q in CrossResultants(s, ys, xs, level)
    {
      var x, y :| x in xs && y in ys && q in s.oracles.resultant(x, y, level);
      assert q in Elements(s.oracles.resultant(y, x, level));
    }
    forall q | q in CrossResultants(s, ys, xs, level)
      ensures q in CrossResultants(s, xs, ys, level)
    {
      var y, x :| y in ys && x in xs && q in s.oracles.resultant(y, x, level);
      assert q in Elements(s.oracles.resultant(x, y, level));
    }
  }

  /** With a symmetric resultant, one level of the intersection does not depend on the order of the sides. */
  lemma IntersectSwap(s: Solver, level: nat, left: set<MPoly>, right: set<MPoly>, deeper: set<MPoly>)
    requires Valid(s) && level < |s.bounds| && SymmetricResultant(s.oracles)
    ensures Intersect(s, level, left, right, deeper) == Intersect(s, level, right, left, deeper)
  {
    assert left + right == right + left;
    CrossSymmetric(s, left - right, right, level);
    CrossSymmetric(s, left, right - left, level);
    var x := Carry(deeper - (left + right), level);
    var y := ProjectAll(s, (deeper - (left + right)) - x, level);
    var z := CrossResultants(s, (deeper - (left + right)) - x, left + right, level);
    var u := CrossResultants(s, left - right, right, level);
    var v := CrossResultants(s, left, right - left, level);
    assert x + y + z + u + v == x + y + z + v + u;
  }

  /**
   * With a symmetric resultant, intersecting the cylinders of a and b
   * gives what intersecting those of b and a gives.
   */
  lemma {:induction false} IntersectCommutes(s: Solver, rootLevel: int, a: LevelList, b: LevelList, i: nat)
    requires Valid(s) && SymmetricResultant(s.oracles)
    ensures IntersectCylinder(s, rootLevel, a, b, i) == IntersectCylinder(s, rootLevel, b, a, i)
    decreases MaxLen(a, b) - i
  {
    if i < |a| && i < |b| && 0 <= rootLevel + i < |s.bounds| {
      IntersectCommutes(s, rootLevel, a, b, i + 1);
      var level := rootLevel + i;
      if IntersectCylinder(s, rootLevel, a, b, i + 1).Ok? {
        IntersectSwap(s, level, a[i], b[i], IntersectCylinder(s, rootLevel, a, b, i + 1).value);
      }
    }
  }

  // ---------------------------------------------------------------------
  // makePositive and positive
  // ---------------------------------------------------------------------

  /** `samplePoint(l, h)` of exact roots: fails unless l is below h, and then lies strictly between them. */
  function Sample(l: RootValue, h: RootValue): (r: Result<real>)
    ensures r.Ok? <==> l.value < h.value
    ensures r.Ok? ==> l.value < r.value < h.value
  {
    if l.value >= h.value then Err(IllegalState("Cannot find middle value (empty interval)"))
    else Ok(Roots.Middle(l.value, h.value))
  }

  /** The dimensions still to descend below a point. */
  function Remaining(s: Solver, point: seq<real>): nat {
    if |point| < |s.bounds| then |s.bounds| - |point| else 0
  }

  /**
   * `makePositive(point, poly, levels)`: past the last dimension the leaf
   * says whether poly is positive at the point; otherwise the roots, inside
   * the box's bounds, of the polynomials of this level, with a cell made
   * for a sample of every gap between them.
   */
  function MakePositive(s: Solver, point: seq<real>, poly: MPoly, levels: LevelList): Result<Tree>
    requires Valid(s)
    decreases Remaining(s, point), 1
  {
    var level := |point|;
    if level == |s.bounds| then Ok(Leaf(level, MEval(poly, point) > 0.0))
    else if level > |s.bounds| || level >= |levels| then Err(IndexOutOfBounds)
    else
      match s.oracles.rootsBetween(levels[level], point, s.bounds[level].low, s.bounds[level].high)
      case Err(e) => Err(e)
      case Ok(roots) =>
        var pairs := Pairs(roots, BoundLow(s, level), BoundHigh(s, level));
        match MakeCells(s, point, poly, levels, pairs, |pairs|)
        case Err(e) => Err(e)
        case Ok(cells) => Ok(Cylinder(level, roots, cells))
  }

  /** The cells of the first k gaps, each made at the gap's sample. */
  function MakeCells(s: Solver, point: seq<real>, poly: MPoly, levels: LevelList,
                     pairs: seq<(RootAt, RootAt)>, k: nat): (r: Result<seq<Tree>>)
    requires Valid(s) && |point| < |s.bounds| && k <= |pairs|
    ensures r.Ok? ==> |r.value| == k
    decreases Remaining(s, point), 0, k
  {
    if k == 0 then Ok([])
    else match MakeCells(s, point, poly, levels, pairs, k - 1)
      case Err(e) => Err(e)
      case Ok(cells) =>
        match Sample(pairs[k - 1].0.root, pairs[k - 1].1.root)
        case Err(e) => Err(e)
        case Ok(sample) =>
          match MakePositive(s, point + [sample], poly, levels)
          case Err(e) => Err(e)
          case Ok(cell) => Ok(cells + [cell])
  }

  /**
   * A tree of the solver's shape: every cylinder one level above its
   * cells, with one cell more than it has roots, and every leaf at the
   * given depth.
   */
  ghost predicate Complete(t: Tree, depth: int)
    decreases t
  {
    match t
    case Leaf(level, _) => level == depth
    case Cylinder(level, roots, cells) =>
      && level < depth
      && |cells| == |roots| + 1
      && forall i :: 0 <= i < |cells| ==> cells[i].level == level + 1 && Complete(cells[i], depth)
  }

  /**
   * What `makePositive` builds from a point is complete down to the last
   * dimension, with its root at the point's level.
   */
  lemma {:induction false} MakePositiveComplete(s: Solver, point: seq<real>, poly: MPoly, levels: LevelList)
    requires Valid(s) && MakePositive(s, point, poly, levels).Ok?
    ensures var t := MakePositive(s, point, poly, levels).value;
      t.level == |point| && Complete(t, |s.bounds|) &&
      (|point| == |s.bounds| ==> t == Leaf(|point|, MEval(poly, point) > 0.0)) &&
      (|point| < |s.bounds| ==> t.Cylinder? && |t.cells| == |t.roots| + 1)
    decreases Remaining(s, point), 1
  {
    var level := |point|;
    if level < |s.bounds| {
      var roots := s.oracles.rootsBetween(levels[level], point, s.bounds[level].low, s.bounds[level].high).value;
      var pairs := Pairs(roots, BoundLow(s, level), BoundHigh(s, level));
      MakeCellsComplete(s, point, poly, levels, pairs, |pairs|);
    }
  }

  lemma {:induction false} MakeCellsComplete(s: Solver, point: seq<real>, poly: MPoly, levels: LevelList,
                                             pairs: seq<(RootAt, RootAt)>, k: nat)
    requires Valid(s) && |point| < |s.bounds| && k <= |pairs|
    requires MakeCells(s, point, poly, levels, pairs, k).Ok?
    ensures var cells := MakeCells(s, point, poly, levels, pairs, k).value;
      forall i :: 0 <= i < k ==> cells[i].level == |point| + 1 && Complete(cells[i], |s.bounds|)
    decreases Remaining(s, point), 0, k
  {
    if k > 0 {
      MakeCellsComplete(s, point, poly, levels, pairs, k - 1);
      var sample := Sample(pairs[k - 1].0.root, pairs[k - 1].1.root).value;
      MakePositiveComplete(s, point + [sample], poly, levels);
    }
  }

  /**
   * A complete tree has a level list (`fold1` never meets a cylinder
   * without cells), one entry per level from its own down to the depth.
   */
  lemma {:induction false} CompleteLevelList(t: Tree, depth: int)
    requires Complete(t, depth)
    ensures LevelListOf(t).Ok? && |LevelListOf(t).value| == depth - t.level
    decreases t, 1
  {
    if t.Cylinder? {
      var lists := ChildLists(t, |t.cells|).value by {
        CompleteChildLists(t, depth, |t.cells|);
      }
      CompleteChildLists(t, depth, |t.cells|);
      LongestOfEqual(lists, |lists|, depth - t.level - 1);
      FoldZipEntries(lists, |lists|);
    }
  }

  lemma {:induction false} CompleteChildLists(t: Tree, depth: int, k: nat)
    requires t.Cylinder? && Complete(t, depth) && k <= |t.cells|
    ensures ChildLists(t, k).Ok?
    ensures forall j :: 0 <= j < k ==> |ChildLists(t, k).value[j]| == depth - t.level - 1
    decreases t, 0, k
  {
    if k > 0 {
      CompleteChildLists(t, depth, k - 1);
      assert Complete(t.cells[k - 1], depth);
      CompleteLevelList(t.cells[k - 1], depth);
    }
  }

  /** The longest of lists that all have length m is m. */
  lemma {:induction false} LongestOfEqual(lists: seq<LevelList>, k: nat, m: int)
    requires 1 <= k <= |lists| && forall j :: 0 <= j < k ==> |lists[j]| == m
    ensures LongestOf(lists, k) == m
    decreases k
  {
    if k > 1 {
      LongestOfEqual(lists, k - 1, m);
    }
  }

  /** `positive(poly)`: the tree of the set where poly is positive, grown over its level list. */
  function Positive(s: Solver, poly: MPoly): Result<Tree>
    requires Valid(s)
  {
    match MakeLevelList(s, {poly}, |s.bounds| - 1)
    case Err(e) => Err(e)
    case Ok(levels) => MakePositive(s, [], poly, levels)
  }

  /**
   * `positive` fails in a box without dimensions; otherwise, when the
   * roots can be found, it gives a complete tree whose level list has an
   * entry per dimension.
   */
  lemma PositiveComplete(s: Solver, poly: MPoly)
    requires Valid(s)
    ensures |s.bounds| == 0 ==> Positive(s, poly).Err?
    ensures Positive(s, poly).Ok? ==> var t := Positive(s, poly).value;
      t.level == 0 && Complete(t, |s.bounds|) &&
      LevelListOf(t).Ok? && |LevelListOf(t).value| == |s.bounds|
  {
    MakeLevelListShape(s, {poly}, |s.bounds| - 1);
    if Positive(s, poly).Ok? {
      var levels := MakeLevelList(s, {poly}, |s.bounds| - 1).value;
      MakePositiveComplete(s, [], poly, levels);
      CompleteLevelList(Positive(s, poly).value, |s.bounds|);
    }
  }

  // ---------------------------------------------------------------------
  // apply and and
  // ---------------------------------------------------------------------

  /** The number of nodes of a tree. */
  function Size(t: Tree): nat
    decreases t, 1
  {
    match t
    case Leaf(_, _) => 1
    case Cylinder(_, _, cells) => 1 + SizesOf(t, |cells|)
  }

  /** The sizes of the first k cells of a cylinder, added up. */
  function SizesOf(t: Tree, k: nat): nat
    requires t.Cylinder? && k <= |t.cells|
    decreases t, 0, k
  {
    if k == 0 then 0 else SizesOf(t, k - 1) + Size(t.cells[k - 1])
  }

  lemma {:induction false} SizesOfCovers(t: Tree, k: nat, i: nat)
    requires t.Cylinder? && i < k <= |t.cells|
    ensures Size(t.cells[i]) <= SizesOf(t, k)
    decreases k
  {
    if i < k - 1 {
      SizesOfCovers(t, k - 1, i);
    }
  }

  /** A cell looked up in a cylinder is smaller than it; a leaf is its own cell. */
  lemma LookupCellSmaller(t: Tree, cell: int)
    requires LookupCell(t, cell).Ok?
    ensures t.Leaf? ==> LookupCell(t, cell).value == t
    ensures t.Cylinder? ==> Size(LookupCell(t, cell).value) < Size(t)
  {
    if t.Cylinder? {
      SizesOfCovers(t, |t.cells|, cell);
    }
  }

  /** How many of the first k pairs end at a root of one of the polynomials. */
  function Advances(pairs: seq<(RootAt, RootAt)>, k: nat, polys: set<MPoly>): (r: nat)
    requires k <= |pairs|
    ensures r <= k
    decreases k
  {
    if k == 0 then 0 else Advances(pairs, k - 1, polys) + (if pairs[k - 1].1.poly in polys then 1 else 0)
  }

  /** The cell index looked up at each of the first k pairs. */
  function Indices(pairs: seq<(RootAt, RootAt)>, k: nat, polys: set<MPoly>): seq<nat>
    requires k <= |pairs|
    decreases k
  {
    if k == 0 then [] else Indices(pairs, k - 1, polys) + [Advances(pairs, k - 1, polys)]
  }

  /**
   * The walk's index into a tree's cells starts at 0 and, from one pair to
   * the next, advances by one exactly when the pair ends at a root of one
   * of that tree's polynomials.
   */
  lemma {:induction false} IndicesMeans(pairs: seq<(RootAt, RootAt)>, k: nat, polys: set<MPoly>)
    requires k <= |pairs|
    ensures |Indices(pairs, k, polys)| == k
    ensures k > 0 ==> Indices(pairs, k, polys)[0] == 0
    ensures forall j :: 0 <= j < k - 1 ==>
      Indices(pairs, k, polys)[j + 1] == Indices(pairs, k, polys)[j] + (if pairs[j].1.poly in polys then 1 else 0)
    decreases k
  {
    if k > 0 {
      IndicesMeans(pairs, k - 1, polys);
    }
  }

  /**
   * A merged cylinder: at the level, inside the box, never storing the
   * box's lower bound as a root, and with more cells than roots.
   */
  predicate Merged(s: Solver, level: nat, t: Tree)
    requires Valid(s)
  {
    && t.Cylinder? && t.level == level && level < |s.bounds|
    && |t.roots| < |t.cells|
    && forall i :: 0 <= i < |t.roots| ==> t.roots[i].root != LowRoot(s, level)
  }

  /** The polynomials of both trees' roots, whose roots `apply` isolates again at the point. */
  function MergedPolys(a: Tree, b: Tree): set<MPoly> {
    PolysOf(RootsOf(a)) + PolysOf(RootsOf(b))
  }

  /**
   * The walk of `apply` over the roots found at the point for both trees'
   * polynomials, closed by the box's bounds, and the cell indices of each
   * tree it looks up at each pair: as many as the pairs before it that end
   * at a root of one of that tree's polynomials.
   */
  ghost predicate Walked(s: Solver, point: seq<real>, a: Tree, b: Tree,
                         walk: seq<(RootAt, RootAt)>, indexA: seq<nat>, indexB: seq<nat>)
    requires Valid(s) && |point| < |s.bounds|
  {
    var found := s.oracles.rootsBetween(MergedPolys(a, b), point, s.bounds[|point|].low, s.bounds[|point|].high);
    && found.Ok?
    && walk == Pairs(found.value, BoundLow(s, |point|), BoundHigh(s, |point|))
    && indexA == Indices(walk, |walk|, PolysOf(RootsOf(a)))
    && indexB == Indices(walk, |walk|, PolysOf(RootsOf(b)))
  }

  /**
   * How `apply` built a tree: nothing for two leaves; otherwise the walk,
   * the cell indices it looked up, and for every cell of the result the
   * walk step it came from, the sample appended to the point below it and
   * how that cell was built. (The sample is any value for the leaf that
   * two leaf cells give at once.)
   */
  datatype Trace =
    | Direct
    | Stepped(walk: seq<(RootAt, RootAt)>, indexA: seq<nat>, indexB: seq<nat>,
              steps: seq<nat>, samples: seq<real>, subs: seq<Trace>)

  /** The cells come in order of the walk steps 0 … m−1, each step giving at least one. */
  ghost predicate Grouped(steps: seq<nat>, m: nat) {
    && (forall c :: 0 <= c < |steps| ==> steps[c] < m)
    && (forall c, d :: 0 <= c <= d < |steps| ==> steps[c] <= steps[d])
    && (forall k :: 0 <= k < m ==> k in steps)
  }

  lemma GroupedAppend(steps: seq<nat>, k: nat, n: nat)
    requires Grouped(steps, k) && n > 0
    ensures Grouped(steps + seq(n, _ => k), k + 1)
  {
    var more := steps + seq(n, _ => k);
    assert more[|steps|] == k;
    forall j | 0 <= j < k + 1
      ensures j in more
    {
      if j < k {
        assert j in steps;
        var c :| 0 <= c < |steps| && steps[c] == j;
        assert more[c] == j;
      }
    }
  }

  /**
   * `cell` is built from a's cell iA and b's cell iB, one level further
   * down at the point extended by `sample`.
   */
  ghost predicate CellAt(s: Solver, point: seq<real>, cell: Tree, a: Tree, b: Tree, op: (bool, bool) -> bool,
                         iA: int, iB: int, sample: real, sub: Trace)
    requires Valid(s)
    decreases cell, 1
  {
    && LookupCell(a, iA).Ok? && LookupCell(b, iB).Ok?
    && Combines(s, point + [sample], cell, LookupCell(a, iA).value, LookupCell(b, iB).value, op, sub)
  }

  /**
   * t is `op` of a and b at the point, as `apply` builds it: for two
   * leaves, a leaf holding op of their members; otherwise a cylinder over
   * the walk of both trees' roots isolated at the point, whose cells come
   * in one group per step of the walk, every cell of step k built (down to
   * its leaves) from a's cell indexA[k] and b's cell indexB[k].
   */
  ghost predicate Combines(s: Solver, point: seq<real>, t: Tree, a: Tree, b: Tree, op: (bool, bool) -> bool, tr: Trace)
    requires Valid(s)
    decreases t, 0
  {
    if a.Leaf? && b.Leaf? then t.Leaf? && t.member == op(a.member, b.member)
    else
      && t.Cylinder? && tr.Stepped? && |point| < |s.bounds|
      && Walked(s, point, a, b, tr.walk, tr.indexA, tr.indexB)
      && |tr.steps| == |t.cells| && |tr.samples| == |t.cells| && |tr.subs| == |t.cells|
      && Grouped(tr.steps, |tr.walk|)
      && forall c :: 0 <= c < |t.cells| ==>
           && tr.steps[c] < |tr.indexA| && tr.steps[c] < |tr.indexB|
           && CellAt(s, point, t.cells[c], a, b, op, tr.indexA[tr.steps[c]], tr.indexB[tr.steps[c]], tr.samples[c], tr.subs[c])
  }

  /**
   * `apply(point, a, b, op)`: two leaves combine into a leaf; otherwise the
   * roots of both trees' polynomials are isolated again at the point and
   * walked pair by pair, with a cell of a and a cell of b for each gap: the
   * index into a's cells advances past every root of one of a's
   * polynomials (likewise for b). Two leaf cells combine at once; other
   * cells are split further at the roots of their intersection (`ApplyGap`).
   * The ghost result is the trace of how the tree was built.
   */
  method Apply(s: Solver, point: seq<real>, a: Tree, b: Tree, op: (bool, bool) -> bool)
    returns (r: Result<Tree>, ghost trace: Trace)
    requires Valid(s)
    ensures a.Leaf? && b.Leaf? ==> r == Ok(Leaf(|point|, op(a.member, b.member)))
    ensures r.Ok? && !(a.Leaf? && b.Leaf?) ==> Merged(s, |point|, r.value)
    ensures r.Ok? ==> Combines(s, point, r.value, a, b, op, trace)
    decreases Size(a) + Size(b), 2
  {
    trace := Direct;
    var level := |point|;
    if a.Leaf? && b.Leaf? {
      return Ok(Leaf(level, op(a.member, b.member))), trace;
    }
    if level >= |s.bounds| {
      return Err(IndexOutOfBounds), trace;
    }
    var merged := s.oracles.rootsBetween(MergedPolys(a, b), point, s.bounds[level].low, s.bounds[level].high);
    if merged.Err? {
      return Err(merged.error), trace;
    }
    var boundLow := LowRoot(s, level);
    var pairs := RootPairs(merged.value, BoundLow(s, level), BoundHigh(s, level));
    assert pairs[0].0.root == boundLow;
    var walked;
    ghost var indexA, indexB, steps, samples, subs;
    walked, indexA, indexB, steps, samples, subs := Walk(s, point, a, b, op, boundLow, pairs);
    if walked.Err? {
      return Err(walked.error), trace;
    }
    trace := Stepped(pairs, indexA, indexB, steps, samples, subs);
    r := Ok(Cylinder(level, walked.value.0, walked.value.1));
  }

  /**
   * The loop of `apply` over the pairs of its walk, the first starting at
   * the box's lower bound boundLow: the roots and cells of each pair's
   * step, the indices iA and iB it looks up, and for each cell its step,
   * sample and trace.
   */
  method Walk(s: Solver, point: seq<real>, a: Tree, b: Tree, op: (bool, bool) -> bool,
              boundLow: RootValue, pairs: seq<(RootAt, RootAt)>)
    returns (r: Result<(seq<RootAt>, seq<Tree>)>, ghost indexA: seq<nat>, ghost indexB: seq<nat>,
             ghost steps: seq<nat>, ghost samples: seq<real>, ghost subs: seq<Trace>)
    requires Valid(s) && |point| < |s.bounds| && !(a.Leaf? && b.Leaf?)
    requires |pairs| > 0 && pairs[0].0.root == boundLow
    ensures r.Ok? ==> |r.value.0| < |r.value.1|
    ensures r.Ok? ==> forall i :: 0 <= i < |r.value.0| ==> r.value.0[i].root != boundLow
    ensures r.Ok? ==> indexA == Indices(pairs, |pairs|, PolysOf(RootsOf(a)))
    ensures r.Ok? ==> indexB == Indices(pairs, |pairs|, PolysOf(RootsOf(b)))
    ensures r.Ok? ==> |indexA| == |pairs| && |indexB| == |pairs|
    ensures r.Ok? ==> |steps| == |r.value.1| && |samples| == |r.value.1| && |subs| == |r.value.1|
    ensures r.Ok? ==> Grouped(steps, |pairs|)
    ensures r.Ok? ==> forall c :: 0 <= c < |r.value.1| ==>
      CellAt(s, point, r.value.1[c], a, b, op, indexA[steps[c]], indexB[steps[c]], samples[c], subs[c])
    decreases Size(a) + Size(b), 1
  {
    indexA, indexB, steps, samples, subs := [], [], [], [], [];
    var polyA := PolysOf(RootsOf(a));
    var polyB := PolysOf(RootsOf(b));
    var roots: seq<RootAt> := [];
    var cells: seq<Tree> := [];
    var iA := 0;
    var iB := 0;
    for k := 0 to |pairs|
      invariant iA == Advances(pairs, k, polyA) && iB == Advances(pairs, k, polyB)
      invariant indexA == Indices(pairs, k, polyA) && indexB == Indices(pairs, k, polyB)
      invariant |indexA| == k && |indexB| == k
      invariant forall i :: 0 <= i < |roots| ==> roots[i].root != boundLow
      invariant k == 0 ==> |roots| == 0 && |cells| == 0
      invariant k > 0 ==> |roots| < |cells|
      invariant |steps| == |cells| && |samples| == |cells| && |subs| == |cells|
      invariant Grouped(steps, k)
      invariant forall c :: 0 <= c < |cells| ==>
        CellAt(s, point, cells[c], a, b, op, indexA[steps[c]], indexB[steps[c]], samples[c], subs[c])
    {
      var l, h := pairs[k].0, pairs[k].1;
      var step;
      ghost var stepSamples, stepSubs;
      step, stepSamples, stepSubs := WalkStep(s, point, a, b, op, boundLow, l, h, iA, iB);
      if step.Err? {
        return Err(step.error), indexA, indexB, steps, samples, subs;
      }
      WalkCells(s, point, a, b, op, cells, step.value.1, indexA, indexB, iA, iB, steps, samples, subs,
                stepSamples, stepSubs, k);
      indexA, indexB := indexA + [iA], indexB + [iB];
      steps := steps + seq(|step.value.1|, _ => k);
      samples, subs := samples + stepSamples, subs + stepSubs;
      if h.poly in polyA {
        iA := iA + 1;
      }
      if h.poly in polyB {
        iB := iB + 1;
      }
      roots := roots + step.value.0;
      cells := cells + step.value.1;
    }
    return Ok((roots, cells)), indexA, indexB, steps, samples, subs;
  }

  /** One round of `Walk`: the cells of step k join the earlier ones, each with its step, sample and trace. */
  lemma WalkCells(s: Solver, point: seq<real>, a: Tree, b: Tree, op: (bool, bool) -> bool,
                  cells: seq<Tree>, more: seq<Tree>, indexA: seq<nat>, indexB: seq<nat>, iA: nat, iB: nat,
                  steps: seq<nat>, samples: seq<real>, subs: seq<Trace>, moreSamples: seq<real>, moreSubs: seq<Trace>, k: nat)
    requires Valid(s) && |indexA| == k && |indexB| == k && |more| > 0
    requires |steps| == |cells| && |samples| == |cells| && |subs| == |cells| && Grouped(steps, k)
    requires |moreSamples| == |more| && |moreSubs| == |more|
    requires forall c :: 0 <= c < |cells| ==>
      CellAt(s, point, cells[c], a, b, op, indexA[steps[c]], indexB[steps[c]], samples[c], subs[c])
    requires forall c :: 0 <= c < |more| ==> CellAt(s, point, more[c], a, b, op, iA, iB, moreSamples[c], moreSubs[c])
    ensures var steps1, indexA1, indexB1 := steps + seq(|more|, _ => k), indexA + [iA], indexB + [iB];
      && Grouped(steps1, k + 1)
      && forall c :: 0 <= c < |cells + more| ==>
           CellAt(s, point, (cells + more)[c], a, b, op, indexA1[steps1[c]], indexB1[steps1[c]],
                  (samples + moreSamples)[c], (subs + moreSubs)[c])
  {
    GroupedAppend(steps, k, |more|);
    var steps1, indexA1, indexB1 := steps + seq(|more|, _ => k), indexA + [iA], indexB + [iB];
    forall c | 0 <= c < |cells + more|
      ensures CellAt(s, point, (cells + more)[c], a, b, op, indexA1[steps1[c]], indexB1[steps1[c]],
                     (samples + moreSamples)[c], (subs + moreSubs)[c])
    {
      if c < |cells| {
        assert steps1[c] == steps[c] < k;
        assert indexA1[steps1[c]] == indexA[steps[c]] && indexB1[steps1[c]] == indexB[steps[c]];
        assert (cells + more)[c] == cells[c] && (samples + moreSamples)[c] == samples[c] && (subs + moreSubs)[c] == subs[c];
      } else {
        var j := c - |cells|;
        assert steps1[c] == k && indexA1[k] == iA && indexB1[k] == iB;
        assert (cells + more)[c] == more[j] && (samples + moreSamples)[c] == moreSamples[j] && (subs + moreSubs)[c] == moreSubs[j];
      }
    }
  }

  /**
   * One pair (l, h) of the walk of `apply`, with the cells at indices iA
   * and iB: two leaf cells give one leaf, storing l unless it is the box's
   * lower bound boundLow; other cells go to `ApplyGap`.
   */
  method WalkStep(s: Solver, point: seq<real>, a: Tree, b: Tree, op: (bool, bool) -> bool,
                  boundLow: RootValue, l: RootAt, h: RootAt, iA: int, iB: int)
    returns (r: Result<(seq<RootAt>, seq<Tree>)>, ghost samples: seq<real>, ghost subs: seq<Trace>)
    requires Valid(s) && |point| < |s.bounds| && !(a.Leaf? && b.Leaf?)
    ensures r.Ok? ==> |r.value.1| >= 1
    ensures r.Ok? ==> |r.value.0| + (if l.root == boundLow then 1 else 0) <= |r.value.1|
    ensures r.Ok? ==> forall i :: 0 <= i < |r.value.0| ==> r.value.0[i].root != boundLow
    ensures r.Ok? ==> |samples| == |r.value.1| && |subs| == |r.value.1|
    ensures r.Ok? ==> forall c :: 0 <= c < |r.value.1| ==> CellAt(s, point, r.value.1[c], a, b, op, iA, iB, samples[c], subs[c])
    ensures LookupCell(a, iA).Err? ==> r == Err(LookupCell(a, iA).error)
    ensures LookupCell(a, iA).Ok? && LookupCell(b, iB).Err? ==> r == Err(LookupCell(b, iB).error)
    decreases Size(a) + Size(b), 0
  {
    samples, subs := [], [];
    var childA := LookupCell(a, iA);
    if childA.Err? {
      return Err(childA.error), samples, subs;
    }
    var childB := LookupCell(b, iB);
    if childB.Err? {
      return Err(childB.error), samples, subs;
    }
    if childA.value.Leaf? && childB.value.Leaf? {
      var roots := if l.root != boundLow then [l] else [];
      samples, subs := [0.0], [Direct];
      return Ok((roots, [Leaf(|point| + 1, op(childA.value.member, childB.value.member))])), samples, subs;
    }
    LookupCellSmaller(a, iA);
    LookupCellSmaller(b, iB);
    r, samples, subs := ApplyGap(s, point, childA.value, childB.value, op, boundLow, l, h);
  }

  /**
   * The roots that split the gap (l, h) of `apply`: those, between l and h
   * at the point, of the polynomials where the cylinders of the two cells
   * intersect.
   */
  function GapRoots(s: Solver, point: seq<real>, childA: Tree, childB: Tree, l: RootAt, h: RootAt): Result<seq<RootAt>>
    requires Valid(s)
  {
    match LevelListOf(childA)
    case Err(e) => Err(e)
    case Ok(listA) =>
      match LevelListOf(childB)
      case Err(e) => Err(e)
      case Ok(listB) =>
        match IntersectCylinder(s, 0, listA, listB, 0)
        case Err(e) => Err(e)
        case Ok(intersection) => s.oracles.rootsBetween(intersection, point, l.root.value, h.root.value)
  }

  /**
   * The gap (l, h) of `apply` where a cell is not a leaf: the polynomials of
   * the two cells' cylinders are intersected, their roots between l and h
   * isolated at the point, and each resulting gap gets the cells applied
   * at its sample, every lower root but the box's lower bound being stored.
   */
  method ApplyGap(s: Solver, point: seq<real>, childA: Tree, childB: Tree, op: (bool, bool) -> bool,
                  boundLow: RootValue, l: RootAt, h: RootAt)
    returns (r: Result<(seq<RootAt>, seq<Tree>)>, ghost samples: seq<real>, ghost subs: seq<Trace>)
    requires Valid(s) && |point| < |s.bounds| && !(childA.Leaf? && childB.Leaf?)
    ensures r.Ok? ==> |r.value.1| >= 1
    ensures r.Ok? ==> |r.value.0| + (if l.root == boundLow then 1 else 0) <= |r.value.1|
    ensures r.Ok? ==> forall i :: 0 <= i < |r.value.0| ==> r.value.0[i].root != boundLow
    ensures r.Ok? ==> AllCombine(s, point, r.value.1, childA, childB, op, samples, subs)
    ensures GapRoots(s, point, childA, childB, l, h).Err? ==> r == Err(GapRoots(s, point, childA, childB, l, h).error)
    decreases Size(childA) + Size(childB), 4
  {
    var newRoots := GapRoots(s, point, childA, childB, l, h);
    if newRoots.Err? {
      return Err(newRoots.error), [], [];
    }
    var pairs := RootPairs(newRoots.value, l, h);
    assert pairs[0].0 == l;
    r, samples, subs := Split(s, point, childA, childB, op, boundLow, pairs);
  }

  /**
   * The loop of `ApplyGap` over the pairs that split its gap: the two cells
   * applied at each pair's sample, every lower root but boundLow stored.
   */
  method Split(s: Solver, point: seq<real>, childA: Tree, childB: Tree, op: (bool, bool) -> bool,
               boundLow: RootValue, pairs: seq<(RootAt, RootAt)>)
    returns (r: Result<(seq<RootAt>, seq<Tree>)>, ghost samples: seq<real>, ghost subs: seq<Trace>)
    requires Valid(s) && |pairs| > 0
    ensures r.Ok? ==> |r.value.1| == |pairs|
    ensures r.Ok? ==> |r.value.0| + (if pairs[0].0.root == boundLow then 1 else 0) <= |r.value.1|
    ensures r.Ok? ==> forall i :: 0 <= i < |r.value.0| ==> r.value.0[i].root != boundLow
    ensures r.Ok? ==> |samples| == |pairs| && |subs| == |pairs|
    ensures r.Ok? ==> forall k :: 0 <= k < |pairs| ==> Sample(pairs[k].0.root, pairs[k].1.root) == Ok(samples[k])
    ensures r.Ok? ==> AllCombine(s, point, r.value.1, childA, childB, op, samples, subs)
    decreases Size(childA) + Size(childB), 3
  {
    var roots: seq<RootAt> := [];
    var cells: seq<Tree> := [];
    samples, subs := [], [];
    for k := 0 to |pairs|
      invariant |cells| == k && |roots| <= k && |samples| == k && |subs| == k
      invariant k > 0 && pairs[0].0.root == boundLow ==> |roots| < k
      invariant forall i :: 0 <= i < |roots| ==> roots[i].root != boundLow
      invariant forall j :: 0 <= j < k ==> Sample(pairs[j].0.root, pairs[j].1.root) == Ok(samples[j])
      invariant AllCombine(s, point, cells, childA, childB, op, samples, subs)
    {
      var l, h := pairs[k].0, pairs[k].1;
      var sample := Sample(l.root, h.root);
      if sample.Err? {
        return Err(sample.error), samples, subs;
      }
      if l.root != boundLow {
        roots := roots + [l];
      }
      var child;
      ghost var trace;
      child, trace := Apply(s, point + [sample.value], childA, childB, op);
      if child.Err? {
        return Err(child.error), samples, subs;
      }
      SplitCells(s, point, childA, childB, op, cells, samples, subs, child.value, sample.value, trace);
      cells := cells + [child.value];
      samples, subs := samples + [sample.value], subs + [trace];
    }
    return Ok((roots, cells)), samples, subs;
  }

  /** Every cell is built from childA and childB at the point extended by its sample, as its trace says. */
  ghost predicate AllCombine(s: Solver, point: seq<real>, cells: seq<Tree>, childA: Tree, childB: Tree,
                             op: (bool, bool) -> bool, samples: seq<real>, subs: seq<Trace>)
    requires Valid(s)
  {
    && |samples| == |cells| && |subs| == |cells|
    && forall c :: 0 <= c < |cells| ==> Combines(s, point + [samples[c]], cells[c], childA, childB, op, subs[c])
  }

  /** One round of `Split`: the new cell joins the earlier ones with its sample and trace. */
  lemma SplitCells(s: Solver, point: seq<real>, childA: Tree, childB: Tree, op: (bool, bool) -> bool,
                   cells: seq<Tree>, samples: seq<real>, subs: seq<Trace>, child: Tree, sample: real, trace: Trace)
    requires Valid(s) && AllCombine(s, point, cells, childA, childB, op, samples, subs)
    requires Combines(s, point + [sample], child, childA, childB, op, trace)
    ensures AllCombine(s, point, cells + [child], childA, childB, op, samples + [sample], subs + [trace])
  {
    forall c | 0 <= c < |cells| + 1
      ensures Combines(s, point + [(samples + [sample])[c]], (cells + [child])[c], childA, childB, op, (subs + [trace])[c])
    {
      if c < |cells| {
        assert (samples + [sample])[c] == samples[c] && (cells + [child])[c] == cells[c] && (subs + [trace])[c] == subs[c];
      }
    }
  }

  /** The operation of `and`. */
  function Conj(x: bool, y: bool): bool {
    x && y
  }

  /**
   * `a and b`: `apply` with conjunction from the empty point, so every
   * leaf of the result holds the conjunction of the leaves of a and b it
   * is built from.
   */
  method And(s: Solver, a: Tree, b: Tree) returns (r: Result<Tree>, ghost trace: Trace)
    requires Valid(s)
    ensures a.Leaf? && b.Leaf? ==> r == Ok(Leaf(0, a.member && b.member))
    ensures r.Ok? && !(a.Leaf? && b.Leaf?) ==> Merged(s, 0, r.value)
    ensures r.Ok? ==> Combines(s, [], r.value, a, b, Conj, trace)
  {
    r, trace := Apply(s, [], a, b, Conj);
  }
}
