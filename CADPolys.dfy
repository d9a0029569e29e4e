/**
 * `CADPolynomials` (params/CADPolynomials.kt): the polynomials of a bounded
 * cylindrical decomposition, one list per dimension. `make` starts from the
 * basis and the box's bound polynomials and projects one variable at a time;
 * every list keeps only polynomials whose interval value over the box
 * contains zero. The cell scans are those of `CellWalks`, with the isolation
 * precision 1/1000.
 */
module CADPolys {
  import opened Wrappers
  import opened Boxes
  import opened MPolys
  import opened Gathering
  import opened CellWalks

  /** `Rings.Q.parse("1/1000")`: the isolation precision of both scans. */
  const Precision: real := 0.001

  /** The data class: the box and one list of polynomials per dimension. */
  datatype CAD = CAD(bounds: Box, levels: seq<seq<MPoly>>)

  // ---------------------------------------------------------------------
  // make
  // ---------------------------------------------------------------------

  /** The bound polynomials x_d − low_d and x_d − high_d of the first k dimensions, in order. */
  function BoundPolys(n: nat, box: Box, k: nat): (r: seq<MPoly>)
    requires k <= |box| <= n
    ensures |r| == 2 * k
    ensures forall d :: 0 <= d < k ==>
      r[2 * d] == VariableMinus(n, d, box[d].low) && r[2 * d + 1] == VariableMinus(n, d, box[d].high)
    decreases k
  {
    if k == 0 then []
    else BoundPolys(n, box, k - 1) + [VariableMinus(n, k - 1, box[k - 1].low), VariableMinus(n, k - 1, box[k - 1].high)]
  }

  /**
   * `filter { hasZero }.normalize().filter { hasZero }`: the factors of the
   * chain members that can vanish in the box which can vanish there
   * themselves.
   */
  function Refine(alg: Algebra, chain: seq<MPoly>, box: Box): Result<seq<MPoly>> {
    match KeepZeros(chain, box)
    case Err(e) => Err(e)
    case Ok(kept) => KeepZeros(Normalize(alg, kept), box)
  }

  /** What the two filters keep: a factor that can vanish of a chain member that can vanish; a failing member fails it. */
  lemma RefineMeans(alg: Algebra, chain: seq<MPoly>, box: Box)
    ensures (exists c :: c in chain && CanHaveZero(c, box).Err?) ==> Refine(alg, chain, box).Err?
    ensures Refine(alg, chain, box).Ok? ==> forall q :: q in Refine(alg, chain, box).value <==>
      (exists c :: c in chain && CanHaveZero(c, box) == Ok(true) && q in alg.factors(c)) && CanHaveZero(q, box) == Ok(true)
  {
  }

  /** `flatMap { p -> Subresultants(p_d, p_d') }`: the discriminant chains one after the other. */
  function Discriminants(alg: Algebra, ps: seq<MPoly>, d: nat): (r: seq<MPoly>)
    ensures forall c :: c in r <==> exists p :: p in ps && c in alg.discriminantChain(p, d)
    decreases |ps|
  {
    if |ps| == 0 then []
    else
      var rest := Discriminants(alg, ps[..|ps| - 1], d);
      assert forall p :: p in ps <==> p in ps[..|ps| - 1] || p == ps[|ps| - 1];
      rest + alg.discriminantChain(ps[|ps| - 1], d)
  }

  /** The kept resultant factors of ps[i] and ps[j] in variable d (none for a pair that is not one). */
  function PairProjection(alg: Algebra, ps: seq<MPoly>, d: nat, box: Box): (nat, nat) -> Result<seq<MPoly>> {
    (i: nat, j: nat) => if i < j < |ps| then Refine(alg, alg.resultantChain(ps[i], ps[j], d), box) else Ok([])
  }

  /** The pairs (i, i + 1) … (i, j − 1), concatenated: `addAll` in the inner loop. */
  function Row<T>(pair: (nat, nat) -> Result<seq<T>>, i: nat, j: nat): Result<seq<T>>
    decreases j
  {
    if j <= i + 1 then Ok([])
    else Append(Row(pair, i, j - 1), pair(i, j - 1))
  }

  /** The rows of the first k indices up to n, concatenated: `projection2`. */
  function Rows<T>(pair: (nat, nat) -> Result<seq<T>>, n: nat, k: nat): Result<seq<T>>
    decreases k
  {
    if k == 0 then Ok([])
    else Append(Rows(pair, n, k - 1), Row(pair, k - 1, n))
  }

  lemma AppendNone<T>(r: Result<seq<T>>)
    ensures Append(r, Ok([])) == r
  {
    if r.Ok? {
      assert r.value + [] == r.value;
    }
  }

  /** The nested loop over the pairs i < j that builds `projection2`. */
  method Resultants(alg: Algebra, ps: seq<MPoly>, d: nat, box: Box) returns (r: Result<seq<MPoly>>)
    ensures r == Rows(PairProjection(alg, ps, d, box), |ps|, |ps|)
  {
    r := Ok([]);
    for i := 0 to |ps|
      invariant r == Rows(PairProjection(alg, ps, d, box), |ps|, i)
    {
      r := ResultantRow(alg, ps, d, box, i, r);
    }
  }

  /** The inner loop for one i: the pairs (i, j) for j from i + 1 on, appended to what came before. */
  method ResultantRow(alg: Algebra, ps: seq<MPoly>, d: nat, box: Box, i: nat, before: Result<seq<MPoly>>)
    returns (r: Result<seq<MPoly>>)
    requires i < |ps|
    ensures r == Append(before, Row(PairProjection(alg, ps, d, box), i, |ps|))
  {
    ghost var pair := PairProjection(alg, ps, d, box);
    AppendNone(before);
    r := before;
    for j := i + 1 to |ps|
      invariant r == Append(before, Row(pair, i, j))
    {
      var res := Refine(alg, alg.resultantChain(ps[i], ps[j], d), box);
      assert res == pair(i, j);
      RowExtend(pair, i, j, before, r);
      r := Append(r, res);
    }
  }

  /** Appending the pair (i, j) to a row up to j gives the row up to j + 1. */
  lemma RowExtend<T>(pair: (nat, nat) -> Result<seq<T>>, i: nat, j: nat, before: Result<seq<T>>, r: Result<seq<T>>)
    requires i < j && r == Append(before, Row(pair, i, j))
    ensures Append(r, pair(i, j)) == Append(before, Row(pair, i, j + 1))
  {
    AppendAssociates(before, Row(pair, i, j), pair(i, j));
  }

  /** A row holds exactly what its pairs hold, and succeeds exactly when they all do. */
  lemma {:induction false} RowMembers<T>(pair: (nat, nat) -> Result<seq<T>>, i: nat, j: nat)
    ensures Row(pair, i, j).Ok? <==> forall k :: i < k < j ==> pair(i, k).Ok?
    ensures Row(pair, i, j).Ok? ==> forall q :: q in Row(pair, i, j).value <==> exists k :: i < k < j && q in pair(i, k).value
    decreases j
  {
    if j > i + 1 {
      RowMembers(pair, i, j - 1);
    }
  }

  /** The rows hold exactly what the pairs i < j hold, and succeed exactly when they all do. */
  lemma {:induction false} RowsMembers<T>(pair: (nat, nat) -> Result<seq<T>>, n: nat, k: nat)
    ensures Rows(pair, n, k).Ok? <==> forall i, j :: 0 <= i < k && i < j < n ==> pair(i, j).Ok?
    ensures Rows(pair, n, k).Ok? ==> forall q :: q in Rows(pair, n, k).value <==>
      exists i, j :: 0 <= i < k && i < j < n && q in pair(i, j).value
    decreases k
  {
    if k > 0 {
      RowsMembers(pair, n, k - 1);
      RowMembers(pair, k - 1, n);
    }
  }

  /** One round of `make`: the distinct discriminant and resultant projections of a list in variable d. */
  function ProjectLevel(alg: Algebra, ps: seq<MPoly>, d: nat, box: Box): Result<seq<MPoly>> {
    match Refine(alg, Discriminants(alg, ps, d), box)
    case Err(e) => Err(e)
    case Ok(p1) =>
      match Rows(PairProjection(alg, ps, d, box), |ps|, |ps|)
      case Err(e) => Err(e)
      case Ok(p2) => Ok(Dedup(p1 + p2))
  }

  /**
   * A projected list holds exactly the kept discriminant factors and the
   * kept resultant factors of the pairs i < j, each once.
   */
  lemma ProjectLevelMeans(alg: Algebra, ps: seq<MPoly>, d: nat, box: Box)
    requires ProjectLevel(alg, ps, d, box).Ok?
    ensures var p1 := Refine(alg, Discriminants(alg, ps, d), box);
      && p1.Ok?
      && (forall i, j :: 0 <= i < j < |ps| ==> PairProjection(alg, ps, d, box)(i, j).Ok?)
      && forall q :: q in ProjectLevel(alg, ps, d, box).value <==>
           q in p1.value || exists i, j :: 0 <= i < j < |ps| && q in PairProjection(alg, ps, d, box)(i, j).value
    ensures var r := ProjectLevel(alg, ps, d, box).value; forall i, j :: 0 <= i < j < |r| ==> r[i] != r[j]
  {
    RowsMembers(PairProjection(alg, ps, d, box), |ps|, |ps|);
  }

  /** Every polynomial of a projected list can vanish in the box. */
  lemma ProjectLevelZeros(alg: Algebra, ps: seq<MPoly>, d: nat, box: Box)
    requires ProjectLevel(alg, ps, d, box).Ok?
    ensures forall q :: q in ProjectLevel(alg, ps, d, box).value ==> CanHaveZero(q, box) == Ok(true)
  {
    var pair := PairProjection(alg, ps, d, box);
    RowsMembers(pair, |ps|, |ps|);
    RefineMeans(alg, Discriminants(alg, ps, d), box);
    var p1 := Refine(alg, Discriminants(alg, ps, d), box).value;
    var p2 := Rows(pair, |ps|, |ps|).value;
    forall q | q in ProjectLevel(alg, ps, d, box).value
      ensures CanHaveZero(q, box) == Ok(true)
    {
      assert q in p1 + p2;
      if q !in p1 {
        var i, j :| 0 <= i < j < |ps| && q in pair(i, j).value;
        assert pair(i, j) == Refine(alg, alg.resultantChain(ps[i], ps[j], d), box);
        RefineMeans(alg, alg.resultantChain(ps[i], ps[j], d), box);
      }
    }
  }

  /** One round of `make` as a function of the list and the variable. */
  function Projector(alg: Algebra, box: Box): (seq<MPoly>, nat) -> Result<seq<MPoly>> {
    (ps: seq<MPoly>, d: nat) => ProjectLevel(alg, ps, d, box)
  }

  /** The first list and the k projections after it, in the order `make` appends them. */
  function Tower<T>(project: (seq<T>, nat) -> Result<seq<T>>, first: seq<T>, k: nat): (r: Result<seq<seq<T>>>)
    ensures r.Ok? ==> |r.value| == k + 1 && r.value[0] == first
    decreases k
  {
    if k == 0 then Ok([first])
    else match Tower(project, first, k - 1)
      case Err(e) => Err(e)
      case Ok(ls) =>
        match project(ls[k - 1], k - 1)
        case Err(e) => Err(e)
        case Ok(next) => Ok(ls + [next])
  }

  /** List i + 1 of a tower is the projection of list i, in variable i. */
  ghost predicate Link<T>(project: (seq<T>, nat) -> Result<seq<T>>, ls: seq<seq<T>>, i: nat) {
    i + 1 < |ls| && project(ls[i], i) == Ok(ls[i + 1])
  }

  /** Each list of the tower is the projection of the one before it, in the variable of its index. */
  lemma {:induction false} TowerLinks<T>(project: (seq<T>, nat) -> Result<seq<T>>, first: seq<T>, k: nat)
    requires Tower(project, first, k).Ok?
    ensures forall i :: 0 <= i < k ==> Link(project, Tower(project, first, k).value, i)
    decreases k
  {
    if k > 0 {
      TowerLinks(project, first, k - 1);
      var ls := Tower(project, first, k - 1).value;
      var ls' := Tower(project, first, k).value;
      assert ls' == ls + [project(ls[k - 1], k - 1).value];
      forall i | 0 <= i < k
        ensures Link(project, ls', i)
      {
        if i < k - 1 {
          assert Link(project, ls, i);
        }
      }
    }
  }

  /** One round of the loop of `make`: projection1, then projection2, then both without repetitions. */
  method ProjectRound(alg: Algebra, last: seq<MPoly>, d: nat, bounds: Box) returns (r: Result<seq<MPoly>>)
    ensures r == ProjectLevel(alg, last, d, bounds)
  {
    var p1 := Refine(alg, Discriminants(alg, last, d), bounds);
    if p1.Err? {
      return Err(p1.error);
    }
    var p2 := Resultants(alg, last, d, bounds);
    if p2.Err? {
      return Err(p2.error);
    }
    return Ok(Dedup(p1.value + p2.value));
  }

  lemma TowerStep<T>(project: (seq<T>, nat) -> Result<seq<T>>, first: seq<T>, k: nat, ls: seq<seq<T>>)
    requires Tower(project, first, k) == Ok(ls)
    ensures |ls| == k + 1
    ensures project(ls[k], k).Err? ==> Tower(project, first, k + 1) == Err(project(ls[k], k).error)
    ensures project(ls[k], k).Ok? ==> Tower(project, first, k + 1) == Ok(ls + [project(ls[k], k).value])
  {
  }

  /** A failed round fails the whole tower with the same error. */
  lemma {:induction false} TowerErrorStays<T>(project: (seq<T>, nat) -> Result<seq<T>>, first: seq<T>, k: nat, n: nat)
    requires k <= n && Tower(project, first, k).Err?
    ensures Tower(project, first, n) == Tower(project, first, k)
    decreases n - k
  {
    if k < n {
      TowerErrorStays(project, first, k + 1, n);
    }
  }

  /** The first list: basis and bound polynomials whose interval value over the box contains zero. */
  function FirstLevel(ring: nat, basis: seq<MPoly>, box: Box): Result<seq<MPoly>>
    requires |box| <= ring
  {
    KeepZeros(basis + BoundPolys(ring, box, |box|), box)
  }

  /** The number of projection rounds: `0 until (dimensions − 1)`. */
  function Rounds(box: Box): nat {
    if |box| > 0 then |box| - 1 else 0
  }

  /**
   * What `make` computes: a failure for a ring with fewer variables than
   * the box has dimensions (the coder names one variable per dimension),
   * otherwise the tower of lists, reversed.
   */
  function MakeCAD(alg: Algebra, ring: nat, basis: seq<MPoly>, box: Box): Result<CAD> {
    if ring < |box| then Err(IllegalState("Unknown variable"))
    else match FirstLevel(ring, basis, box)
      case Err(e) => Err(e)
      case Ok(first) =>
        match Tower(Projector(alg, box), first, Rounds(box))
        case Err(e) => Err(e)
        case Ok(ls) => Ok(CAD(box, Reverse(ls)))
  }

  /** `make`: the first list, then one projection per round appended to the last list, then reversed. */
  method Make(alg: Algebra, ring: nat, basis: seq<MPoly>, bounds: Box) returns (r: Result<CAD>)
    ensures r == MakeCAD(alg, ring, basis, bounds)
  {
    if ring < |bounds| {
      return Err(IllegalState("Unknown variable"));
    }
    var first := KeepZeros(basis + BoundPolys(ring, bounds, |bounds|), bounds);
    if first.Err? {
      return Err(first.error);
    }
    var levels := BuildTower(alg, bounds, first.value);
    if levels.Err? {
      return Err(levels.error);
    }
    return Ok(CAD(bounds, Reverse(levels.value)));
  }

  /** One pass of the loop of `make`: the tower so far, extended by the projection of its last list. */
  method TowerRound(alg: Algebra, bounds: Box, first: seq<MPoly>, levels: seq<seq<MPoly>>, d: nat)
    returns (r: Result<seq<seq<MPoly>>>)
    requires Tower(Projector(alg, bounds), first, d) == Ok(levels)
    ensures r == Tower(Projector(alg, bounds), first, d + 1)
  {
    TowerStep(Projector(alg, bounds), first, d, levels);
    var next := ProjectRound(alg, levels[d], d, bounds);
    assert Projector(alg, bounds)(levels[d], d) == next;
    if next.Err? {
      return Err(next.error);
    }
    return Ok(levels + [next.value]);
  }

  /** The loop of `make`: `levels.add(...)` of the projection of `levels.last()` for d from 0. */
  method BuildTower(alg: Algebra, bounds: Box, first: seq<MPoly>) returns (r: Result<seq<seq<MPoly>>>)
    ensures r == Tower(Projector(alg, bounds), first, Rounds(bounds))
  {
    var levels := [first];
    var d := 0;
    while d < Rounds(bounds)
      invariant d <= Rounds(bounds)
      invariant Tower(Projector(alg, bounds), first, d) == Ok(levels)
    {
      var next := TowerRound(alg, bounds, first, levels, d);
      if next.Err? {
        TowerErrorStays(Projector(alg, bounds), first, d + 1, Rounds(bounds));
        return next;
      }
      levels := next.value;
      d := d + 1;
    }
    return Ok(levels);
  }

  /** In a reversed tower, list k is the projection of list k + 1, in variable |rev| − 2 − k. */
  ghost predicate BackLink<T>(project: (seq<T>, nat) -> Result<seq<T>>, rev: seq<seq<T>>, k: nat) {
    k + 1 < |rev| && project(rev[k + 1], |rev| - 2 - k) == Ok(rev[k])
  }

  /** Read backwards, each list of the tower is the projection of the list after it. */
  lemma ReversedLinks<T>(project: (seq<T>, nat) -> Result<seq<T>>, first: seq<T>, k: nat)
    requires Tower(project, first, k).Ok?
    ensures var rev := Reverse(Tower(project, first, k).value);
      && |rev| == k + 1 && rev[k] == first
      && forall i :: 0 <= i < |rev| - 1 ==> BackLink(project, rev, i)
  {
    var ls := Tower(project, first, k).value;
    TowerLinks(project, first, k);
    var rev := Reverse(ls);
    forall i | 0 <= i < |rev| - 1
      ensures BackLink(project, rev, i)
    {
      assert Link(project, ls, k - 1 - i);
      assert rev[i + 1] == ls[k - 1 - i] && rev[i] == ls[k - i];
    }
  }

  /** A successful `make` is the reversed tower over the first list, for a ring that names every dimension. */
  lemma MakeTower(alg: Algebra, ring: nat, basis: seq<MPoly>, box: Box)
    requires MakeCAD(alg, ring, basis, box).Ok?
    ensures |box| <= ring && FirstLevel(ring, basis, box).Ok?
    ensures Tower(Projector(alg, box), FirstLevel(ring, basis, box).value, Rounds(box)).Ok?
    ensures MakeCAD(alg, ring, basis, box).value ==
      CAD(box, Reverse(Tower(Projector(alg, box), FirstLevel(ring, basis, box).value, Rounds(box)).value))
  {
  }

  /**
   * The structure `make` returns: one list per dimension (one for a
   * zero-dimensional box), the last holding exactly the basis and bound
   * polynomials that can vanish in the box.
   */
  lemma MakeMeans(alg: Algebra, ring: nat, basis: seq<MPoly>, box: Box)
    requires MakeCAD(alg, ring, basis, box).Ok?
    ensures var cad := MakeCAD(alg, ring, basis, box).value;
      && cad.bounds == box
      && |cad.levels| == (if |box| > 0 then |box| else 1)
      && (forall p :: p in cad.levels[|cad.levels| - 1] <==>
            (p in basis || p in BoundPolys(ring, box, |box|)) && CanHaveZero(p, box) == Ok(true))
  {
    MakeTower(alg, ring, basis, box);
    var first := FirstLevel(ring, basis, box).value;
    ReversedLinks(Projector(alg, box), first, Rounds(box));
  }

  /** In the lists `make` returns, list k is the projection of list k + 1, in variable |levels| − 2 − k. */
  predicate Projected(alg: Algebra, box: Box, levels: seq<seq<MPoly>>, k: nat) {
    k + 1 < |levels| && ProjectLevel(alg, levels[k + 1], |levels| - 2 - k, box) == Ok(levels[k])
  }

  /** Lists linked by `make`'s rounds are linked by the projection itself. */
  lemma ProjectedLinks(alg: Algebra, box: Box, levels: seq<seq<MPoly>>)
    requires forall k :: 0 <= k < |levels| - 1 ==> BackLink(Projector(alg, box), levels, k)
    ensures forall k :: 0 <= k < |levels| - 1 ==> Projected(alg, box, levels, k)
  {
    forall k | 0 <= k < |levels| - 1
      ensures Projected(alg, box, levels, k)
    {
      BackLinkProjected(alg, box, levels, k);
    }
  }

  lemma BackLinkProjected(alg: Algebra, box: Box, levels: seq<seq<MPoly>>, k: nat)
    requires BackLink(Projector(alg, box), levels, k)
    ensures Projected(alg, box, levels, k)
  {
    ProjectorApplies(alg, box, levels[k + 1], |levels| - 2 - k, levels[k]);
  }

  lemma ProjectorApplies(alg: Algebra, box: Box, ps: seq<MPoly>, d: nat, r: seq<MPoly>)
    requires Projector(alg, box)(ps, d) == Ok(r)
    ensures ProjectLevel(alg, ps, d, box) == Ok(r)
  {
  }

  /** Each list but the last is the projection of the list after it, in the variable the reversal gives it. */
  lemma MakeLinks(alg: Algebra, ring: nat, basis: seq<MPoly>, box: Box, cad: CAD)
    requires MakeCAD(alg, ring, basis, box) == Ok(cad)
    ensures forall k :: 0 <= k < |cad.levels| - 1 ==> Projected(alg, box, cad.levels, k)
  {
    MakeTower(alg, ring, basis, box);
    ReversedLinks(Projector(alg, box), FirstLevel(ring, basis, box).value, Rounds(box));
    ProjectedLinks(alg, box, cad.levels);
  }

  /** Every list of the tower holds only polynomials that can vanish in the box, when the first does. */
  lemma TowerZeros(alg: Algebra, box: Box, first: seq<MPoly>, k: nat)
    requires Tower(Projector(alg, box), first, k).Ok?
    requires forall q :: q in first ==> CanHaveZero(q, box) == Ok(true)
    ensures var ls := Tower(Projector(alg, box), first, k).value;
      forall i, q :: 0 <= i < |ls| && q in ls[i] ==> CanHaveZero(q, box) == Ok(true)
  {
    var project := Projector(alg, box);
    TowerLinks(project, first, k);
    var ls := Tower(project, first, k).value;
    forall i, q | 0 <= i < |ls| && q in ls[i]
      ensures CanHaveZero(q, box) == Ok(true)
    {
      if i > 0 {
        LinkZeros(alg, box, ls, i - 1);
      }
    }
  }

  lemma LinkZeros(alg: Algebra, box: Box, ls: seq<seq<MPoly>>, i: nat)
    requires Link(Projector(alg, box), ls, i)
    ensures forall q :: q in ls[i + 1] ==> CanHaveZero(q, box) == Ok(true)
  {
    ProjectorApplies(alg, box, ls[i], i, ls[i + 1]);
    ProjectLevelZeros(alg, ls[i], i, box);
  }

  /** Every polynomial `make` keeps, in every list, can vanish in the box. */
  lemma MakeKeepsZeros(alg: Algebra, ring: nat, basis: seq<MPoly>, box: Box, cad: CAD)
    requires MakeCAD(alg, ring, basis, box) == Ok(cad)
    ensures forall k, q :: 0 <= k < |cad.levels| && q in cad.levels[k] ==> CanHaveZero(q, box) == Ok(true)
  {
    MakeTower(alg, ring, basis, box);
    var first := FirstLevel(ring, basis, box).value;
    var ls := Tower(Projector(alg, box), first, Rounds(box)).value;
    TowerZeros(alg, box, first, Rounds(box));
    ReversedInOrder(ls, cad.levels);
  }

  /** Every list of the reversal is a list of the original. */
  lemma ReversedInOrder<T>(ls: seq<seq<T>>, rev: seq<seq<T>>)
    requires rev == Reverse(ls)
    ensures forall k :: 0 <= k < |rev| ==> rev[k] in ls
  {
    forall k | 0 <= k < |rev|
      ensures rev[k] in ls
    {
      assert rev[k] == ls[|ls| - 1 - k];
    }
  }

  // ---------------------------------------------------------------------
  // cellForPoint and walkCells
  // ---------------------------------------------------------------------

  /** `result.add(cell)` only for the dimensions where a cell was found. */
  function Found(cells: seq<Option<nat>>): (r: seq<nat>)
    ensures |r| <= |cells|
    ensures forall c :: c in r <==> Some(c) in cells
    decreases |cells|
  {
    if |cells| == 0 then []
    else
      var rest := Found(cells[..|cells| - 1]);
      var last := cells[|cells| - 1];
      assert forall o :: o in cells <==> o in cells[..|cells| - 1] || o == last;
      if last.Some? then rest + [last.value] else rest
  }

  function FoundCells(r: Result<seq<Option<nat>>>): Result<seq<nat>> {
    match r
    case Err(e) => Err(e)
    case Ok(cells) => Ok(Found(cells))
  }

  /**
   * `cellForPoint`: dimension d from 0 upward scans levels[d] against the
   * box's d-th interval and the point's d-th coordinate, although `make`
   * puts the list of the last variable first; the roots are not
   * deduplicated, and only found cells are recorded.
   */
  method CellForPoint(cad: CAD, alg: Algebra, point: seq<real>) returns (r: Result<seq<nat>>)
    ensures r == FoundCells(Located(Scan(alg, Precision, cad.bounds, false, ProperRoots), cad.levels, point, 0))
  {
    var cells := LocatePoint(Scan(alg, Precision, cad.bounds, false, ProperRoots), cad.levels, point);
    r := FoundCells(cells);
  }

  /** `walkCells`: the depth-first walk, last variable first, roots deduplicated. */
  method WalkCells(cad: CAD, alg: Algebra) returns (r: Result<seq<Visit>>)
    ensures r == Walk(Scan(alg, Precision, cad.bounds, true, ProperRoots), LastVariableFirst, Entry(cad.levels, [], []))
  {
    r := CellWalks.WalkCells(Scan(alg, Precision, cad.bounds, true, ProperRoots), LastVariableFirst, Entry(cad.levels, [], []));
  }
}
