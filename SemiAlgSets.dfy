/**
 * `SemiAlgSet` and `SemiAlgSolver` (params/SemiAlgSet.kt): a semi-algebraic
 * set is a level graph together with the cells of its decomposition that
 * belong to the set. The set operations translate both operands into the
 * decomposition of the union graph by locating every sample point of its
 * walk in each operand, and then try to drop basis polynomials whose
 * removal merges no valid cell with an invalid one.
 *
 * The level-graph operations are the functions of a `Graphs` value over an
 * abstract graph type; `LevelGraphs` models them on the graph itself.
 */
module SemiAlgSets {
  import opened Wrappers
  import opened MPolys
  import opened Cells

  /** A sample point and the cell it samples, as a walk yields them. */
  type Sample = (seq<real>, Cell)

  /**
   * What a (lazy) walk yields: the samples produced before it stopped, and
   * the failure that stopped it, if any. A consumer that stops early never
   * meets the failure.
   */
  datatype Stream = Stream(samples: seq<Sample>, failure: Option<Error>)

  /** The level-graph operations the solver calls, for the solver's ring and box. */
  datatype Graphs<!G> = Graphs(
    /** `LevelGraph(basis, ring, bounds)` */
    create: seq<MPoly> -> Result<G>,
    /** `LevelGraph(graph1, graph2)` */
    union: (G, G) -> Result<G>,
    /** `graph - poly`, the exclusion constructor */
    exclude: (G, MPoly) -> Result<G>,
    /** `graph.basis` */
    basis: G -> seq<MPoly>,
    /** `graph.walkCells()` */
    walk: G -> Stream,
    /** `graph.cellForPoint(point)` */
    cellFor: (G, seq<real>) -> Result<Cell>)

  /** The data class: a graph and the valid cells of its decomposition. */
  datatype SemiAlgSet<G> = SemiAlgSet(graph: G, valid: set<Cell>)

  /** The solver with its two constant sets. */
  datatype Solver<!G> = Solver(graphs: Graphs<G>, dimensions: nat, zero: SemiAlgSet<G>, one: SemiAlgSet<G>)

  /** The cell of every dimension 0: the whole box when no polynomial cuts it. */
  function Origin(dimensions: nat): (c: Cell)
    ensures |c.coordinates| == dimensions && forall d :: 0 <= d < dimensions ==> c.coordinates[d] == 0
  {
    Cell(seq(dimensions, _ => 0))
  }

  /** The solver's construction: `zero` and `one` each over a fresh graph with no basis polynomial. */
  function MakeSolver<G>(graphs: Graphs<G>, dimensions: nat): Result<Solver<G>> {
    match graphs.create([])
    case Err(e) => Err(e)
    case Ok(g0) =>
      match graphs.create([])
      case Err(e) => Err(e)
      case Ok(g1) => Ok(Solver(graphs, dimensions, SemiAlgSet(g0, {}), SemiAlgSet(g1, {Origin(dimensions)})))
  }

  /** `isEmpty`: no valid cell. */
  predicate IsEmpty<G>(s: SemiAlgSet<G>) {
    s.valid == {}
  }

  /** `zero` is empty and `one` is not: it holds the single cell of the undivided box. */
  lemma ZeroAndOne<G>(graphs: Graphs<G>, dimensions: nat)
    requires MakeSolver(graphs, dimensions).Ok?
    ensures var solver := MakeSolver(graphs, dimensions).value;
      IsEmpty(solver.zero) && !IsEmpty(solver.one) && solver.one.valid == {Origin(dimensions)}
      && graphs.create([]) == Ok(solver.zero.graph) && graphs.create([]) == Ok(solver.one.graph)
  {
    var solver := MakeSolver(graphs, dimensions).value;
    assert Origin(dimensions) in solver.one.valid;
  }

  // ---------------------------------------------------------------------
  // Cells selected from a walk
  // ---------------------------------------------------------------------

  /** The cells of the first k samples the test keeps; the first failing test fails it. */
  function SelectFrom(samples: seq<Sample>, test: Sample -> Result<bool>, k: nat): Result<set<Cell>>
    requires k <= |samples|
    decreases k
  {
    if k == 0 then Ok({})
    else match SelectFrom(samples, test, k - 1)
      case Err(e) => Err(e)
      case Ok(cells) =>
        match test(samples[k - 1])
        case Err(e) => Err(e)
        case Ok(keep) => Ok(if keep then cells + {samples[k - 1].1} else cells)
  }

  /** `walk.mapNotNull { cell.takeIf { test } }.toSet()`: every sample is consumed, so a failing walk fails it. */
  function Select(walk: Stream, test: Sample -> Result<bool>): Result<set<Cell>> {
    match SelectFrom(walk.samples, test, |walk.samples|)
    case Err(e) => Err(e)
    case Ok(cells) => if walk.failure.Some? then Err(walk.failure.value) else Ok(cells)
  }

  /** A selection holds exactly the cells of the samples the test keeps, and succeeds exactly when every test does. */
  lemma {:induction false} SelectFromMeans(samples: seq<Sample>, test: Sample -> Result<bool>, k: nat)
    requires k <= |samples|
    ensures SelectFrom(samples, test, k).Ok? <==> forall i :: 0 <= i < k ==> test(samples[i]).Ok?
    ensures SelectFrom(samples, test, k).Ok? ==> forall c :: c in SelectFrom(samples, test, k).value <==>
      exists i :: 0 <= i < k && samples[i].1 == c && test(samples[i]) == Ok(true)
    decreases k
  {
    if k > 0 {
      SelectFromMeans(samples, test, k - 1);
    }
  }

  /** The whole selection: every test succeeds and the walk does not fail, and the kept cells are exactly those. */
  lemma SelectMeans(walk: Stream, test: Sample -> Result<bool>)
    ensures Select(walk, test).Ok? <==> walk.failure.None? && forall i :: 0 <= i < |walk.samples| ==> test(walk.samples[i]).Ok?
    ensures Select(walk, test).Ok? ==> forall c :: c in Select(walk, test).value <==>
      exists i :: 0 <= i < |walk.samples| && walk.samples[i].1 == c && test(walk.samples[i]) == Ok(true)
  {
    SelectFromMeans(walk.samples, test, |walk.samples|);
  }

  // ---------------------------------------------------------------------
  // Locating a point in an operand
  // ---------------------------------------------------------------------

  /** `graph.cellForPoint(point) in validCells` for one operand. */
  function Lands<G>(graphs: Graphs<G>, s: SemiAlgSet<G>, point: seq<real>): Result<bool> {
    match graphs.cellFor(s.graph, point)
    case Err(e) => Err(e)
    case Ok(c) => Ok(c in s.valid)
  }

  /** The test of `or`: this operand first, the other only when the point is not in this one. */
  function InEither<G>(graphs: Graphs<G>, a: SemiAlgSet<G>, b: SemiAlgSet<G>): Sample -> Result<bool> {
    (x: Sample) =>
      match Lands(graphs, a, x.0)
      case Err(e) => Err(e)
      case Ok(inA) => if inA then Ok(true) else Lands(graphs, b, x.0)
  }

  /** The test of `and`: this operand first, the other only when the point is in this one. */
  function InBoth<G>(graphs: Graphs<G>, a: SemiAlgSet<G>, b: SemiAlgSet<G>): Sample -> Result<bool> {
    (x: Sample) =>
      match Lands(graphs, a, x.0)
      case Err(e) => Err(e)
      case Ok(inA) => if !inA then Ok(false) else Lands(graphs, b, x.0)
  }

  // ---------------------------------------------------------------------
  // subset
  // ---------------------------------------------------------------------

  /**
   * `all { … }` from sample k on: a sample whose point lands in a valid
   * cell of a must land in a valid cell of b; the first that does not
   * stops the walk with false.
   */
  function AllLand<G>(graphs: Graphs<G>, a: SemiAlgSet<G>, b: SemiAlgSet<G>, walk: Stream, k: nat): Result<bool>
    requires k <= |walk.samples|
    decreases |walk.samples| - k
  {
    if k == |walk.samples| then (if walk.failure.Some? then Err(walk.failure.value) else Ok(true))
    else match Lands(graphs, a, walk.samples[k].0)
      case Err(e) => Err(e)
      case Ok(inA) =>
        if !inA then AllLand(graphs, a, b, walk, k + 1)
        else match Lands(graphs, b, walk.samples[k].0)
          case Err(e) => Err(e)
          case Ok(inB) => if inB then AllLand(graphs, a, b, walk, k + 1) else Ok(false)
  }

  /** `this subset that`, over the walk of the union graph. */
  function Subset<G>(graphs: Graphs<G>, a: SemiAlgSet<G>, b: SemiAlgSet<G>): Result<bool> {
    match graphs.union(a.graph, b.graph)
    case Err(e) => Err(e)
    case Ok(u) => AllLand(graphs, a, b, graphs.walk(u), 0)
  }

  /** The sample k lands in b whenever it lands in a, every location succeeding. */
  ghost predicate Covered<G>(graphs: Graphs<G>, a: SemiAlgSet<G>, b: SemiAlgSet<G>, walk: Stream, k: nat)
    requires k < |walk.samples|
  {
    Lands(graphs, a, walk.samples[k].0).Ok? &&
    (Lands(graphs, a, walk.samples[k].0) == Ok(true) ==> Lands(graphs, b, walk.samples[k].0) == Ok(true))
  }

  /**
   * The check from sample k on answers true exactly when the walk does not
   * fail and every later sample is covered, and answers false only at a
   * sample that lands in a but not in b.
   */
  lemma {:induction false} AllLandMeans<G>(graphs: Graphs<G>, a: SemiAlgSet<G>, b: SemiAlgSet<G>, walk: Stream, k: nat)
    requires k <= |walk.samples|
    ensures AllLand(graphs, a, b, walk, k) == Ok(true) <==>
      walk.failure.None? && forall i :: k <= i < |walk.samples| ==> Covered(graphs, a, b, walk, i)
    ensures AllLand(graphs, a, b, walk, k) == Ok(false) ==>
      exists i :: k <= i < |walk.samples| &&
        Lands(graphs, a, walk.samples[i].0) == Ok(true) && Lands(graphs, b, walk.samples[i].0) == Ok(false)
    decreases |walk.samples| - k
  {
    if k < |walk.samples| {
      AllLandMeans(graphs, a, b, walk, k + 1);
      if AllLand(graphs, a, b, walk, k) == Ok(true) {
        forall i | k <= i < |walk.samples|
          ensures Covered(graphs, a, b, walk, i)
        {
          if i == k {
            assert Covered(graphs, a, b, walk, k);
          }
        }
      }
      if walk.failure.None? && forall i :: k <= i < |walk.samples| ==> Covered(graphs, a, b, walk, i) {
        assert Covered(graphs, a, b, walk, k);
      }
    }
  }

  /** A set whose locations all succeed over a walk that does not fail is a subset of itself. */
  lemma SubsetReflexive<G>(graphs: Graphs<G>, a: SemiAlgSet<G>, u: G)
    requires graphs.union(a.graph, a.graph) == Ok(u) && graphs.walk(u).failure.None?
    requires forall i :: 0 <= i < |graphs.walk(u).samples| ==> Lands(graphs, a, graphs.walk(u).samples[i].0).Ok?
    ensures Subset(graphs, a, a) == Ok(true)
  {
    var walk := graphs.walk(u);
    forall i | 0 <= i < |walk.samples|
      ensures Covered(graphs, a, a, walk, i)
    {
      assert Lands(graphs, a, walk.samples[i].0).Ok?;
    }
    AllLandMeans(graphs, a, a, walk, 0);
  }

  // ---------------------------------------------------------------------
  // or, and, not, positive, negative
  // ---------------------------------------------------------------------

  /** `or` before `simplify`: the union graph with the cells whose sample lands in either operand. */
  function Disjunction<G>(graphs: Graphs<G>, a: SemiAlgSet<G>, b: SemiAlgSet<G>): Result<SemiAlgSet<G>> {
    match graphs.union(a.graph, b.graph)
    case Err(e) => Err(e)
    case Ok(u) =>
      match Select(graphs.walk(u), InEither(graphs, a, b))
      case Err(e) => Err(e)
      case Ok(cells) => Ok(SemiAlgSet(u, cells))
  }

  /** `and` before `simplify`: the union graph with the cells whose sample lands in both operands. */
  function Conjunction<G>(graphs: Graphs<G>, a: SemiAlgSet<G>, b: SemiAlgSet<G>): Result<SemiAlgSet<G>> {
    match graphs.union(a.graph, b.graph)
    case Err(e) => Err(e)
    case Ok(u) =>
      match Select(graphs.walk(u), InBoth(graphs, a, b))
      case Err(e) => Err(e)
      case Ok(cells) => Ok(SemiAlgSet(u, cells))
  }

  /**
   * A union cell belongs to the disjunction exactly when one of its
   * samples lands in a valid cell of either operand.
   */
  lemma DisjunctionMeans<G>(graphs: Graphs<G>, a: SemiAlgSet<G>, b: SemiAlgSet<G>)
    requires Disjunction(graphs, a, b).Ok?
    ensures graphs.union(a.graph, b.graph) == Ok(Disjunction(graphs, a, b).value.graph)
    ensures var walk := graphs.walk(Disjunction(graphs, a, b).value.graph);
      walk.failure.None? &&
      forall c :: c in Disjunction(graphs, a, b).value.valid <==>
        exists i :: 0 <= i < |walk.samples| && walk.samples[i].1 == c &&
          (Lands(graphs, a, walk.samples[i].0) == Ok(true) || Lands(graphs, b, walk.samples[i].0) == Ok(true))
  {
    var u := graphs.union(a.graph, b.graph).value;
    var walk := graphs.walk(u);
    var test := InEither(graphs, a, b);
    SelectMeans(walk, test);
    forall i | 0 <= i < |walk.samples|
      ensures test(walk.samples[i]) == Ok(true) <==>
        Lands(graphs, a, walk.samples[i].0) == Ok(true) || Lands(graphs, b, walk.samples[i].0) == Ok(true)
    {
      assert test(walk.samples[i]).Ok?;
    }
  }

  /** A union cell belongs to the conjunction exactly when one of its samples lands in valid cells of both operands. */
  lemma ConjunctionMeans<G>(graphs: Graphs<G>, a: SemiAlgSet<G>, b: SemiAlgSet<G>)
    requires Conjunction(graphs, a, b).Ok?
    ensures graphs.union(a.graph, b.graph) == Ok(Conjunction(graphs, a, b).value.graph)
    ensures var walk := graphs.walk(Conjunction(graphs, a, b).value.graph);
      walk.failure.None? &&
      forall c :: c in Conjunction(graphs, a, b).value.valid <==>
        exists i :: 0 <= i < |walk.samples| && walk.samples[i].1 == c &&
          Lands(graphs, a, walk.samples[i].0) == Ok(true) && Lands(graphs, b, walk.samples[i].0) == Ok(true)
  {
    var u := graphs.union(a.graph, b.graph).value;
    var walk := graphs.walk(u);
    var test := InBoth(graphs, a, b);
    SelectMeans(walk, test);
    forall i | 0 <= i < |walk.samples|
      ensures test(walk.samples[i]) == Ok(true) <==>
        Lands(graphs, a, walk.samples[i].0) == Ok(true) && Lands(graphs, b, walk.samples[i].0) == Ok(true)
    {
      assert test(walk.samples[i]).Ok?;
    }
  }

  /** The test of `not`: the sampled cell is not valid. */
  function Outside<G>(s: SemiAlgSet<G>): Sample -> Result<bool> {
    (x: Sample) => Ok(x.1 !in s.valid)
  }

  /** `not`: the same graph with the walked cells that are not valid. */
  function Not<G>(graphs: Graphs<G>, s: SemiAlgSet<G>): Result<SemiAlgSet<G>> {
    match Select(graphs.walk(s.graph), Outside(s))
    case Err(e) => Err(e)
    case Ok(cells) => Ok(SemiAlgSet(s.graph, cells))
  }

  /** The cells a walk visits. */
  ghost function Walked(walk: Stream): set<Cell> {
    set i | 0 <= i < |walk.samples| :: walk.samples[i].1
  }

  /** `not` keeps the graph and marks valid exactly the walked cells that were not; it fails only with the walk. */
  lemma NotMeans<G>(graphs: Graphs<G>, s: SemiAlgSet<G>)
    ensures Not(graphs, s).Ok? <==> graphs.walk(s.graph).failure.None?
    ensures Not(graphs, s).Ok? ==> Not(graphs, s).value == SemiAlgSet(s.graph, Walked(graphs.walk(s.graph)) - s.valid)
  {
    var walk := graphs.walk(s.graph);
    SelectMeans(walk, Outside(s));
    if Not(graphs, s).Ok? {
      forall c
        ensures c in Not(graphs, s).value.valid <==> c in Walked(walk) - s.valid
      {
        if c in Walked(walk) {
          var i :| 0 <= i < |walk.samples| && walk.samples[i].1 == c;
          assert Outside(s)(walk.samples[i]) == Ok(c !in s.valid);
        }
      }
    }
  }

  /** Negating twice keeps exactly the valid cells the walk visits. */
  lemma NotTwice<G>(graphs: Graphs<G>, s: SemiAlgSet<G>)
    requires graphs.walk(s.graph).failure.None?
    ensures Not(graphs, s).Ok? && Not(graphs, Not(graphs, s).value).Ok?
    ensures Not(graphs, Not(graphs, s).value).value == SemiAlgSet(s.graph, Walked(graphs.walk(s.graph)) * s.valid)
  {
    NotMeans(graphs, s);
    NotMeans(graphs, Not(graphs, s).value);
    var w := Walked(graphs.walk(s.graph));
    assert w - (w - s.valid) == w * s.valid;
  }

  /** The test of `positive` (`negative`): the polynomial's value at the sample point is above (below) zero. */
  function SignTest(poly: MPoly, above: bool): Sample -> Result<bool> {
    (x: Sample) => Ok(if above then MEval(poly, x.0) > 0.0 else MEval(poly, x.0) < 0.0)
  }

  /** `positive(poly)` (above) and `negative(poly)`: a graph of the one polynomial and the cells of the right sign. */
  function Signed<G>(graphs: Graphs<G>, poly: MPoly, above: bool): Result<SemiAlgSet<G>> {
    match graphs.create([poly])
    case Err(e) => Err(e)
    case Ok(g) =>
      match Select(graphs.walk(g), SignTest(poly, above))
      case Err(e) => Err(e)
      case Ok(cells) => Ok(SemiAlgSet(g, cells))
  }

  /** A cell is valid in `positive(poly)` exactly when one of its samples gives poly a positive value; likewise negative. */
  lemma SignedMeans<G>(graphs: Graphs<G>, poly: MPoly, above: bool)
    ensures Signed(graphs, poly, above).Ok? <==> graphs.create([poly]).Ok? && graphs.walk(graphs.create([poly]).value).failure.None?
    ensures Signed(graphs, poly, above).Ok? ==>
      var walk := graphs.walk(Signed(graphs, poly, above).value.graph);
      graphs.create([poly]) == Ok(Signed(graphs, poly, above).value.graph) &&
      forall c :: c in Signed(graphs, poly, above).value.valid <==>
        exists i :: 0 <= i < |walk.samples| && walk.samples[i].1 == c &&
          (if above then MEval(poly, walk.samples[i].0) > 0.0 else MEval(poly, walk.samples[i].0) < 0.0)
  {
    if graphs.create([poly]).Ok? {
      var walk := graphs.walk(graphs.create([poly]).value);
      SelectMeans(walk, SignTest(poly, above));
    }
  }

  /** When the walk visits each cell once, `positive(poly)` and `negative(poly)` share no valid cell. */
  lemma SignsDisjoint<G>(graphs: Graphs<G>, poly: MPoly)
    requires Signed(graphs, poly, true).Ok? && Signed(graphs, poly, false).Ok?
    requires var walk := graphs.walk(graphs.create([poly]).value);
      forall i, j :: 0 <= i < j < |walk.samples| ==> walk.samples[i].1 != walk.samples[j].1
    ensures Signed(graphs, poly, true).value.valid !! Signed(graphs, poly, false).value.valid
  {
    SignedMeans(graphs, poly, true);
    SignedMeans(graphs, poly, false);
    var walk := graphs.walk(graphs.create([poly]).value);
    forall c | c in Signed(graphs, poly, true).value.valid
      ensures c !in Signed(graphs, poly, false).value.valid
    {
      var i :| 0 <= i < |walk.samples| && walk.samples[i].1 == c && MEval(poly, walk.samples[i].0) > 0.0;
      assert forall j :: 0 <= j < |walk.samples| && walk.samples[j].1 == c ==> j == i;
    }
  }

  // ---------------------------------------------------------------------
  // simplify
  // ---------------------------------------------------------------------

  /**
   * The inner loop of `simplify` from check k on, for the graph without one
   * basis polynomial: each check sample is located in that graph, and its
   * cell joins `valid` or `invalid` as the sample's original cell was; a
   * cell found on the other side abandons the polynomial (None). Reaching
   * the end consumes the whole walk.
   */
  function Classify<G>(graphs: Graphs<G>, removed: G, checks: Stream, cells: set<Cell>, k: nat,
                       valid: set<Cell>, invalid: set<Cell>): Result<Option<set<Cell>>>
    requires k <= |checks.samples|
    decreases |checks.samples| - k
  {
    if k == |checks.samples| then (if checks.failure.Some? then Err(checks.failure.value) else Ok(Some(valid)))
    else match graphs.cellFor(removed, checks.samples[k].0)
      case Err(e) => Err(e)
      case Ok(c) =>
        if checks.samples[k].1 in cells then
          (if c in invalid then Ok(None) else Classify(graphs, removed, checks, cells, k + 1, valid + {c}, invalid))
        else
          (if c in valid then Ok(None) else Classify(graphs, removed, checks, cells, k + 1, valid, invalid + {c}))
  }

  /** The check sample i lands, in the graph g, in a cell of `marked` exactly when its original cell is valid. */
  ghost predicate Agrees<G>(graphs: Graphs<G>, g: G, marked: set<Cell>, checks: Stream, cells: set<Cell>, i: nat)
    requires i < |checks.samples|
  {
    graphs.cellFor(g, checks.samples[i].0).Ok? &&
    (graphs.cellFor(g, checks.samples[i].0).value in marked <==> checks.samples[i].1 in cells)
  }

  /**
   * An accepted removal: every check sample from k on lands in the reduced
   * graph, in the new valid set exactly when its original cell is valid,
   * and the sets collected so far stay on their sides.
   */
  lemma {:induction false} ClassifySound<G>(graphs: Graphs<G>, removed: G, checks: Stream, cells: set<Cell>, k: nat,
                                           valid: set<Cell>, invalid: set<Cell>, result: set<Cell>)
    requires k <= |checks.samples| && valid !! invalid
    requires Classify(graphs, removed, checks, cells, k, valid, invalid) == Ok(Some(result))
    ensures checks.failure.None? && valid <= result && invalid !! result
    ensures forall i :: k <= i < |checks.samples| ==> Agrees(graphs, removed, result, checks, cells, i)
    decreases |checks.samples| - k
  {
    if k < |checks.samples| {
      var c := graphs.cellFor(removed, checks.samples[k].0).value;
      if checks.samples[k].1 in cells {
        ClassifySound(graphs, removed, checks, cells, k + 1, valid + {c}, invalid, result);
      } else {
        ClassifySound(graphs, removed, checks, cells, k + 1, valid, invalid + {c}, result);
      }
      assert Agrees(graphs, removed, result, checks, cells, k);
    }
  }

  /** The sets collected over the first k check samples: the reduced cells of the valid ones and of the others. */
  ghost predicate Collected<G>(graphs: Graphs<G>, removed: G, checks: Stream, cells: set<Cell>, k: nat,
                               valid: set<Cell>, invalid: set<Cell>)
    requires k <= |checks.samples|
  {
    (forall i :: 0 <= i < k ==> graphs.cellFor(removed, checks.samples[i].0).Ok?) &&
    (forall c :: c in valid <==> exists i :: 0 <= i < k && checks.samples[i].1 in cells && graphs.cellFor(removed, checks.samples[i].0) == Ok(c)) &&
    (forall c :: c in invalid <==> exists i :: 0 <= i < k && checks.samples[i].1 !in cells && graphs.cellFor(removed, checks.samples[i].0) == Ok(c))
  }

  /** Two check samples, one originally valid and one not, that land in the same cell of the reduced graph. */
  ghost predicate Merges<G>(graphs: Graphs<G>, removed: G, checks: Stream, cells: set<Cell>) {
    exists i, j :: 0 <= i < |checks.samples| && 0 <= j < |checks.samples| &&
      checks.samples[i].1 in cells && checks.samples[j].1 !in cells &&
      graphs.cellFor(removed, checks.samples[i].0).Ok? &&
      graphs.cellFor(removed, checks.samples[i].0) == graphs.cellFor(removed, checks.samples[j].0)
  }

  /** A removal is abandoned only when a valid and an invalid cell merge in the reduced graph. */
  lemma {:induction false} ClassifyRejects<G>(graphs: Graphs<G>, removed: G, checks: Stream, cells: set<Cell>, k: nat,
                                             valid: set<Cell>, invalid: set<Cell>)
    requires k <= |checks.samples| && Collected(graphs, removed, checks, cells, k, valid, invalid)
    requires Classify(graphs, removed, checks, cells, k, valid, invalid) == Ok(None)
    ensures Merges(graphs, removed, checks, cells)
    decreases |checks.samples| - k
  {
    var x := checks.samples[k];
    var c := graphs.cellFor(removed, x.0).value;
    if x.1 in cells {
      if c in invalid {
        var j :| 0 <= j < k && checks.samples[j].1 !in cells && graphs.cellFor(removed, checks.samples[j].0) == Ok(c);
        assert checks.samples[k].1 in cells && graphs.cellFor(removed, checks.samples[k].0) == graphs.cellFor(removed, checks.samples[j].0);
      } else {
        CollectValid(graphs, removed, checks, cells, k, valid, invalid);
        ClassifyRejects(graphs, removed, checks, cells, k + 1, valid + {c}, invalid);
      }
    } else {
      if c in valid {
        var i :| 0 <= i < k && checks.samples[i].1 in cells && graphs.cellFor(removed, checks.samples[i].0) == Ok(c);
        assert checks.samples[i].1 in cells && graphs.cellFor(removed, checks.samples[i].0) == graphs.cellFor(removed, checks.samples[k].0);
      } else {
        CollectInvalid(graphs, removed, checks, cells, k, valid, invalid);
        ClassifyRejects(graphs, removed, checks, cells, k + 1, valid, invalid + {c});
      }
    }
  }

  /** One more originally valid check sample: its reduced cell joins the valid side. */
  lemma CollectValid<G>(graphs: Graphs<G>, removed: G, checks: Stream, cells: set<Cell>, k: nat,
                        valid: set<Cell>, invalid: set<Cell>)
    requires k < |checks.samples| && Collected(graphs, removed, checks, cells, k, valid, invalid)
    requires checks.samples[k].1 in cells && graphs.cellFor(removed, checks.samples[k].0).Ok?
    ensures Collected(graphs, removed, checks, cells, k + 1, valid + {graphs.cellFor(removed, checks.samples[k].0).value}, invalid)
  {
  }

  /** One more originally invalid check sample: its reduced cell joins the invalid side. */
  lemma CollectInvalid<G>(graphs: Graphs<G>, removed: G, checks: Stream, cells: set<Cell>, k: nat,
                          valid: set<Cell>, invalid: set<Cell>)
    requires k < |checks.samples| && Collected(graphs, removed, checks, cells, k, valid, invalid)
    requires checks.samples[k].1 !in cells && graphs.cellFor(removed, checks.samples[k].0).Ok?
    ensures Collected(graphs, removed, checks, cells, k + 1, valid, invalid + {graphs.cellFor(removed, checks.samples[k].0).value})
  {
  }

  /**
   * The outer loop of `simplify` from basis polynomial k on: each is
   * excluded from the current graph, and the reduced graph with the
   * collected valid cells replaces the current set when no cells merge.
   */
  function Simplifying<G>(graphs: Graphs<G>, original: SemiAlgSet<G>, basis: seq<MPoly>, k: nat,
                          simplified: SemiAlgSet<G>): Result<SemiAlgSet<G>>
    requires k <= |basis|
    decreases |basis| - k
  {
    if k == |basis| then Ok(simplified)
    else match graphs.exclude(simplified.graph, basis[k])
      case Err(e) => Err(e)
      case Ok(removed) =>
        match Classify(graphs, removed, graphs.walk(original.graph), original.valid, 0, {}, {})
        case Err(e) => Err(e)
        case Ok(None) => Simplifying(graphs, original, basis, k + 1, simplified)
        case Ok(Some(valid)) => Simplifying(graphs, original, basis, k + 1, SemiAlgSet(removed, valid))
  }

  /** What `simplify` returns: the basis polynomials of the original graph tried in order. */
  function Simplified<G>(graphs: Graphs<G>, s: SemiAlgSet<G>): Result<SemiAlgSet<G>> {
    Simplifying(graphs, s, graphs.basis(s.graph), 0, s)
  }

  /** Every check sample of the original walk lands in t's valid cells exactly when its original cell is valid. */
  ghost predicate Faithful<G>(graphs: Graphs<G>, t: SemiAlgSet<G>, original: SemiAlgSet<G>) {
    var checks := graphs.walk(original.graph);
    forall i :: 0 <= i < |checks.samples| ==> Agrees(graphs, t.graph, t.valid, checks, original.valid, i)
  }

  /** Each accepted step keeps faithfulness, so the result is the original or faithful to it. */
  lemma {:induction false} SimplifyingFaithful<G>(graphs: Graphs<G>, original: SemiAlgSet<G>, basis: seq<MPoly>, k: nat,
                                                 simplified: SemiAlgSet<G>)
    requires k <= |basis| && Simplifying(graphs, original, basis, k, simplified).Ok?
    requires simplified == original || Faithful(graphs, simplified, original)
    ensures var t := Simplifying(graphs, original, basis, k, simplified).value;
      t == original || Faithful(graphs, t, original)
    decreases |basis| - k
  {
    if k < |basis| {
      var removed := graphs.exclude(simplified.graph, basis[k]).value;
      var checks := graphs.walk(original.graph);
      match Classify(graphs, removed, checks, original.valid, 0, {}, {})
      case Ok(None) =>
        SimplifyingFaithful(graphs, original, basis, k + 1, simplified);
      case Ok(Some(valid)) =>
        ClassifySound(graphs, removed, checks, original.valid, 0, {}, {}, valid);
        SimplifyingFaithful(graphs, original, basis, k + 1, SemiAlgSet(removed, valid));
    }
  }

  /**
   * `simplify` either returns the set unchanged or a set in whose graph
   * every sample point of the original walk lands in a valid cell exactly
   * when it sampled a valid cell of the original: dropping polynomials
   * never merges a valid cell with an invalid one.
   */
  lemma SimplifiedFaithful<G>(graphs: Graphs<G>, s: SemiAlgSet<G>)
    requires Simplified(graphs, s).Ok?
    ensures Simplified(graphs, s).value == s || Faithful(graphs, Simplified(graphs, s).value, s)
  {
    SimplifyingFaithful(graphs, s, graphs.basis(s.graph), 0, s);
  }

  /** The inner loop: the check samples located in the reduced graph one by one. */
  method CheckRemoval<G>(graphs: Graphs<G>, removed: G, original: SemiAlgSet<G>) returns (r: Result<Option<set<Cell>>>)
    ensures r == Classify(graphs, removed, graphs.walk(original.graph), original.valid, 0, {}, {})
  {
    var checks := graphs.walk(original.graph);
    var valid: set<Cell> := {};
    var invalid: set<Cell> := {};
    for k := 0 to |checks.samples|
      invariant Classify(graphs, removed, checks, original.valid, 0, {}, {}) ==
        Classify(graphs, removed, checks, original.valid, k, valid, invalid)
    {
      var point := checks.samples[k].0;
      var cell := checks.samples[k].1;
      var located := graphs.cellFor(removed, point);
      if located.Err? {
        return Err(located.error);
      }
      if cell in original.valid {
        if located.value in invalid {
          return Ok(None);
        }
        valid := valid + {located.value};
      } else {
        if located.value in valid {
          return Ok(None);
        }
        invalid := invalid + {located.value};
      }
    }
    if checks.failure.Some? {
      return Err(checks.failure.value);
    }
    return Ok(Some(valid));
  }

  /** `simplify`: the loop over the original basis, reassigning `simplified` after every accepted removal. */
  method Simplify<G>(graphs: Graphs<G>, s: SemiAlgSet<G>) returns (r: Result<SemiAlgSet<G>>)
    ensures r == Simplified(graphs, s)
  {
    var simplified := s;
    var basis := graphs.basis(s.graph);
    for k := 0 to |basis|
      invariant Simplified(graphs, s) == Simplifying(graphs, s, basis, k, simplified)
    {
      var removed := graphs.exclude(simplified.graph, basis[k]);
      if removed.Err? {
        return Err(removed.error);
      }
      var check := CheckRemoval(graphs, removed.value, s);
      if check.Err? {
        return Err(check.error);
      }
      if check.value.Some? {
        simplified := SemiAlgSet(removed.value, check.value.value);
      }
    }
    return Ok(simplified);
  }

  /** `or`: the disjunction over the union graph, simplified. */
  method Or<G>(graphs: Graphs<G>, a: SemiAlgSet<G>, b: SemiAlgSet<G>) returns (r: Result<SemiAlgSet<G>>)
    ensures Disjunction(graphs, a, b).Err? ==> r == Err(Disjunction(graphs, a, b).error)
    ensures Disjunction(graphs, a, b).Ok? ==> r == Simplified(graphs, Disjunction(graphs, a, b).value)
  {
    var joined := Disjunction(graphs, a, b);
    if joined.Err? {
      return Err(joined.error);
    }
    r := Simplify(graphs, joined.value);
  }

  /** `and`: `zero` when either operand has no valid cell, otherwise the conjunction over the union graph, simplified. */
  method And<G>(solver: Solver<G>, a: SemiAlgSet<G>, b: SemiAlgSet<G>) returns (r: Result<SemiAlgSet<G>>)
    ensures IsEmpty(a) || IsEmpty(b) ==> r == Ok(solver.zero)
    ensures !IsEmpty(a) && !IsEmpty(b) && Conjunction(solver.graphs, a, b).Err? ==>
      r == Err(Conjunction(solver.graphs, a, b).error)
    ensures !IsEmpty(a) && !IsEmpty(b) && Conjunction(solver.graphs, a, b).Ok? ==>
      r == Simplified(solver.graphs, Conjunction(solver.graphs, a, b).value)
  {
    if a.valid == {} || b.valid == {} {
      return Ok(solver.zero);
    }
    var met := Conjunction(solver.graphs, a, b);
    if met.Err? {
      return Err(met.error);
    }
    r := Simplify(solver.graphs, met.value);
  }
}
