/**
 * `LevelGraph` (params/LevelGraph.kt): a dependency graph of polynomials
 * sorted by level, the index of the highest variable a polynomial uses.
 * Inserting a polynomial of level l > 0 also inserts its projections (the
 * factors of its discriminant, and of its resultant with every other
 * polynomial of level l) that can vanish in the box, each recorded as a
 * dependency; removing a polynomial removes the dependencies it is a
 * source of, and then every target that no dependency is left to justify.
 */
module LevelGraphs {
  import opened Wrappers
  import opened Intervals
  import opened Boxes
  import opened MPolys
  import opened CellWalks
  import opened Cells
  import opened Gathering

  // ---------------------------------------------------------------------
  // Levels
  // ---------------------------------------------------------------------

  /** The highest variable below k with a positive degree, −1 when there is none. */
  function LevelBelow(p: MPoly, k: nat): (r: int)
    ensures -1 <= r < k
    ensures r >= 0 ==> DegreeIn(p, r) > 0
    ensures forall d :: r < d < k ==> DegreeIn(p, d) == 0
    decreases k
  {
    if k == 0 then -1
    else if DegreeIn(p, k - 1) > 0 then k - 1
    else LevelBelow(p, k - 1)
  }

  /**
   * `MPoly.level`: the highest variable index with a positive degree, and
   * −1 for a constant.
   */
  function Level(p: MPoly): (r: int)
    ensures -1 <= r < p.nVariables
    ensures r >= 0 ==> DegreeIn(p, r) > 0
    ensures forall d :: r < d < p.nVariables ==> DegreeIn(p, d) == 0
  {
    LevelBelow(p, p.nVariables)
  }

  /** The three facts determine the level. */
  lemma LevelUnique(p: MPoly, r: int)
    requires -1 <= r < p.nVariables
    requires r >= 0 ==> DegreeIn(p, r) > 0
    requires forall d :: r < d < p.nVariables ==> DegreeIn(p, d) == 0
    ensures r == Level(p)
  {
  }

  /** The loop of `level`: variables from the last one down, the first with a positive degree. */
  method LevelOf(p: MPoly) returns (r: int)
    ensures r == Level(p)
  {
    var d := p.nVariables;
    while d > 0
      invariant d <= p.nVariables
      invariant forall e: nat :: d <= e < p.nVariables ==> DegreeIn(p, e) == 0
    {
      if DegreeIn(p, d - 1) > 0 {
        LevelUnique(p, d - 1);
        return d - 1;
      }
      d := d - 1;
    }
    LevelUnique(p, -1);
    return -1;
  }

  /** The bound polynomial x_d − c has level d. */
  lemma BoundLevel(n: nat, d: nat, c: real)
    requires d < n
    ensures Level(VariableMinus(n, d, c)) == d
  {
    var p := VariableMinus(n, d, c);
    assert p.terms[0].exponents == UnitExponents(n, d);
    assert p.terms[1].exponents == ZeroExponents(n);
    assert ExponentAt(p.terms[0], d) == 1;
    forall e | d < e < n
      ensures DegreeIn(p, e) == 0
    {
      assert ExponentAt(p.terms[0], e) == 0 && ExponentAt(p.terms[1], e) == 0;
    }
    LevelUnique(p, d);
  }

  /** `isConstant`: no variable occurs with a positive degree. */
  predicate IsConstant(p: MPoly) {
    Level(p) == -1
  }

  // ---------------------------------------------------------------------
  // Dependencies
  // ---------------------------------------------------------------------

  /** Why a polynomial is in the graph: a discriminant of one source, or a resultant of two. */
  datatype Dependency =
    | Single(source: MPoly, target: MPoly)
    | Combination(source1: MPoly, source2: MPoly, target: MPoly)

  /** `checkDiscriminant`: this is the discriminant dependency of `source`. */
  predicate CheckDiscriminant(dep: Dependency, source: MPoly) {
    dep.Single? && dep.source == source
  }

  /** `checkCombination`: this is the resultant dependency of the two sources, in either order. */
  predicate CheckCombination(dep: Dependency, source1: MPoly, source2: MPoly) {
    && dep.Combination?
    && ((dep.source1 == source1 && dep.source2 == source2) || (dep.source1 == source2 && dep.source2 == source1))
  }

  /** `isDependencyOf`: poly is one of the dependency's sources. */
  predicate IsDependencyOf(dep: Dependency, poly: MPoly) {
    match dep
    case Single(source, _) => source == poly
    case Combination(source1, source2, _) => source1 == poly || source2 == poly
  }

  function Sources(dep: Dependency): set<MPoly> {
    match dep
    case Single(source, _) => {source}
    case Combination(source1, source2, _) => {source1, source2}
  }

  /**
   * A Single answers only the discriminant query of its own source and
   * never a combination query; a Combination never answers a
   * discriminant query and answers combination queries symmetrically.
   */
  lemma DependencyQueries(dep: Dependency, a: MPoly, b: MPoly)
    ensures dep.Single? ==> (CheckDiscriminant(dep, a) <==> dep.source == a) && !CheckCombination(dep, a, b)
    ensures dep.Combination? ==> !CheckDiscriminant(dep, a)
    ensures CheckCombination(dep, a, b) <==> CheckCombination(dep, b, a)
    ensures CheckCombination(dep, a, b) ==> IsDependencyOf(dep, a) && IsDependencyOf(dep, b)
    ensures IsDependencyOf(dep, a) <==> a in Sources(dep)
  {
  }

  /** The dependency recorded for a projection of `source` (with `other` for a resultant). */
  function MakeDependency(source: MPoly, other: Option<MPoly>, target: MPoly): (r: Dependency)
    ensures Sources(r) == {source} + (if other.Some? then {other.value} else {}) && r.target == target
  {
    match other
    case None => Single(source, target)
    case Some(o) => Combination(source, o, target)
  }

  /** `filter { it.isDependencyOf(poly) }`. */
  function DependenciesOf(deps: seq<Dependency>, poly: MPoly): (r: seq<Dependency>)
    ensures forall dep :: dep in r <==> dep in deps && IsDependencyOf(dep, poly)
    decreases |deps|
  {
    if |deps| == 0 then []
    else
      var rest := DependenciesOf(deps[..|deps| - 1], poly);
      var last := deps[|deps| - 1];
      assert forall dep :: dep in deps <==> dep in deps[..|deps| - 1] || dep == last;
      if IsDependencyOf(last, poly) then rest + [last] else rest
  }

  /** `removeIf { it.isDependencyOf(poly) }`. */
  function Independent(deps: seq<Dependency>, poly: MPoly): (r: seq<Dependency>)
    ensures forall dep :: dep in r <==> dep in deps && !IsDependencyOf(dep, poly)
    decreases |deps|
  {
    if |deps| == 0 then []
    else
      var rest := Independent(deps[..|deps| - 1], poly);
      var last := deps[|deps| - 1];
      assert forall dep :: dep in deps <==> dep in deps[..|deps| - 1] || dep == last;
      if IsDependencyOf(last, poly) then rest else rest + [last]
  }

  // ---------------------------------------------------------------------
  // Projections
  // ---------------------------------------------------------------------

  /** `filter { !it.isConstant }`. */
  function NonConstant(ps: seq<MPoly>): (r: seq<MPoly>)
    ensures forall p :: p in r <==> p in ps && !IsConstant(p)
    decreases |ps|
  {
    if |ps| == 0 then []
    else
      var rest := NonConstant(ps[..|ps| - 1]);
      var last := ps[|ps| - 1];
      assert forall p :: p in ps <==> p in ps[..|ps| - 1] || p == last;
      if IsConstant(last) then rest else rest + [last]
  }

  /**
   * `chain.normalize().filter { it.canHaveZero(bounds) }`: the factors of
   * the non-constant members of a subresultant chain that can vanish in
   * the box.
   */
  function Projections(alg: Algebra, chain: seq<MPoly>, box: Box): (r: Result<seq<MPoly>>)
    ensures r.Ok? ==> forall q :: q in r.value <==>
      (exists p :: p in chain && !IsConstant(p) && q in alg.factors(p)) && CanHaveZero(q, box) == Ok(true)
  {
    KeepZeros(Normalize(alg, NonConstant(chain)), box)
  }

  /** The number of polynomials in the first k levels. */
  ghost function Total(ls: seq<set<MPoly>>, k: nat): nat
    requires k <= |ls|
    decreases k
  {
    if k == 0 then 0 else Total(ls, k - 1) + |ls[k - 1]|
  }

  lemma {:induction false} TotalRemove(ls: seq<set<MPoly>>, l: nat, p: MPoly, k: nat)
    requires l < |ls| && p in ls[l] && k <= |ls|
    ensures Total(ls[l := ls[l] - {p}], k) == Total(ls, k) - (if l < k then 1 else 0)
    decreases k
  {
    if k > 0 {
      TotalRemove(ls, l, p, k - 1);
    }
  }

  lemma {:induction false} TotalShrinks(small: seq<set<MPoly>>, large: seq<set<MPoly>>, k: nat)
    requires |small| == |large| && k <= |small|
    requires forall l :: 0 <= l < |small| ==> small[l] <= large[l]
    ensures Total(small, k) <= Total(large, k)
    decreases k
  {
    if k > 0 {
      TotalShrinks(small, large, k - 1);
      assert |small[k - 1]| <= |large[k - 1]| by {
        SubsetCard(small[k - 1], large[k - 1]);
      }
    }
  }

  lemma SubsetCard(a: set<MPoly>, b: set<MPoly>)
    requires a <= b
    ensures |a| <= |b|
  {
    assert b == a + (b - a);
  }

  // ---------------------------------------------------------------------
  // Graph states, as values
  // ---------------------------------------------------------------------

  /** p is on its own level of `levels`. */
  predicate StoredIn(levels: seq<set<MPoly>>, p: MPoly) {
    0 <= Level(p) < |levels| && p in levels[Level(p)]
  }

  /** n levels, every polynomial on its own level, every target's level a valid index. */
  ghost predicate ShapeOf(n: nat, levels: seq<set<MPoly>>, deps: seq<Dependency>) {
    && |levels| == n
    && (forall l, p :: 0 <= l < |levels| && p in levels[l] ==> Level(p) == l)
    && (forall dep :: dep in deps ==> 0 <= Level(dep.target) < n)
  }

  /** The sources of a dependency are present and have a positive level. */
  ghost predicate SourcesIn(levels: seq<set<MPoly>>, dep: Dependency) {
    forall s :: s in Sources(dep) ==> StoredIn(levels, s) && Level(s) > 0
  }

  /** The dependencies of deps1 that deps0 does not have keep their sources in `levels`. */
  ghost predicate NewSourcesIn(levels: seq<set<MPoly>>, deps0: seq<Dependency>, deps1: seq<Dependency>) {
    forall dep :: dep in deps1 && dep !in deps0 ==> SourcesIn(levels, dep)
  }

  /** Every level only gained polynomials. */
  ghost predicate LevelsGrow(levels0: seq<set<MPoly>>, levels1: seq<set<MPoly>>) {
    |levels1| == |levels0| && forall l :: 0 <= l < |levels0| ==> levels0[l] <= levels1[l]
  }

  /** Every level only lost polynomials. */
  ghost predicate LevelsShrink(levels0: seq<set<MPoly>>, levels1: seq<set<MPoly>>) {
    |levels1| == |levels0| && forall l :: 0 <= l < |levels0| ==> levels1[l] <= levels0[l]
  }

  lemma LevelsGrowTrans(a: seq<set<MPoly>>, b: seq<set<MPoly>>, c: seq<set<MPoly>>)
    requires LevelsGrow(a, b) && LevelsGrow(b, c)
    ensures LevelsGrow(a, c)
  {
  }

  lemma StoredGrows(a: seq<set<MPoly>>, b: seq<set<MPoly>>, p: MPoly)
    requires LevelsGrow(a, b) && StoredIn(a, p)
    ensures StoredIn(b, p)
  {
    assert a[Level(p)] <= b[Level(p)];
  }

  lemma SourcesGrow(a: seq<set<MPoly>>, b: seq<set<MPoly>>, dep: Dependency)
    requires LevelsGrow(a, b) && SourcesIn(a, dep)
    ensures SourcesIn(b, dep)
  {
    forall s | s in Sources(dep)
      ensures StoredIn(b, s)
    {
      StoredGrows(a, b, s);
    }
  }

  /** New dependencies of two successive steps keep their sources once the levels have grown. */
  lemma NewSourcesTrans(la: seq<set<MPoly>>, lb: seq<set<MPoly>>, da: seq<Dependency>, db: seq<Dependency>, dc: seq<Dependency>)
    requires NewSourcesIn(la, da, db) && NewSourcesIn(lb, db, dc) && LevelsGrow(la, lb)
    ensures NewSourcesIn(lb, da, dc)
  {
    forall dep | dep in dc && dep !in da
      ensures SourcesIn(lb, dep)
    {
      if dep in db {
        SourcesGrow(la, lb, dep);
      }
    }
  }

  /** Adding a polynomial on its own level keeps the shape. */
  lemma ShapeAdd(n: nat, levels: seq<set<MPoly>>, deps: seq<Dependency>, p: MPoly)
    requires ShapeOf(n, levels, deps) && 0 <= Level(p) < n
    ensures ShapeOf(n, levels[Level(p) := levels[Level(p)] + {p}], deps)
    ensures LevelsGrow(levels, levels[Level(p) := levels[Level(p)] + {p}])
    ensures StoredIn(levels[Level(p) := levels[Level(p)] + {p}], p)
  {
  }

  /** Growing levels keep every stored polynomial. */
  lemma StoredAllGrow(a: seq<set<MPoly>>, b: seq<set<MPoly>>)
    requires LevelsGrow(a, b)
    ensures forall p :: StoredIn(a, p) ==> StoredIn(b, p)
  {
    forall p | StoredIn(a, p)
      ensures StoredIn(b, p)
    {
      StoredGrows(a, b, p);
    }
  }

  // ---------------------------------------------------------------------
  // What an insertion records
  // ---------------------------------------------------------------------

  /** `dependencies.find { it.checkDiscriminant(poly) } != null`. */
  predicate HasDiscriminant(deps: seq<Dependency>, poly: MPoly) {
    exists dep :: dep in deps && CheckDiscriminant(dep, poly)
  }

  /** `dependencies.find { it.checkCombination(poly, other) } != null`. */
  predicate HasCombination(deps: seq<Dependency>, poly: MPoly, other: MPoly) {
    exists dep :: dep in deps && CheckCombination(dep, poly, other)
  }

  /** The first source of a dependency: the polynomial whose insertion recorded it. */
  function Owner(dep: Dependency): MPoly {
    match dep
    case Single(source, _) => source
    case Combination(source1, _, _) => source1
  }

  /** The second source of a dependency, if any. */
  function Partner(dep: Dependency): Option<MPoly> {
    match dep
    case Single(_, _) => None
    case Combination(_, source2, _) => Some(source2)
  }

  function Partners(others: set<MPoly>): set<Option<MPoly>> {
    set o | o in others :: Some(o)
  }

  /**
   * Every dependency of deps1 that deps0 lacks belongs to a polynomial
   * that was not stored in levels0, or was recorded for `source` with a
   * partner in `partners`.
   */
  ghost predicate NewOwners(levels0: seq<set<MPoly>>, deps0: seq<Dependency>, deps1: seq<Dependency>,
                            source: MPoly, partners: set<Option<MPoly>>) {
    forall dep :: dep in deps1 && dep !in deps0 ==>
      !StoredIn(levels0, Owner(dep)) || (Owner(dep) == source && Partner(dep) in partners)
  }

  /** Every projection of `chain` is stored and recorded as a dependency of source (with other). */
  ghost predicate ProjectedIn(levels: seq<set<MPoly>>, deps: seq<Dependency>, alg: Algebra, box: Box,
                              source: MPoly, other: Option<MPoly>, chain: seq<MPoly>) {
    var ps := Projections(alg, chain, box);
    ps.Ok? && forall p :: p in ps.value ==> StoredIn(levels, p) && MakeDependency(source, other, p) in deps
  }

  /**
   * The resultant projections of poly with every member of `others`,
   * except poly itself and those whose combination query deps0 answers,
   * are stored and recorded.
   */
  ghost predicate ResultantsIn(levels: seq<set<MPoly>>, deps: seq<Dependency>, alg: Algebra, box: Box,
                               deps0: seq<Dependency>, poly: MPoly, level: nat, others: set<MPoly>) {
    forall other :: other in others && other != poly && !HasCombination(deps0, poly, other) ==>
      ProjectedIn(levels, deps, alg, box, poly, Some(other), alg.resultantChain(poly, other, level))
  }

  /** Queries unanswered by the earlier deps0 stay unanswered by deps1, for stored polynomials that are no partners. */
  lemma ResultantsEarlier(l0: seq<set<MPoly>>, d0: seq<Dependency>, d1: seq<Dependency>,
                          levels: seq<set<MPoly>>, deps: seq<Dependency>, alg: Algebra, box: Box,
                          poly: MPoly, level: nat, partners: set<Option<MPoly>>, others: set<MPoly>, others0: set<MPoly>)
    requires ResultantsIn(levels, deps, alg, box, d1, poly, level, others)
    requires NewOwners(l0, d0, d1, poly, partners) && StoredIn(l0, poly)
    requires others0 <= others && forall o :: o in others0 ==> StoredIn(l0, o) && Some(o) !in partners
    ensures ResultantsIn(levels, deps, alg, box, d0, poly, level, others0)
  {
    forall other | other in others0 && other != poly && !HasCombination(d0, poly, other)
      ensures ProjectedIn(levels, deps, alg, box, poly, Some(other), alg.resultantChain(poly, other, level))
    {
      NoNewCombination(l0, d0, d1, poly, partners, other);
    }
  }

  lemma ProjectedGrows(l0: seq<set<MPoly>>, l1: seq<set<MPoly>>, d0: seq<Dependency>, d1: seq<Dependency>,
                       alg: Algebra, box: Box, source: MPoly, other: Option<MPoly>, chain: seq<MPoly>)
    requires LevelsGrow(l0, l1) && d0 <= d1 && ProjectedIn(l0, d0, alg, box, source, other, chain)
    ensures ProjectedIn(l1, d1, alg, box, source, other, chain)
  {
    var ps := Projections(alg, chain, box);
    forall p | p in ps.value
      ensures StoredIn(l1, p) && MakeDependency(source, other, p) in d1
    {
      StoredGrows(l0, l1, p);
      PrefixMember(d0, d1, MakeDependency(source, other, p));
    }
  }

  lemma PrefixMember(d0: seq<Dependency>, d1: seq<Dependency>, dep: Dependency)
    requires d0 <= d1 && dep in d0
    ensures dep in d1
  {
    var i :| 0 <= i < |d0| && d0[i] == dep;
    assert d1[i] == dep;
  }

  /** The records of two successive steps, the second starting from grown levels. */
  lemma NewOwnersTrans(la: seq<set<MPoly>>, lb: seq<set<MPoly>>, da: seq<Dependency>, db: seq<Dependency>,
                       dc: seq<Dependency>, source: MPoly, pa: set<Option<MPoly>>, pb: set<Option<MPoly>>)
    requires NewOwners(la, da, db, source, pa) && NewOwners(lb, db, dc, source, pb) && LevelsGrow(la, lb)
    requires da <= db
    ensures NewOwners(la, da, dc, source, pa + pb)
  {
    forall dep | dep in dc && dep !in da
      ensures !StoredIn(la, Owner(dep)) || (Owner(dep) == source && Partner(dep) in pa + pb)
    {
      if dep !in db && StoredIn(la, Owner(dep)) {
        StoredGrows(la, lb, Owner(dep));
      }
    }
  }

  /** Recording the dependency of a freshly inserted projection. */
  lemma RecordProjection(l0: seq<set<MPoly>>, l1: seq<set<MPoly>>, d0: seq<Dependency>, d1: seq<Dependency>,
                         source: MPoly, other: Option<MPoly>, p: MPoly)
    requires LevelsGrow(l0, l1) && d0 <= d1 && NewSourcesIn(l1, d0, d1) && NewOwners(l0, d0, d1, p, {})
    requires StoredIn(l1, source) && Level(source) > 0
    requires other.Some? ==> StoredIn(l1, other.value) && Level(other.value) > 0
    ensures var d2 := d1 + [MakeDependency(source, other, p)];
      d0 <= d2 && NewSourcesIn(l1, d0, d2) && NewOwners(l0, d0, d2, source, {other})
  {
    var dep := MakeDependency(source, other, p);
    var d2 := d1 + [dep];
    assert SourcesIn(l1, dep);
    assert Owner(dep) == source && Partner(dep) == other;
    forall d | d in d2 && d !in d0
      ensures SourcesIn(l1, d)
      ensures !StoredIn(l0, Owner(d)) || (Owner(d) == source && Partner(d) in {other})
    {
      if d != dep {
        assert d in d1;
      }
    }
  }

  /** Seen from before `source` was stored, everything recorded belongs to a fresh polynomial. */
  lemma NewOwnersFresh(l0: seq<set<MPoly>>, l1: seq<set<MPoly>>, d0: seq<Dependency>, d1: seq<Dependency>,
                       source: MPoly, partners: set<Option<MPoly>>, other: MPoly, partners1: set<Option<MPoly>>)
    requires NewOwners(l1, d0, d1, source, partners) && LevelsGrow(l0, l1) && !StoredIn(l0, source)
    ensures NewOwners(l0, d0, d1, other, partners1)
  {
    forall dep | dep in d1 && dep !in d0
      ensures !StoredIn(l0, Owner(dep))
    {
      if StoredIn(l0, Owner(dep)) {
        StoredGrows(l0, l1, Owner(dep));
      }
    }
  }

  /**
   * A combination query of two stored polynomials that deps0 does not
   * answer stays unanswered while only fresh polynomials and other
   * partners of poly record dependencies.
   */
  lemma NoNewCombination(l0: seq<set<MPoly>>, d0: seq<Dependency>, d1: seq<Dependency>,
                         poly: MPoly, partners: set<Option<MPoly>>, other: MPoly)
    requires NewOwners(l0, d0, d1, poly, partners) && !HasCombination(d0, poly, other)
    requires StoredIn(l0, poly) && StoredIn(l0, other) && Some(other) !in partners && other != poly
    ensures !HasCombination(d1, poly, other)
  {
  }

  /** No dependency has p as its target. */
  predicate Untargeted(deps: seq<Dependency>, p: MPoly) {
    forall dep :: dep in deps ==> dep.target != p
  }

  /**
   * q lost every dependency that targeted it: none of deps1 targets it,
   * and one of deps0 that did is gone.
   */
  ghost predicate Orphaned(q: MPoly, deps0: seq<Dependency>, deps1: seq<Dependency>) {
    Untargeted(deps1, q) && exists dep :: dep in deps0 && dep !in deps1 && dep.target == q
  }

  /** lists holds the members of each level, each once: `levels.map { it.toList() }`. */
  ghost predicate Enumerates(lists: seq<seq<MPoly>>, levels: seq<set<MPoly>>) {
    && |lists| == |levels|
    && (forall l :: 0 <= l < |levels| ==> forall p :: p in lists[l] <==> p in levels[l])
    && (forall l :: 0 <= l < |levels| ==> Distinct(lists[l]))
  }

  predicate Distinct(s: seq<MPoly>) {
    forall i, j :: 0 <= i < j < |s| ==> s[i] != s[j]
  }

  /** `toList()` of a set: its members in some order, each once. */
  method SetToSeq(a: set<MPoly>) returns (r: seq<MPoly>)
    ensures (forall p :: p in r <==> p in a) && Distinct(r)
  {
    r := [];
    var rest := a;
    while rest != {}
      invariant forall p :: p in a <==> p in r || p in rest
      invariant forall p :: p in r ==> p !in rest
      invariant Distinct(r)
      decreases |rest|
    {
      assert (forall y :: y !in rest) ==> rest == {};
      var p :| p in rest;
      r := r + [p];
      rest := rest - {p};
    }
  }

  /** `flatten()`: the lists one after the other. */
  function Flatten(lists: seq<seq<MPoly>>): (r: seq<MPoly>)
    ensures forall p :: p in r <==> exists l :: 0 <= l < |lists| && p in lists[l]
    decreases |lists|
  {
    if |lists| == 0 then []
    else
      var init := lists[..|lists| - 1];
      assert forall l :: 0 <= l < |lists| - 1 ==> lists[l] == init[l];
      Flatten(init) + lists[|lists| - 1]
  }

  /** `filter { poly -> dependencies.all { it.target != poly } }`. */
  function KeepUntargeted(ps: seq<MPoly>, deps: seq<Dependency>): (r: seq<MPoly>)
    ensures forall p :: p in r <==> p in ps && Untargeted(deps, p)
    ensures |r| <= |ps|
    decreases |ps|
  {
    if |ps| == 0 then []
    else
      var rest := KeepUntargeted(ps[..|ps| - 1], deps);
      var last := ps[|ps| - 1];
      assert forall p :: p in ps <==> p in ps[..|ps| - 1] || p == last;
      if Untargeted(deps, last) then rest + [last] else rest
  }

  lemma DistinctConcat(a: seq<MPoly>, b: seq<MPoly>)
    requires Distinct(a) && Distinct(b) && forall x :: x in a ==> x !in b
    ensures Distinct(a + b)
  {
    var c := a + b;
    forall i, j | 0 <= i < j < |c|
      ensures c[i] != c[j]
    {
      if j < |a| {
        assert c[i] == a[i] && c[j] == a[j];
      } else if i >= |a| {
        assert c[i] == b[i - |a|] && c[j] == b[j - |a|];
      } else {
        assert c[i] == a[i] && c[j] == b[j - |a|];
        assert a[i] in a && b[j - |a|] in b;
      }
    }
  }

  /** The lists of distinct levels flatten to a list without repetitions. */
  lemma {:induction false} FlattenDistinct(lists: seq<seq<MPoly>>, levels: seq<set<MPoly>>)
    requires |lists| == |levels|
    requires forall l :: 0 <= l < |levels| ==> forall p :: p in lists[l] <==> p in levels[l]
    requires forall l :: 0 <= l < |levels| ==> Distinct(lists[l])
    requires forall l, p :: 0 <= l < |levels| && p in levels[l] ==> Level(p) == l
    ensures Distinct(Flatten(lists))
    ensures forall p :: p in Flatten(lists) ==> Level(p) < |lists|
    decreases |lists|
  {
    if |lists| > 0 {
      var k := |lists| - 1;
      var init := lists[..k];
      assert forall l :: 0 <= l < k ==> init[l] == lists[l] && levels[..k][l] == levels[l];
      FlattenDistinct(init, levels[..k]);
      forall x | x in Flatten(init)
        ensures x !in lists[k]
      {
        assert Level(x) < k;
      }
      DistinctConcat(Flatten(init), lists[k]);
    }
  }

  lemma {:induction false} KeepUntargetedDistinct(ps: seq<MPoly>, deps: seq<Dependency>)
    requires Distinct(ps)
    ensures Distinct(KeepUntargeted(ps, deps))
    decreases |ps|
  {
    if |ps| > 0 {
      var init := ps[..|ps| - 1];
      var last := ps[|ps| - 1];
      assert Distinct(init) by {
        forall i, j | 0 <= i < j < |init|
          ensures init[i] != init[j]
        {
          assert init[i] == ps[i] && init[j] == ps[j];
        }
      }
      KeepUntargetedDistinct(init, deps);
      if Untargeted(deps, last) {
        assert last !in init;
        DistinctConcat(KeepUntargeted(init, deps), [last]);
      }
    }
  }

  /** The well-formed graph states over n dimensions. */
  ghost predicate ValidOf(n: nat, levels: seq<set<MPoly>>, deps: seq<Dependency>) {
    ShapeOf(n, levels, deps) && forall dep :: dep in deps ==> SourcesIn(levels, dep)
  }

  ghost predicate DepsShrink(deps0: seq<Dependency>, deps1: seq<Dependency>) {
    forall dep :: dep in deps1 ==> dep in deps0
  }

  /** Every polynomial that went from levels0 to levels1, except `except`, was orphaned between deps0 and deps1. */
  ghost predicate OrphansSince(levels0: seq<set<MPoly>>, levels1: seq<set<MPoly>>,
                               deps0: seq<Dependency>, deps1: seq<Dependency>, except: MPoly) {
    forall l, q :: 0 <= l < |levels1| && l < |levels0| && q in levels0[l] && q !in levels1[l] && q != except ==>
      Orphaned(q, deps0, deps1)
  }

  /**
   * Every dependency of deps0 that deps1 lacks, except those still
   * `pending`, has had its target removed from `levels` if no dependency
   * of deps1 targets it any more.
   */
  ghost predicate CascadeDone(deps0: seq<Dependency>, deps1: seq<Dependency>, levels: seq<set<MPoly>>,
                              pending: seq<Dependency>) {
    forall dep :: dep in deps0 && dep !in deps1 && dep !in pending && Untargeted(deps1, dep.target) ==>
      !StoredIn(levels, dep.target)
  }

  /**
   * One round of the loop of `remove`: `dropped` leaves the pending ones,
   * and the nested removal (if any) finished its own cascade.
   */
  lemma CascadeStep(d0: seq<Dependency>, d1: seq<Dependency>, d2: seq<Dependency>,
                    l1: seq<set<MPoly>>, l2: seq<set<MPoly>>, dropped: Dependency, pending: seq<Dependency>)
    requires DepsShrink(d1, d2) && LevelsShrink(l1, l2)
    requires CascadeDone(d0, d1, l1, [dropped] + pending) && CascadeDone(d1, d2, l2, [])
    requires Untargeted(d1, dropped.target) ==> !StoredIn(l2, dropped.target)
    ensures CascadeDone(d0, d2, l2, pending)
  {
    forall dep | dep in d0 && dep !in d2 && dep !in pending && Untargeted(d2, dep.target)
      ensures !StoredIn(l2, dep.target)
    {
      if dep in d1 {
        assert dep !in [];
      } else if !Untargeted(d1, dep.target) {
        var e :| e in d1 && e.target == dep.target;
        assert e !in d2 && e !in [];
      } else if dep != dropped {
        assert dep !in [dropped] + pending;
      }
    }
  }

  /** A finished cascade over more dependencies is one over fewer. */
  lemma CascadeFrom(deps0: seq<Dependency>, sub: seq<Dependency>, deps1: seq<Dependency>, levels: seq<set<MPoly>>)
    requires CascadeDone(deps0, deps1, levels, []) && forall dep :: dep in sub ==> dep in deps0
    ensures CascadeDone(sub, deps1, levels, [])
  {
  }

  /** Taking out a polynomial of a positive level with the dependencies it is a source of keeps the graph well formed. */
  lemma DetachValid(n: nat, levels: seq<set<MPoly>>, deps: seq<Dependency>, poly: MPoly)
    requires ValidOf(n, levels, deps) && 0 <= Level(poly) < n
    ensures var l := Level(poly);
      ValidOf(n, levels[l := levels[l] - {poly}], if l > 0 then Independent(deps, poly) else deps)
  {
    var l := Level(poly);
    var levels1 := levels[l := levels[l] - {poly}];
    var deps1 := if l > 0 then Independent(deps, poly) else deps;
    DetachShape(n, levels, deps, deps1, poly);
    forall dep | dep in deps1
      ensures SourcesIn(levels1, dep)
    {
      assert SourcesIn(levels, dep);
      assert poly !in Sources(dep);
      forall s | s in Sources(dep)
        ensures StoredIn(levels1, s)
      {
        StoredAfterDetach(levels, poly, s);
      }
    }
  }

  lemma DetachShape(n: nat, levels: seq<set<MPoly>>, deps: seq<Dependency>, deps1: seq<Dependency>, poly: MPoly)
    requires ShapeOf(n, levels, deps) && 0 <= Level(poly) < n && DepsShrink(deps, deps1)
    ensures ShapeOf(n, levels[Level(poly) := levels[Level(poly)] - {poly}], deps1)
  {
  }

  lemma StoredAfterDetach(levels: seq<set<MPoly>>, poly: MPoly, s: MPoly)
    requires 0 <= Level(poly) < |levels| && StoredIn(levels, s) && s != poly
    ensures StoredIn(levels[Level(poly) := levels[Level(poly)] - {poly}], s)
  {
  }

  /** Right after taking out poly: only poly went, and it is gone. */
  lemma DetachFacts(levels: seq<set<MPoly>>, poly: MPoly, deps0: seq<Dependency>, deps1: seq<Dependency>)
    requires 0 <= Level(poly) < |levels|
    ensures var levels1 := levels[Level(poly) := levels[Level(poly)] - {poly}];
      && LevelsShrink(levels, levels1)
      && OrphansSince(levels, levels1, deps0, deps1, poly)
      && !StoredIn(levels1, poly)
  {
  }

  /** A further removal of t, the orphaned target of a dropped dependency, keeps the record of orphans. */
  lemma OrphansStep(l0: seq<set<MPoly>>, l1: seq<set<MPoly>>, l2: seq<set<MPoly>>,
                    d0: seq<Dependency>, d1: seq<Dependency>, d2: seq<Dependency>,
                    poly: MPoly, dropped: Dependency)
    requires LevelsShrink(l0, l1) && LevelsShrink(l1, l2) && DepsShrink(d0, d1) && DepsShrink(d1, d2)
    requires OrphansSince(l0, l1, d0, d1, poly) && OrphansSince(l1, l2, d1, d2, dropped.target)
    requires Untargeted(d1, dropped.target) && dropped in d0 && dropped !in d1
    ensures LevelsShrink(l0, l2) && DepsShrink(d0, d2) && OrphansSince(l0, l2, d0, d2, poly)
  {
    forall l, q | 0 <= l < |l2| && l < |l0| && q in l0[l] && q !in l2[l] && q != poly
      ensures Orphaned(q, d0, d2)
    {
      if q !in l1[l] {
        assert Orphaned(q, d0, d1);
        var dep :| dep in d0 && dep !in d1 && dep.target == q;
        assert dep !in d2;
      } else if q == dropped.target {
        assert dropped !in d2;
      } else {
        assert Orphaned(q, d1, d2);
        var dep :| dep in d1 && dep !in d2 && dep.target == q;
        assert dep in d0;
      }
    }
  }

  // ---------------------------------------------------------------------
  // The graph
  // ---------------------------------------------------------------------

  class LevelGraph {
    /** The number of variables of the polynomial ring. */
    var ring: nat
    var bounds: Box
    /** levels[l]: the polynomials of level l. */
    var levels: seq<set<MPoly>>
    var dependencies: seq<Dependency>

    predicate Stored(p: MPoly)
      reads this
    {
      StoredIn(levels, p)
    }

    ghost predicate Valid()
      reads this
    {
      ValidOf(|bounds|, levels, dependencies)
    }

    ghost function Count(): nat
      reads this
    {
      Total(levels, |levels|)
    }

    /** The graph before its `init` block: empty levels and no dependencies. */
    constructor Empty(ring: nat, bounds: Box)
      ensures this.ring == ring && this.bounds == bounds
      ensures levels == seq(|bounds|, _ => {}) && dependencies == []
      ensures Valid()
    {
      this.ring := ring;
      this.bounds := bounds;
      levels := seq(|bounds|, _ => {});
      dependencies := [];
    }

    /**
     * `insert`: a polynomial whose level is not an index of `levels`
     * fails; a present one changes nothing; otherwise it is added, and on
     * a level above 0 its missing discriminant projections and its missing
     * resultant projections with the other polynomials of its level are
     * inserted and recorded. Each nested insertion spends one unit of fuel.
     */
    method Insert(alg: Algebra, poly: MPoly, fuel: nat) returns (r: Result<()>)
      requires ShapeOf(|bounds|, levels, dependencies)
      modifies this
      ensures ring == old(ring) && bounds == old(bounds)
      ensures ShapeOf(|bounds|, levels, dependencies)
      ensures LevelsGrow(old(levels), levels) && old(dependencies) <= dependencies
      ensures NewSourcesIn(levels, old(dependencies), dependencies)
      ensures NewOwners(old(levels), old(dependencies), dependencies, poly, {})
      ensures r.Ok? ==> Stored(poly)
      ensures !(0 <= Level(poly) < |levels|) ==> r == Err(IndexOutOfBounds) && levels == old(levels)
      ensures old(Stored(poly)) ==> r == Ok(()) && levels == old(levels) && dependencies == old(dependencies)
      ensures Level(poly) == 0 < |levels| && !old(Stored(poly)) ==>
        r == Ok(()) && levels == old(levels)[0 := old(levels)[0] + {poly}] && dependencies == old(dependencies)
      ensures 0 < Level(poly) < |levels| && !old(Stored(poly)) && r.Ok? && !HasDiscriminant(old(dependencies), poly) ==>
        ProjectedIn(levels, dependencies, alg, bounds, poly, None, alg.discriminantChain(poly, Level(poly)))
      ensures 0 < Level(poly) < |levels| && !old(Stored(poly)) && r.Ok? ==>
        ResultantsIn(levels, dependencies, alg, bounds, old(dependencies), poly, Level(poly), old(levels)[Level(poly)])
      decreases fuel, 4
    {
      var level := LevelOf(poly);
      if level < 0 || level >= |levels| {
        return Err(IndexOutOfBounds);
      }
      if poly in levels[level] {
        return Ok(());
      }
      ShapeAdd(|bounds|, levels, dependencies, poly);
      levels := levels[level := levels[level] + {poly}];
      if level == 0 {
        return Ok(());
      }
      ghost var levels1 := levels;
      r := AddDiscriminant(alg, poly, level, fuel);
      NewOwnersFresh(old(levels), levels1, old(dependencies), dependencies, poly, {None}, poly, {});
      if r.Err? {
        return;
      }
      ghost var levels2, deps2 := levels, dependencies;
      r := AddResultants(alg, poly, level, levels[level], fuel);
      NewSourcesTrans(levels2, levels, old(dependencies), deps2, dependencies);
      LevelsGrowTrans(old(levels), levels2, levels);
      InsertRecords(alg, poly, level, r, old(levels), levels1, levels2, levels, old(dependencies), deps2, dependencies);
    }

    /** The records `insert` leaves, from those of its two steps. */
    lemma InsertRecords(alg: Algebra, poly: MPoly, level: nat, r: Result<()>,
                        l0: seq<set<MPoly>>, l1: seq<set<MPoly>>, l2: seq<set<MPoly>>, l3: seq<set<MPoly>>,
                        d0: seq<Dependency>, d2: seq<Dependency>, d3: seq<Dependency>)
      requires ShapeOf(|bounds|, l0, d0) && Level(poly) == level < |l0| && !StoredIn(l0, poly)
      requires l1 == l0[level := l0[level] + {poly}] && LevelsGrow(l1, l2) && LevelsGrow(l2, l3)
      requires d0 <= d2 && d2 <= d3
      requires NewOwners(l1, d0, d2, poly, {None})
      requires !HasDiscriminant(d0, poly) ==> ProjectedIn(l2, d2, alg, bounds, poly, None, alg.discriminantChain(poly, level))
      requires NewOwners(l2, d2, d3, poly, Partners(l2[level]))
      requires r.Ok? ==> ResultantsIn(l3, d3, alg, bounds, d2, poly, level, l2[level])
      ensures NewOwners(l0, d0, d3, poly, {})
      ensures r.Ok? && !HasDiscriminant(d0, poly) ==>
        ProjectedIn(l3, d3, alg, bounds, poly, None, alg.discriminantChain(poly, level))
      ensures r.Ok? ==> ResultantsIn(l3, d3, alg, bounds, d0, poly, level, l0[level])
    {
      NewOwnersTrans(l1, l2, d0, d2, d3, poly, {None}, Partners(l2[level]));
      NewOwnersFresh(l0, l1, d0, d3, poly, {None} + Partners(l2[level]), poly, {});
      if !HasDiscriminant(d0, poly) {
        ProjectedGrows(l2, l3, d2, d3, alg, bounds, poly, None, alg.discriminantChain(poly, level));
      }
      if r.Ok? {
        forall o | o in l0[level]
          ensures StoredIn(l1, o) && Some(o) !in {None}
        {
        }
        ResultantsEarlier(l1, d0, d2, l3, d3, alg, bounds, poly, level, {None}, l2[level], l0[level]);
      }
    }

    /** Step 1 of `insert`: the discriminant, unless a dependency already records it. */
    method AddDiscriminant(alg: Algebra, poly: MPoly, level: nat, fuel: nat) returns (r: Result<()>)
      requires ShapeOf(|bounds|, levels, dependencies) && Stored(poly) && Level(poly) == level > 0
      modifies this
      ensures ring == old(ring) && bounds == old(bounds)
      ensures ShapeOf(|bounds|, levels, dependencies)
      ensures LevelsGrow(old(levels), levels) && old(dependencies) <= dependencies
      ensures NewSourcesIn(levels, old(dependencies), dependencies)
      ensures NewOwners(old(levels), old(dependencies), dependencies, poly, {None})
      ensures Stored(poly)
      ensures HasDiscriminant(old(dependencies), poly) ==>
        r == Ok(()) && levels == old(levels) && dependencies == old(dependencies)
      ensures !HasDiscriminant(old(dependencies), poly) && Projections(alg, alg.discriminantChain(poly, level), bounds).Err? ==>
        r == Err(Projections(alg, alg.discriminantChain(poly, level), bounds).error) &&
        levels == old(levels) && dependencies == old(dependencies)
      ensures r.Ok? && !HasDiscriminant(old(dependencies), poly) ==>
        ProjectedIn(levels, dependencies, alg, bounds, poly, None, alg.discriminantChain(poly, level))
      decreases fuel, 1
    {
      if HasDiscriminant(dependencies, poly) {
        return Ok(());
      }
      var projections := Projections(alg, alg.discriminantChain(poly, level), bounds);
      if projections.Err? {
        return Err(projections.error);
      }
      r := AddProjections(alg, poly, None, projections.value, fuel);
      StoredGrows(old(levels), levels, poly);
    }

    /** Step 2 of `insert`: the loop over the level's polynomials (a snapshot of the set). */
    method AddResultants(alg: Algebra, poly: MPoly, level: nat, others: set<MPoly>, fuel: nat) returns (r: Result<()>)
      requires ShapeOf(|bounds|, levels, dependencies) && Stored(poly) && Level(poly) == level > 0
      requires others <= levels[level]
      modifies this
      ensures ring == old(ring) && bounds == old(bounds)
      ensures ShapeOf(|bounds|, levels, dependencies)
      ensures LevelsGrow(old(levels), levels) && old(dependencies) <= dependencies
      ensures NewSourcesIn(levels, old(dependencies), dependencies)
      ensures NewOwners(old(levels), old(dependencies), dependencies, poly, Partners(others))
      ensures r.Ok? ==> ResultantsIn(levels, dependencies, alg, bounds, old(dependencies), poly, level, others)
      decreases fuel, 3
    {
      var rest := others;
      while rest != {}
        invariant ring == old(ring) && bounds == old(bounds)
        invariant ShapeOf(|bounds|, levels, dependencies)
        invariant LevelsGrow(old(levels), levels) && old(dependencies) <= dependencies
        invariant NewSourcesIn(levels, old(dependencies), dependencies)
        invariant Stored(poly) && rest <= others
        invariant NewOwners(old(levels), old(dependencies), dependencies, poly, Partners(others - rest))
        invariant ResultantsIn(levels, dependencies, alg, bounds, old(dependencies), poly, level, others - rest)
        decreases |rest|
      {
        assert (forall y :: y !in rest) ==> rest == {};
        var other :| other in rest;
        ghost var done := others - rest;
        rest := rest - {other};
        assert other in old(levels)[level] && others - rest == done + {other};
        r := AddResultantStep(alg, poly, other, level, fuel, old(levels), old(dependencies), done);
        if r.Err? {
          return;
        }
      }
      return Ok(());
    }

    /** The loop body of step 2: one round, and what it adds to the records of the rounds before it. */
    method AddResultantStep(alg: Algebra, poly: MPoly, other: MPoly, level: nat, fuel: nat,
                            ghost l0: seq<set<MPoly>>, ghost d0: seq<Dependency>, ghost done: set<MPoly>)
      returns (r: Result<()>)
      requires ShapeOf(|bounds|, levels, dependencies) && Stored(poly) && Level(poly) == level > 0
      requires StoredIn(l0, poly) && StoredIn(l0, other) && Level(other) == level && other !in done
      requires LevelsGrow(l0, levels) && d0 <= dependencies && NewSourcesIn(levels, d0, dependencies)
      requires NewOwners(l0, d0, dependencies, poly, Partners(done))
      requires ResultantsIn(levels, dependencies, alg, bounds, d0, poly, level, done)
      modifies this
      ensures ring == old(ring) && bounds == old(bounds)
      ensures ShapeOf(|bounds|, levels, dependencies) && Stored(poly)
      ensures LevelsGrow(l0, levels) && d0 <= dependencies && NewSourcesIn(levels, d0, dependencies)
      ensures NewOwners(l0, d0, dependencies, poly, Partners(done + {other}))
      ensures r.Ok? ==> ResultantsIn(levels, dependencies, alg, bounds, d0, poly, level, done + {other})
      decreases fuel, 2
    {
      StoredGrows(l0, levels, other);
      ghost var levels1, deps1 := levels, dependencies;
      r := AddResultant(alg, poly, other, level, fuel);
      LevelsGrowTrans(l0, levels1, levels);
      NewSourcesTrans(levels1, levels, d0, deps1, dependencies);
      ResultantsRound(alg, poly, level, r, other, done, done + {other}, l0, levels1, levels, d0, deps1, dependencies);
    }

    /** One round of the loop of step 2 extends the records of the rounds before it. */
    lemma ResultantsRound(alg: Algebra, poly: MPoly, level: nat, r: Result<()>, other: MPoly,
                          done: set<MPoly>, done1: set<MPoly>,
                          l0: seq<set<MPoly>>, l1: seq<set<MPoly>>, l2: seq<set<MPoly>>,
                          d0: seq<Dependency>, d1: seq<Dependency>, d2: seq<Dependency>)
      requires done1 == done + {other} && LevelsGrow(l0, l1) && LevelsGrow(l1, l2) && d0 <= d1 && d1 <= d2
      requires NewOwners(l0, d0, d1, poly, Partners(done)) && NewOwners(l1, d1, d2, poly, {Some(other)})
      requires ResultantsIn(l1, d1, alg, bounds, d0, poly, level, done)
      requires StoredIn(l0, poly) && StoredIn(l0, other) && other !in done
      requires r.Ok? && other != poly && !HasCombination(d1, poly, other) ==>
        ProjectedIn(l2, d2, alg, bounds, poly, Some(other), alg.resultantChain(poly, other, level))
      ensures NewOwners(l0, d0, d2, poly, Partners(done1))
      ensures r.Ok? ==> ResultantsIn(l2, d2, alg, bounds, d0, poly, level, done1)
    {
      NewOwnersTrans(l0, l1, d0, d1, d2, poly, Partners(done), {Some(other)});
      if other != poly && !HasCombination(d0, poly, other) {
        NoNewCombination(l0, d0, d1, poly, Partners(done), other);
      }
      assert Partners(done) + {Some(other)} == Partners(done1);
      if r.Ok? {
        forall o | o in done1 && o != poly && !HasCombination(d0, poly, o)
          ensures ProjectedIn(l2, d2, alg, bounds, poly, Some(o), alg.resultantChain(poly, o, level))
        {
          if o in done {
            ProjectedGrows(l1, l2, d1, d2, alg, bounds, poly, Some(o), alg.resultantChain(poly, o, level));
          }
        }
      }
    }

    /** One round of step 2: the resultant with `other`, unless it is poly or a dependency records it. */
    method AddResultant(alg: Algebra, poly: MPoly, other: MPoly, level: nat, fuel: nat) returns (r: Result<()>)
      requires ShapeOf(|bounds|, levels, dependencies) && Stored(poly) && Level(poly) == level > 0
      requires Stored(other) && Level(other) == level
      modifies this
      ensures ring == old(ring) && bounds == old(bounds)
      ensures ShapeOf(|bounds|, levels, dependencies)
      ensures LevelsGrow(old(levels), levels) && old(dependencies) <= dependencies
      ensures NewSourcesIn(levels, old(dependencies), dependencies)
      ensures NewOwners(old(levels), old(dependencies), dependencies, poly, {Some(other)})
      ensures forall o :: old(Stored(o)) ==> Stored(o)
      ensures other == poly || HasCombination(old(dependencies), poly, other) ==>
        r == Ok(()) && levels == old(levels) && dependencies == old(dependencies)
      ensures (other != poly && !HasCombination(old(dependencies), poly, other) &&
               Projections(alg, alg.resultantChain(poly, other, level), bounds).Err?) ==>
        r == Err(Projections(alg, alg.resultantChain(poly, other, level), bounds).error) &&
        levels == old(levels) && dependencies == old(dependencies)
      ensures r.Ok? && other != poly && !HasCombination(old(dependencies), poly, other) ==>
        ProjectedIn(levels, dependencies, alg, bounds, poly, Some(other), alg.resultantChain(poly, other, level))
      decreases fuel, 1
    {
      if other == poly || HasCombination(dependencies, poly, other) {
        return Ok(());
      }
      var projections := Projections(alg, alg.resultantChain(poly, other, level), bounds);
      if projections.Err? {
        return Err(projections.error);
      }
      r := AddProjections(alg, poly, Some(other), projections.value, fuel);
      forall o | old(Stored(o))
        ensures Stored(o)
      {
        StoredGrows(old(levels), levels, o);
      }
    }

    /** `forEach { insert(it); dependencies.add(...) }` over the projections of `source` (and `other`). */
    method AddProjections(alg: Algebra, source: MPoly, other: Option<MPoly>, projections: seq<MPoly>, fuel: nat)
      returns (r: Result<()>)
      requires ShapeOf(|bounds|, levels, dependencies) && Stored(source) && Level(source) > 0
      requires other.Some? ==> Stored(other.value) && Level(other.value) > 0
      modifies this
      ensures ring == old(ring) && bounds == old(bounds)
      ensures ShapeOf(|bounds|, levels, dependencies)
      ensures LevelsGrow(old(levels), levels) && old(dependencies) <= dependencies
      ensures NewSourcesIn(levels, old(dependencies), dependencies)
      ensures NewOwners(old(levels), old(dependencies), dependencies, source, {other})
      ensures r.Ok? ==> forall p :: p in projections ==> Stored(p) && MakeDependency(source, other, p) in dependencies
      decreases fuel, 0
    {
      for i := 0 to |projections|
        invariant ring == old(ring) && bounds == old(bounds)
        invariant ShapeOf(|bounds|, levels, dependencies)
        invariant LevelsGrow(old(levels), levels) && old(dependencies) <= dependencies
        invariant NewSourcesIn(levels, old(dependencies), dependencies)
        invariant NewOwners(old(levels), old(dependencies), dependencies, source, {other})
        invariant Stored(source) && (other.Some? ==> Stored(other.value))
        invariant forall j :: 0 <= j < i ==> Stored(projections[j]) && MakeDependency(source, other, projections[j]) in dependencies
      {
        if fuel == 0 {
          return Err(OutOfFuel);
        }
        ghost var levels1, deps1 := levels, dependencies;
        r := AddProjection(alg, source, other, projections[i], fuel - 1);
        LevelsGrowTrans(old(levels), levels1, levels);
        NewSourcesTrans(levels1, levels, old(dependencies), deps1, dependencies);
        NewOwnersTrans(old(levels), levels1, old(dependencies), deps1, dependencies, source, {other}, {other});
        assert {other} + {other} == {other};
        if r.Err? {
          return;
        }
      }
      return Ok(());
    }

    /** One round of the loop: insert the projection, then record its dependency. */
    method AddProjection(alg: Algebra, source: MPoly, other: Option<MPoly>, p: MPoly, fuel: nat) returns (r: Result<()>)
      requires ShapeOf(|bounds|, levels, dependencies) && Stored(source) && Level(source) > 0
      requires other.Some? ==> Stored(other.value) && Level(other.value) > 0
      modifies this
      ensures ring == old(ring) && bounds == old(bounds)
      ensures ShapeOf(|bounds|, levels, dependencies)
      ensures LevelsGrow(old(levels), levels) && old(dependencies) <= dependencies
      ensures NewSourcesIn(levels, old(dependencies), dependencies)
      ensures NewOwners(old(levels), old(dependencies), dependencies, source, {other})
      ensures forall o :: old(Stored(o)) ==> Stored(o)
      ensures r.Ok? ==> Stored(p) && MakeDependency(source, other, p) in dependencies
      decreases fuel, 5
    {
      r := Insert(alg, p, fuel);
      forall o | old(Stored(o))
        ensures Stored(o)
      {
        StoredGrows(old(levels), levels, o);
      }
      if r.Err? {
        return;
      }
      var dep := MakeDependency(source, other, p);
      RecordProjection(old(levels), levels, old(dependencies), dependencies, source, other, p);
      dependencies := dependencies + [dep];
    }

    /**
     * `remove`: a present polynomial is taken out; on a level above 0 the
     * dependencies it is a source of go too, and each of their targets
     * that no remaining dependency targets is removed in turn.
     */
    method Remove(poly: MPoly)
      requires Valid() && 0 <= Level(poly) < |levels|
      modifies this
      ensures Valid()
      ensures ring == old(ring) && bounds == old(bounds)
      ensures LevelsShrink(old(levels), levels) && DepsShrink(old(dependencies), dependencies)
      ensures !Stored(poly)
      ensures !old(Stored(poly)) ==> levels == old(levels) && dependencies == old(dependencies)
      ensures old(Stored(poly)) && Level(poly) > 0 ==> forall dep :: dep in dependencies ==> !IsDependencyOf(dep, poly)
      ensures OrphansSince(old(levels), levels, old(dependencies), dependencies, poly)
      ensures CascadeDone(old(dependencies), dependencies, levels, [])
      ensures Count() <= old(Count())
      decreases Count(), 2
    {
      var level := LevelOf(poly);
      if poly !in levels[level] {
        return;
      }
      ghost var count := Count();
      var ours := Detach(poly, level);
      if level > 0 {
        assert CascadeDone(old(dependencies), dependencies, levels, ours);
        RemoveOrphans(poly, ours, old(levels), old(dependencies), count);
      }
    }

    /** The first half of `remove`: poly leaves its level, and on a level above 0 its dependencies go. */
    method Detach(poly: MPoly, level: nat) returns (ours: seq<Dependency>)
      requires Valid() && level == Level(poly) < |levels| && Stored(poly)
      modifies this
      ensures Valid() && ring == old(ring) && bounds == old(bounds)
      ensures levels == old(levels)[level := old(levels)[level] - {poly}]
      ensures dependencies == if level > 0 then Independent(old(dependencies), poly) else old(dependencies)
      ensures ours == DependenciesOf(old(dependencies), poly)
      ensures LevelsShrink(old(levels), levels) && DepsShrink(old(dependencies), dependencies)
      ensures OrphansSince(old(levels), levels, old(dependencies), dependencies, poly)
      ensures !Stored(poly) && (level > 0 ==> forall dep :: dep in dependencies ==> !IsDependencyOf(dep, poly))
      ensures forall dep :: dep in ours ==> dep in old(dependencies) && IsDependencyOf(dep, poly) && 0 <= Level(dep.target) < |levels|
      ensures Count() < old(Count())
    {
      TotalRemove(levels, level, poly, |levels|);
      DetachValid(|bounds|, levels, dependencies, poly);
      DetachFacts(levels, poly, dependencies, if level > 0 then Independent(dependencies, poly) else dependencies);
      ours := DependenciesOf(dependencies, poly);
      levels := levels[level := levels[level] - {poly}];
      if level > 0 {
        dependencies := Independent(dependencies, poly);
      }
    }

    /** The loop of `remove` over the dropped dependencies. */
    method RemoveOrphans(poly: MPoly, ours: seq<Dependency>, ghost levels0: seq<set<MPoly>>, ghost deps0: seq<Dependency>,
                         ghost bound: nat)
      requires Valid() && Count() < bound
      requires forall dep :: dep in ours ==> dep in deps0 && IsDependencyOf(dep, poly) && 0 <= Level(dep.target) < |levels|
      requires (forall dep :: dep in dependencies ==> !IsDependencyOf(dep, poly)) && !Stored(poly)
      requires LevelsShrink(levels0, levels) && DepsShrink(deps0, dependencies)
      requires OrphansSince(levels0, levels, deps0, dependencies, poly)
      requires CascadeDone(deps0, dependencies, levels, ours)
      modifies this
      ensures Valid() && ring == old(ring) && bounds == old(bounds)
      ensures LevelsShrink(levels0, levels) && DepsShrink(deps0, dependencies)
      ensures (forall dep :: dep in dependencies ==> !IsDependencyOf(dep, poly)) && !Stored(poly)
      ensures OrphansSince(levels0, levels, deps0, dependencies, poly)
      ensures CascadeDone(deps0, dependencies, levels, [])
      ensures Count() < bound
      decreases bound, 1
    {
      for i := 0 to |ours|
        invariant Valid()
        invariant ring == old(ring) && bounds == old(bounds)
        invariant LevelsShrink(levels0, levels) && DepsShrink(deps0, dependencies)
        invariant !Stored(poly) && forall dep :: dep in dependencies ==> !IsDependencyOf(dep, poly)
        invariant OrphansSince(levels0, levels, deps0, dependencies, poly)
        invariant CascadeDone(deps0, dependencies, levels, ours[i..])
        invariant Count() < bound
      {
        assert ours[i] in ours;
        assert |levels| == |levels0|;
        ghost var levels1, deps1 := levels, dependencies;
        RemoveOrphan(poly, ours[i], levels0, deps0);
        assert ours[i..] == [ours[i]] + ours[i + 1..];
        CascadeStep(deps0, deps1, dependencies, levels1, levels, ours[i], ours[i + 1..]);
      }
      assert ours[|ours|..] == [];
    }

    /**
     * One round of the loop of `remove`: the target of a dropped
     * dependency goes too when no dependency targets it any more
     * (`dependencies.all { it.target != removed.target }`).
     */
    method RemoveOrphan(poly: MPoly, dropped: Dependency, ghost levels0: seq<set<MPoly>>, ghost deps0: seq<Dependency>)
      requires Valid() && dropped in deps0 && IsDependencyOf(dropped, poly) && 0 <= Level(dropped.target) < |levels|
      requires (forall dep :: dep in dependencies ==> !IsDependencyOf(dep, poly)) && !Stored(poly)
      requires LevelsShrink(levels0, levels) && DepsShrink(deps0, dependencies)
      requires OrphansSince(levels0, levels, deps0, dependencies, poly)
      modifies this
      ensures Valid() && ring == old(ring) && bounds == old(bounds)
      ensures LevelsShrink(levels0, levels) && DepsShrink(deps0, dependencies)
      ensures (forall dep :: dep in dependencies ==> !IsDependencyOf(dep, poly)) && !Stored(poly)
      ensures OrphansSince(levels0, levels, deps0, dependencies, poly)
      ensures LevelsShrink(old(levels), levels) && DepsShrink(old(dependencies), dependencies)
      ensures old(Untargeted(dependencies, dropped.target)) ==> !Stored(dropped.target)
      ensures !old(Untargeted(dependencies, dropped.target)) ==> levels == old(levels) && dependencies == old(dependencies)
      ensures CascadeDone(old(dependencies), dependencies, levels, [])
      ensures Count() <= old(Count())
      decreases Count() + 1, 0
    {
      var t := dropped.target;
      if Untargeted(dependencies, t) {
        ghost var levels1, deps1 := levels, dependencies;
        Remove(t);
        OrphansStep(levels0, levels1, levels, deps0, deps1, dependencies, poly, dropped);
      }
    }

    /** The two bound polynomials x_d − low_d and x_d − high_d of every dimension are stored. */
    predicate HasBounds()
      reads this
    {
      && |bounds| <= ring
      && forall d :: 0 <= d < |bounds| ==>
           Stored(VariableMinus(ring, d, bounds[d].low)) && Stored(VariableMinus(ring, d, bounds[d].high))
    }

    /** `forEach { insert(it) }`: the first failing insertion aborts the loop. */
    method InsertAll(alg: Algebra, ps: seq<MPoly>, fuel: nat) returns (r: Result<()>)
      requires ShapeOf(|bounds|, levels, dependencies)
      modifies this
      ensures ring == old(ring) && bounds == old(bounds)
      ensures ShapeOf(|bounds|, levels, dependencies)
      ensures LevelsGrow(old(levels), levels) && old(dependencies) <= dependencies
      ensures NewSourcesIn(levels, old(dependencies), dependencies)
      ensures r.Ok? ==> forall p :: p in ps ==> Stored(p)
    {
      for i := 0 to |ps|
        invariant ring == old(ring) && bounds == old(bounds)
        invariant ShapeOf(|bounds|, levels, dependencies)
        invariant LevelsGrow(old(levels), levels) && old(dependencies) <= dependencies
        invariant NewSourcesIn(levels, old(dependencies), dependencies)
        invariant forall j :: 0 <= j < i ==> Stored(ps[j])
      {
        ghost var levels1, deps1 := levels, dependencies;
        r := Insert(alg, ps[i], fuel);
        LevelsGrowTrans(old(levels), levels1, levels);
        NewSourcesTrans(levels1, levels, old(dependencies), deps1, dependencies);
        if r.Err? {
          return;
        }
        StoredAllGrow(levels1, levels);
      }
      return Ok(());
    }

    /**
     * The `init` block: x_d − low_d, then x_d − high_d, for every dimension
     * d in order. The variables are named x0 … x(n−1) for the n dimensions
     * of the box, so a ring with fewer variables fails before anything is
     * inserted.
     */
    method InsertBounds(alg: Algebra, fuel: nat) returns (r: Result<()>)
      requires ShapeOf(|bounds|, levels, dependencies)
      modifies this
      ensures ring == old(ring) && bounds == old(bounds)
      ensures ShapeOf(|bounds|, levels, dependencies)
      ensures LevelsGrow(old(levels), levels) && old(dependencies) <= dependencies
      ensures NewSourcesIn(levels, old(dependencies), dependencies)
      ensures ring < |bounds| ==> r.Err? && levels == old(levels)
      ensures r.Ok? ==> HasBounds()
    {
      if ring < |bounds| {
        return Err(IllegalState("Unknown variable"));
      }
      for d := 0 to |bounds|
        invariant ring == old(ring) && bounds == old(bounds)
        invariant ShapeOf(|bounds|, levels, dependencies)
        invariant LevelsGrow(old(levels), levels) && old(dependencies) <= dependencies
        invariant NewSourcesIn(levels, old(dependencies), dependencies)
        invariant forall e :: 0 <= e < d ==>
          Stored(VariableMinus(ring, e, bounds[e].low)) && Stored(VariableMinus(ring, e, bounds[e].high))
      {
        ghost var levels1, deps1 := levels, dependencies;
        BoundLevel(ring, d, bounds[d].low);
        BoundLevel(ring, d, bounds[d].high);
        r := InsertAll(alg, [VariableMinus(ring, d, bounds[d].low), VariableMinus(ring, d, bounds[d].high)], fuel);
        LevelsGrowTrans(old(levels), levels1, levels);
        NewSourcesTrans(levels1, levels, old(dependencies), deps1, dependencies);
        if r.Err? {
          return;
        }
        StoredAllGrow(levels1, levels);
      }
      return Ok(());
    }

    /** `levels.map { it.toList() }`: every level listed, each member once. */
    method Lists() returns (lists: seq<seq<MPoly>>)
      ensures Enumerates(lists, levels)
    {
      lists := [];
      for l := 0 to |levels|
        invariant |lists| == l
        invariant forall k :: 0 <= k < l ==> forall p :: p in lists[k] <==> p in levels[k]
        invariant forall k :: 0 <= k < l ==> Distinct(lists[k])
      {
        var list := SetToSeq(levels[l]);
        lists := lists + [list];
      }
    }

    /** `basis`: exactly the stored polynomials that are the target of no dependency, each once. */
    method Basis() returns (r: seq<MPoly>)
      requires ShapeOf(|bounds|, levels, dependencies)
      ensures forall p :: p in r <==> Stored(p) && Untargeted(dependencies, p)
      ensures Distinct(r)
    {
      var lists := Lists();
      var all := Flatten(lists);
      FlattenDistinct(lists, levels);
      KeepUntargetedDistinct(all, dependencies);
      forall p
        ensures p in all <==> Stored(p)
      {
        if p in all {
          var l :| 0 <= l < |lists| && p in lists[l];
          assert p in levels[l];
        }
        if Stored(p) {
          assert p in lists[Level(p)];
        }
      }
      r := KeepUntargeted(all, dependencies);
    }

    /**
     * `cellForPoint`: the scan of `CellWalks.Located` from dimension 0 up,
     * over the levels listed (isolated roots deduplicated, a proper first
     * or last root that is not the bound rejected); a dimension where the
     * point lies in no cell keeps coordinate 0.
     */
    method CellForPoint(alg: Algebra, precision: real, point: seq<real>) returns (lists: seq<seq<MPoly>>, r: Result<Cell>)
      ensures Enumerates(lists, levels)
      ensures r == CellOf(Located(Scan(alg, precision, bounds, true, ProperRoots), lists, point, 0))
    {
      lists := Lists();
      var found := LocatePoint(Scan(alg, precision, bounds, true, ProperRoots), lists, point);
      r := CellOf(found);
    }

    /**
     * `walkCells`: the depth-first walk of `CellWalks.Walk` from the
     * listed levels, first variable first (isolated roots deduplicated, a
     * point first or last root that is not the bound rejected), each visit
     * as its sample point and its cell.
     */
    method WalkCells(alg: Algebra, precision: real) returns (lists: seq<seq<MPoly>>, r: Result<seq<Sample>>)
      ensures Enumerates(lists, levels)
      ensures r == AsSamples(Walk(Scan(alg, precision, bounds, true, PointRoots), FirstVariableFirst, Entry(lists, [], [])))
    {
      lists := Lists();
      var visits := CellWalks.WalkCells(Scan(alg, precision, bounds, true, PointRoots), FirstVariableFirst, Entry(lists, [], []));
      r := AsSamples(visits);
    }

    /** The body of the union constructor: the copied dependencies, then the two graphs' polynomials inserted. */
    method Absorb(alg: Algebra, copied: seq<Dependency>, ps1: seq<MPoly>, ps2: seq<MPoly>, fuel: nat) returns (r: Result<()>)
      requires ShapeOf(|bounds|, levels, dependencies + copied)
      modifies this
      ensures ring == old(ring) && bounds == old(bounds)
      ensures ShapeOf(|bounds|, levels, dependencies)
      ensures LevelsGrow(old(levels), levels) && old(dependencies) + copied <= dependencies
      ensures NewSourcesIn(levels, old(dependencies) + copied, dependencies)
      ensures r.Ok? ==> forall p :: p in ps1 || p in ps2 ==> Stored(p)
    {
      dependencies := dependencies + copied;
      r := InsertAll(alg, ps1, fuel);
      if r.Err? {
        return;
      }
      ghost var levels1, deps1 := levels, dependencies;
      r := InsertAll(alg, ps2, fuel);
      NewSourcesTrans(levels1, levels, old(dependencies) + copied, deps1, dependencies);
      LevelsGrowTrans(old(levels), levels1, levels);
      StoredAllGrow(levels1, levels);
    }

    /** The copy of the exclude constructor: every level of graph added to this one, then its dependencies. */
    method CopyFrom(graph: LevelGraph)
      requires graph != this && |graph.levels| == |levels|
      modifies this
      ensures ring == old(ring) && bounds == old(bounds)
      ensures levels == Merge(old(levels), graph.levels)
      ensures dependencies == old(dependencies) + graph.dependencies
    {
      for l := 0 to |levels|
        invariant |levels| == |graph.levels| && ring == old(ring) && bounds == old(bounds)
        invariant forall k :: 0 <= k < l ==> levels[k] == old(levels)[k] + graph.levels[k]
        invariant forall k :: l <= k < |levels| ==> levels[k] == old(levels)[k]
        invariant dependencies == old(dependencies)
      {
        levels := levels[l := levels[l] + graph.levels[l]];
      }
      dependencies := dependencies + graph.dependencies;
    }
  }

  /** Level by level union of two level lists of the same length. */
  function Merge(a: seq<set<MPoly>>, b: seq<set<MPoly>>): (r: seq<set<MPoly>>)
    requires |a| == |b|
    ensures |r| == |a| && forall l :: 0 <= l < |a| ==> r[l] == a[l] + b[l]
  {
    seq(|a|, l requires 0 <= l < |a| => a[l] + b[l])
  }

  /** Two well-formed graph states over the same dimensions merge into a well-formed one. */
  lemma MergeValid(n: nat, la: seq<set<MPoly>>, da: seq<Dependency>, lb: seq<set<MPoly>>, db: seq<Dependency>)
    requires ValidOf(n, la, da) && ValidOf(n, lb, db)
    ensures ValidOf(n, Merge(la, lb), da + db)
    ensures LevelsGrow(la, Merge(la, lb)) && LevelsGrow(lb, Merge(la, lb))
  {
    var m := Merge(la, lb);
    forall dep | dep in da + db
      ensures SourcesIn(m, dep)
    {
      if dep in da {
        SourcesGrow(la, m, dep);
      } else {
        SourcesGrow(lb, m, dep);
      }
    }
  }

  /** A state reached by insertions from a well-formed one is well formed. */
  lemma ValidGrows(n: nat, l0: seq<set<MPoly>>, l1: seq<set<MPoly>>, d0: seq<Dependency>, d1: seq<Dependency>)
    requires ValidOf(n, l0, d0) && LevelsGrow(l0, l1) && ShapeOf(n, l1, d1) && NewSourcesIn(l1, d0, d1)
    ensures ValidOf(n, l1, d1)
  {
    forall dep | dep in d1
      ensures SourcesIn(l1, dep)
    {
      if dep in d0 {
        SourcesGrow(l0, l1, dep);
      }
    }
  }

  /** `Cell(result)`: the found cells, 0 where a dimension found none (the array's initial value). */
  function CellOf(found: Result<seq<Option<nat>>>): (r: Result<Cell>)
    ensures r.Ok? <==> found.Ok?
    ensures r.Err? ==> r.error == found.error
    ensures r.Ok? ==> |r.value.coordinates| == |found.value| && forall d :: 0 <= d < |found.value| ==>
      r.value.coordinates[d] == (if found.value[d].Some? then found.value[d].value else 0)
  {
    match found
    case Err(e) => Err(e)
    case Ok(cells) => Ok(Cell(seq(|cells|, d requires 0 <= d < |cells| => if cells[d].Some? then cells[d].value else 0)))
  }

  /** A sample point and its cell, as `walkCells` yields them. */
  type Sample = (seq<real>, Cell)

  /** `partialPoint to Cell(partialCell.toIntArray())` for every visit. */
  function AsSamples(visits: Result<seq<Visit>>): (r: Result<seq<Sample>>)
    ensures r.Ok? <==> visits.Ok?
    ensures r.Err? ==> r.error == visits.error
    ensures r.Ok? ==> |r.value| == |visits.value| && forall i :: 0 <= i < |visits.value| ==>
      r.value[i].0 == visits.value[i].0 && r.value[i].1.coordinates == visits.value[i].1
  {
    match visits
    case Err(e) => Err(e)
    case Ok(vs) => Ok(seq(|vs|, i requires 0 <= i < |vs| => (vs[i].0, Cell(vs[i].1))))
  }

  // ---------------------------------------------------------------------
  // Constructors
  // ---------------------------------------------------------------------

  /** The primary constructor: an empty graph over the ring and the box, then the `init` block. */
  method Create(alg: Algebra, ring: nat, bounds: Box, fuel: nat) returns (g: LevelGraph, r: Result<()>)
    ensures fresh(g) && g.ring == ring && g.bounds == bounds && g.Valid()
    ensures ring < |bounds| ==> r.Err?
    ensures r.Ok? ==> g.HasBounds()
  {
    g := new LevelGraph.Empty(ring, bounds);
    ghost var levels0 := g.levels;
    r := g.InsertBounds(alg, fuel);
    ValidGrows(|bounds|, levels0, g.levels, [], g.dependencies);
  }

  /** `LevelGraph(basis, ring, bounds)`: the primary constructor, then every basis polynomial inserted. */
  method WithBasis(alg: Algebra, basis: seq<MPoly>, ring: nat, bounds: Box, fuel: nat) returns (g: LevelGraph, r: Result<()>)
    ensures fresh(g) && g.ring == ring && g.bounds == bounds && g.Valid()
    ensures r.Ok? ==> g.HasBounds() && forall p :: p in basis ==> g.Stored(p)
  {
    g, r := Create(alg, ring, bounds, fuel);
    if r.Err? {
      return;
    }
    ghost var levels0, deps0 := g.levels, g.dependencies;
    r := g.InsertAll(alg, basis, fuel);
    ValidGrows(|bounds|, levels0, g.levels, deps0, g.dependencies);
    StoredAllGrow(levels0, g.levels);
  }

  /**
   * `LevelGraph(graph1, graph2)`: the primary constructor over graph1's
   * ring and box, a failure when the two graphs' rings or boxes differ,
   * then the distinct dependencies of both, and every polynomial of
   * graph1 and then of graph2 inserted.
   */
  method Union(alg: Algebra, g1: LevelGraph, g2: LevelGraph, fuel: nat) returns (g: LevelGraph, r: Result<()>)
    requires g1.Valid() && g2.Valid()
    ensures fresh(g) && g.ring == g1.ring && g.bounds == g1.bounds
    ensures (g1.ring != g2.ring || g1.bounds != g2.bounds) ==> r.Err?
    ensures r.Ok? ==> g.Valid() && g.HasBounds()
    ensures r.Ok? ==> forall p :: g1.Stored(p) || g2.Stored(p) ==> g.Stored(p)
    ensures r.Ok? ==> forall dep :: dep in g1.dependencies || dep in g2.dependencies ==> dep in g.dependencies
  {
    ghost var n, la, da, lb, db := |g1.bounds|, g1.levels, g1.dependencies, g2.levels, g2.dependencies;
    g, r := Create(alg, g1.ring, g1.bounds, fuel);
    if r.Err? {
      return;
    }
    if g1.ring != g2.ring || g1.bounds != g2.bounds {
      return g, Err(IllegalState("Incompatible graphs"));
    }
    var lists1 := g1.Lists();
    var lists2 := g2.Lists();
    var copied := Dedup(g1.dependencies + g2.dependencies);
    ghost var levels0, init := g.levels, g.dependencies;
    ShapeAddDeps(|g.bounds|, g.levels, init, copied, g1.dependencies + g2.dependencies);
    r := g.Absorb(alg, copied, Flatten(lists1), Flatten(lists2), fuel);
    if r.Err? {
      return;
    }
    UnionValid(n, la, da, lb, db, lists1, lists2, levels0, g.levels, init, copied, g.dependencies);
    assert g1.levels == la && g2.levels == lb && g1.dependencies == da && g2.dependencies == db;
  }

  /** Dependencies whose targets have levels of the graph keep its shape. */
  lemma ShapeAddDeps(n: nat, levels: seq<set<MPoly>>, deps: seq<Dependency>, extra: seq<Dependency>, from: seq<Dependency>)
    requires ShapeOf(n, levels, deps) && (forall dep :: dep in extra ==> dep in from)
    requires forall dep :: dep in from ==> 0 <= Level(dep.target) < n
    ensures ShapeOf(n, levels, deps + extra)
  {
  }

  /** Every polynomial a level listing flattens to is stored; every stored one is in the listing. */
  lemma FlattenStored(lists: seq<seq<MPoly>>, levels: seq<set<MPoly>>, n: nat, deps: seq<Dependency>)
    requires Enumerates(lists, levels) && ShapeOf(n, levels, deps)
    ensures forall p :: p in Flatten(lists) <==> StoredIn(levels, p)
  {
    forall p
      ensures p in Flatten(lists) <==> StoredIn(levels, p)
    {
      if p in Flatten(lists) {
        var l :| 0 <= l < |lists| && p in lists[l];
        assert p in levels[l];
      }
      if StoredIn(levels, p) {
        assert p in lists[Level(p)];
      }
    }
  }

  /** The union graph: well formed, with both graphs' polynomials and dependencies. */
  lemma UnionValid(n: nat, la: seq<set<MPoly>>, da: seq<Dependency>, lb: seq<set<MPoly>>, db: seq<Dependency>,
                   lists1: seq<seq<MPoly>>, lists2: seq<seq<MPoly>>,
                   levels0: seq<set<MPoly>>, levels: seq<set<MPoly>>,
                   init: seq<Dependency>, copied: seq<Dependency>, deps: seq<Dependency>)
    requires ValidOf(n, la, da) && ValidOf(n, lb, db)
    requires Enumerates(lists1, la) && Enumerates(lists2, lb)
    requires ValidOf(n, levels0, init)
    requires forall dep :: dep in copied <==> dep in da || dep in db
    requires LevelsGrow(levels0, levels) && ShapeOf(n, levels, deps)
    requires init + copied <= deps && NewSourcesIn(levels, init + copied, deps)
    requires forall p :: p in Flatten(lists1) ==> StoredIn(levels, p)
    requires forall p :: p in Flatten(lists2) ==> StoredIn(levels, p)
    ensures ValidOf(n, levels, deps)
    ensures forall p :: StoredIn(la, p) || StoredIn(lb, p) ==> StoredIn(levels, p)
    ensures forall dep :: dep in da || dep in db ==> dep in deps
  {
    FlattenStored(lists1, la, n, da);
    FlattenStored(lists2, lb, n, db);
    forall dep | dep in deps
      ensures SourcesIn(levels, dep)
    {
      if dep in init {
        SourcesGrow(levels0, levels, dep);
      } else if dep in copied {
        var from := if dep in da then la else lb;
        assert SourcesIn(from, dep);
        forall s | s in Sources(dep)
          ensures StoredIn(levels, s)
        {
          assert StoredIn(from, s);
        }
      } else {
        assert dep !in init + copied;
      }
    }
    forall dep | dep in da || dep in db
      ensures dep in deps
    {
      assert dep in init + copied;
    }
  }

  /**
   * `LevelGraph(graph, exclude)`: the primary constructor over graph's
   * ring and box; a failure when exclude has no level of the graph or is
   * not stored in it; otherwise graph's levels and dependencies are copied
   * in and exclude is removed with everything only it justified.
   */
  method Exclude(alg: Algebra, graph: LevelGraph, exclude: MPoly, fuel: nat) returns (g: LevelGraph, r: Result<()>)
    requires graph.Valid()
    ensures fresh(g) && g.ring == graph.ring && g.bounds == graph.bounds
    ensures !(0 <= Level(exclude) < |graph.bounds|) ==> r.Err?
    ensures !graph.Stored(exclude) ==> r.Err?
    ensures r.Ok? ==> g.Valid() && !g.Stored(exclude)
    ensures r.Ok? && Level(exclude) > 0 ==> forall dep :: dep in g.dependencies ==> !IsDependencyOf(dep, exclude)
    ensures r.Ok? ==> forall l, q :: 0 <= l < |graph.levels| && q in graph.levels[l] && q !in g.levels[l] && q != exclude ==>
      Untargeted(g.dependencies, q)
    ensures r.Ok? ==> CascadeDone(graph.dependencies, g.dependencies, g.levels, [])
  {
    g, r := Create(alg, graph.ring, graph.bounds, fuel);
    if r.Err? {
      return;
    }
    var level := LevelOf(exclude);
    if level < 0 || level >= |graph.levels| {
      return g, Err(IndexOutOfBounds);
    }
    if exclude !in graph.levels[level] {
      return g, Err(IllegalState("Removing non-existent polynomial"));
    }
    ghost var levels0, deps0 := g.levels, g.dependencies;
    g.CopyFrom(graph);
    MergeValid(|graph.bounds|, levels0, deps0, graph.levels, graph.dependencies);
    ghost var levels1, deps1 := g.levels, g.dependencies;
    g.Remove(exclude);
    ExcludeOrphans(graph.levels, levels1, g.levels, deps1, g.dependencies, exclude);
    CascadeFrom(deps1, graph.dependencies, g.dependencies, g.levels);
  }

  /** What the exclusion removed besides exclude itself is targeted by no remaining dependency. */
  lemma ExcludeOrphans(source: seq<set<MPoly>>, copied: seq<set<MPoly>>, levels: seq<set<MPoly>>,
                       deps0: seq<Dependency>, deps: seq<Dependency>, exclude: MPoly)
    requires |source| == |copied| && LevelsGrow(source, copied)
    requires OrphansSince(copied, levels, deps0, deps, exclude) && |levels| == |copied|
    ensures forall l, q :: 0 <= l < |source| && q in source[l] && q !in levels[l] && q != exclude ==> Untargeted(deps, q)
  {
    forall l, q | 0 <= l < |source| && q in source[l] && q !in levels[l] && q != exclude
      ensures Untargeted(deps, q)
    {
      assert q in copied[l];
      assert Orphaned(q, deps0, deps);
    }
  }
}
