/**
 * `AdaptiveRootIsolation`: roots of a set of polynomials inside bounds.
 * A linear polynomial gives its rational root; any other is isolated by a
 * bisection work stack driven by the Descartes count, with interval
 * results memoised per (polynomial, bounds) in an LRU cache. Roots are
 * returned as the isolating intervals the source wraps into `Root`s.
 */
module AdaptiveIsolation {
  import opened Wrappers
  import opened Polynomials
  import opened PolyTools
  import opened Intervals
  import opened Roots
  import opened Lru
  import opened Gathering

  /** The state of a `Root` when it is created: its polynomial and isolating interval. */
  datatype RootBounds = RootBounds(polynomial: UPoly, low: real, high: real)

  /** `isRationalRoot`: the polynomial vanishes at q. */
  predicate IsRationalRoot(p: UPoly, q: real) {
    Eval(p, q) == 0.0
  }

  // ---------------------------------------------------------------------
  // isolateIrrationalRoots: the work stack
  // ---------------------------------------------------------------------

  /**
   * One round of the loop on a non-empty stack: pop the last interval; one
   * sign change makes it a root, more split it at the midpoint (recording
   * the midpoint when it is an exact root), none drops it.
   */
  function WorkStep(p: UPoly, queue: seq<Interval>, roots: seq<RootBounds>): Result<(seq<Interval>, seq<RootBounds>)>
    requires |queue| > 0
  {
    var iv := queue[|queue| - 1];
    var rest := queue[..|queue| - 1];
    match SignChangesOn(p, iv.low, iv.high)
    case Err(e) => Err(e)
    case Ok(n) =>
      if n == 1 then Ok((rest, roots + [RootBounds(p, iv.low, iv.high)]))
      else if n > 1 then
        var middle := Middle(iv.low, iv.high);
        var found := if IsRationalRoot(p, middle) then [RootBounds(p, middle, middle)] else [];
        Ok((Bisect(rest, iv), roots + found))
      else Ok((rest, roots))
  }

  /** The stack with the two halves of iv pushed, the upper half last. */
  function Bisect(rest: seq<Interval>, iv: Interval): (r: seq<Interval>)
    ensures |r| == |rest| + 2 && r[..|rest|] == rest
    ensures r[|rest|] == RawInterval(iv.low, Middle(iv.low, iv.high))
    ensures r[|rest| + 1] == RawInterval(Middle(iv.low, iv.high), iv.high)
  {
    var middle := Middle(iv.low, iv.high);
    var lower: Interval := RawInterval(iv.low, middle);
    var upper: Interval := RawInterval(middle, iv.high);
    rest + [lower, upper]
  }

  /** The loop run for at most `fuel` rounds; it runs out of fuel while the stack is not empty. */
  function Isolate(p: UPoly, queue: seq<Interval>, roots: seq<RootBounds>, fuel: nat): Result<seq<RootBounds>>
    decreases fuel
  {
    if |queue| == 0 then Ok(roots)
    else if fuel == 0 then Err(OutOfFuel)
    else
      match WorkStep(p, queue, roots)
      case Err(e) => Err(e)
      case Ok(next) => Isolate(p, next.0, next.1, fuel - 1)
  }

  /** The roots the bisection leaves, then the initial interval's endpoints that are exact roots. */
  function IrrationalRoots(p: UPoly, initial: Interval, fuel: nat): Result<seq<RootBounds>> {
    match Isolate(p, [initial], [], fuel)
    case Err(e) => Err(e)
    case Ok(roots) =>
      Ok(roots
         + (if IsRationalRoot(p, initial.low) then [RootBounds(p, initial.low, initial.low)] else [])
         + (if IsRationalRoot(p, initial.high) then [RootBounds(p, initial.high, initial.high)] else []))
  }

  /** `isolateIrrationalRoots(polynomial, initialInterval)`. */
  method IsolateIrrationalRoots(p: UPoly, initial: Interval, fuel: nat) returns (r: Result<seq<RootBounds>>)
    ensures r == IrrationalRoots(p, initial, fuel)
  {
    var roots: seq<RootBounds> := [];
    var queue: seq<Interval> := [initial];
    var f := fuel;
    while |queue| > 0
      invariant Isolate(p, queue, roots, f) == Isolate(p, [initial], [], fuel)
      decreases f
    {
      if f == 0 {
        return Err(OutOfFuel);
      }
      var next := Step(p, queue, roots);
      if next.Err? {
        return Err(next.error);
      }
      queue, roots := next.value.0, next.value.1;
      f := f - 1;
    }
    var atLow := if IsRationalRoot(p, initial.low) then [RootBounds(p, initial.low, initial.low)] else [];
    var atHigh := if IsRationalRoot(p, initial.high) then [RootBounds(p, initial.high, initial.high)] else [];
    return Ok(roots + atLow + atHigh);
  }

  /** The loop body: pop, count sign changes, and record or split. */
  method Step(p: UPoly, queue: seq<Interval>, roots: seq<RootBounds>) returns (r: Result<(seq<Interval>, seq<RootBounds>)>)
    requires |queue| > 0
    ensures r == WorkStep(p, queue, roots)
  {
    var iv := queue[|queue| - 1];
    var rest := queue[..|queue| - 1];
    var signChanges := CountSignChanges(p, iv.low, iv.high);
    if signChanges.Err? {
      return Err(signChanges.error);
    }
    if signChanges.value == 1 {
      return Ok((rest, roots + [RootBounds(p, iv.low, iv.high)]));
    }
    if signChanges.value > 1 {
      var middle := Middle(iv.low, iv.high);
      var found := if IsRationalRoot(p, middle) then [RootBounds(p, middle, middle)] else [];
      return Ok((Bisect(rest, iv), roots + found));
    }
    return Ok((rest, roots));
  }

  // ---------------------------------------------------------------------
  // what the work stack guarantees
  // ---------------------------------------------------------------------

  /**
   * An isolating interval of p inside bounds: Descartes counts exactly one
   * sign change on it, or it is a point at which p vanishes.
   */
  predicate Isolating(p: UPoly, bounds: Interval, root: RootBounds) {
    && root.polynomial == p
    && bounds.low <= root.low <= root.high <= bounds.high
    && (SignChangesOn(p, root.low, root.high) == Ok(1) || (root.low == root.high && IsRationalRoot(p, root.low)))
  }

  predicate AllInside(queue: seq<Interval>, bounds: Interval) {
    forall i :: 0 <= i < |queue| ==> bounds.low <= queue[i].low && queue[i].high <= bounds.high
  }

  predicate AllIsolating(p: UPoly, bounds: Interval, roots: seq<RootBounds>) {
    forall i :: 0 <= i < |roots| ==> Isolating(p, bounds, roots[i])
  }

  /** A round keeps every stacked interval inside bounds and records only isolating intervals. */
  lemma WorkStepSound(p: UPoly, bounds: Interval, queue: seq<Interval>, roots: seq<RootBounds>)
    requires |queue| > 0 && AllInside(queue, bounds) && AllIsolating(p, bounds, roots)
    requires WorkStep(p, queue, roots).Ok?
    ensures AllInside(WorkStep(p, queue, roots).value.0, bounds)
    ensures AllIsolating(p, bounds, WorkStep(p, queue, roots).value.1)
  {
    var iv := queue[|queue| - 1];
    assert bounds.low <= iv.low && iv.high <= bounds.high;
  }

  /** Every interval the bisection returns isolates a root of p inside the initial stack's bounds. */
  lemma {:induction false} IsolateSound(p: UPoly, bounds: Interval, queue: seq<Interval>, roots: seq<RootBounds>, fuel: nat)
    requires AllInside(queue, bounds) && AllIsolating(p, bounds, roots)
    requires Isolate(p, queue, roots, fuel).Ok?
    ensures AllIsolating(p, bounds, Isolate(p, queue, roots, fuel).value)
    decreases fuel
  {
    if |queue| > 0 {
      WorkStepSound(p, bounds, queue, roots);
      var next := WorkStep(p, queue, roots).value;
      IsolateSound(p, bounds, next.0, next.1, fuel - 1);
    }
  }

  /** The bisection only appends: the roots found before are a prefix of the result. */
  lemma {:induction false} IsolateExtends(p: UPoly, queue: seq<Interval>, roots: seq<RootBounds>, fuel: nat)
    requires Isolate(p, queue, roots, fuel).Ok?
    ensures roots <= Isolate(p, queue, roots, fuel).value
    decreases fuel
  {
    if |queue| > 0 {
      var next := WorkStep(p, queue, roots).value;
      IsolateExtends(p, next.0, next.1, fuel - 1);
    }
  }

  /**
   * Every interval of `isolateIrrationalRoots` isolates a root inside the
   * initial interval, and an endpoint of it that is an exact root is
   * reported as a point.
   */
  lemma IrrationalRootsSound(p: UPoly, initial: Interval, fuel: nat)
    requires IrrationalRoots(p, initial, fuel).Ok?
    ensures AllIsolating(p, initial, IrrationalRoots(p, initial, fuel).value)
    ensures IsRationalRoot(p, initial.low) ==> RootBounds(p, initial.low, initial.low) in IrrationalRoots(p, initial, fuel).value
    ensures IsRationalRoot(p, initial.high) ==> RootBounds(p, initial.high, initial.high) in IrrationalRoots(p, initial, fuel).value
  {
    IsolateSound(p, initial, [initial], [], fuel);
  }

  /** The bisection fails only by running out of fuel or by a transform beyond the factor table. */
  lemma {:induction false} IsolateFails(p: UPoly, queue: seq<Interval>, roots: seq<RootBounds>, fuel: nat)
    requires Isolate(p, queue, roots, fuel).Err?
    ensures Isolate(p, queue, roots, fuel).error == OutOfFuel ||
      (Isolate(p, queue, roots, fuel).error == IndexOutOfBounds && !WithinTable(p, |p|))
    decreases fuel
  {
    if |queue| > 0 && fuel > 0 && WorkStep(p, queue, roots).Ok? {
      var next := WorkStep(p, queue, roots).value;
      IsolateFails(p, next.0, next.1, fuel - 1);
    }
  }

  // ---------------------------------------------------------------------
  // isolateRootsInBounds
  // ---------------------------------------------------------------------

  /** `isLinearExactly`: degree one. */
  predicate IsLinear(p: UPoly) {
    Degree(p) == 1
  }

  /**
   * The roots one factor contributes: a linear factor its rational root
   * when that lies in bounds, any other factor the bisection's intervals.
   */
  function FactorRoots(p: UPoly, bounds: Interval, fuel: nat): Result<seq<RootBounds>> {
    if IsLinear(p) then
      var root := RationalRoot(p);
      Ok(if Contains(bounds, root) then [RootBounds(p, root, root)] else [])
    else IrrationalRoots(p, bounds, fuel)
  }

  /** The roots of one factor as a function value, for the concatenation over the factors. */
  function Isolator(bounds: Interval, fuel: nat): UPoly -> Result<seq<RootBounds>> {
    (f: UPoly) => FactorRoots(f, bounds, fuel)
  }

  /** The results of every distinct polynomial, as the source computes them without its cache. */
  function RootsInBounds(polynomials: seq<UPoly>, bounds: Interval, fuel: nat): Result<seq<RootBounds>> {
    var factors := Dedup(polynomials);
    Gather(factors, Isolator(bounds, fuel), |factors|)
  }

  type Cache = LRUCache<(UPoly, Interval), seq<RootBounds>>

  /** Every cached list is what the bisection computes for its key. */
  ghost predicate CacheSound(values: map<(UPoly, Interval), seq<RootBounds>>, fuel: nat) {
    forall key {:trigger values[key]} :: key in values ==> IrrationalRoots(key.0, key.1, fuel) == Ok(values[key])
  }

  /**
   * `isolateRootsInBounds(polynomials, bounds)`: with a sound cache the
   * result is the same as without it, and the cache stays sound. Storing a
   * result fails as the LRU cache does when its capacity is 0.
   */
  method IsolateRootsInBounds(polynomials: seq<UPoly>, bounds: Interval, cache: Cache, fuel: nat) returns (r: Result<seq<RootBounds>>)
    requires cache.Valid() && CacheSound(cache.entries.values, fuel)
    modifies cache
    ensures cache.Valid() && CacheSound(cache.entries.values, fuel)
    ensures r.Ok? ==> r == RootsInBounds(polynomials, bounds, fuel)
    ensures r.Err? ==> RootsInBounds(polynomials, bounds, fuel).Err? || (r.error == NoSuchElement && cache.capacity == 0)
  {
    r := GatherCached(Dedup(polynomials), bounds, cache, fuel);
  }

  /** The loop over the distinct polynomials, concatenating their roots in order. */
  method GatherCached(factors: seq<UPoly>, bounds: Interval, cache: Cache, fuel: nat) returns (r: Result<seq<RootBounds>>)
    requires cache.Valid() && CacheSound(cache.entries.values, fuel)
    modifies cache
    ensures cache.Valid() && CacheSound(cache.entries.values, fuel)
    ensures r.Ok? ==> r == Gather(factors, Isolator(bounds, fuel), |factors|)
    ensures r.Err? ==> Gather(factors, Isolator(bounds, fuel), |factors|).Err? || (r.error == NoSuchElement && cache.capacity == 0)
  {
    var result: seq<RootBounds> := [];
    var i := 0;
    while i < |factors|
      invariant i <= |factors|
      invariant cache.Valid() && CacheSound(cache.entries.values, fuel)
      invariant Gather(factors, Isolator(bounds, fuel), i) == Ok(result)
    {
      var next := AddFactor(factors, bounds, cache, fuel, i, result);
      if next.Err? {
        return next;
      }
      result := next.value;
      i := i + 1;
    }
    return Ok(result);
  }

  /** `result += …` for factor i, through the cache. */
  method AddFactor(factors: seq<UPoly>, bounds: Interval, cache: Cache, fuel: nat, i: nat, result: seq<RootBounds>)
      returns (r: Result<seq<RootBounds>>)
    requires i < |factors| && Gather(factors, Isolator(bounds, fuel), i) == Ok(result)
    requires cache.Valid() && CacheSound(cache.entries.values, fuel)
    modifies cache
    ensures cache.Valid() && CacheSound(cache.entries.values, fuel)
    ensures r.Ok? ==> r == Gather(factors, Isolator(bounds, fuel), i + 1)
    ensures r.Err? ==> Gather(factors, Isolator(bounds, fuel), |factors|).Err? || (r.error == NoSuchElement && cache.capacity == 0)
  {
    var next := FactorRootsCached(factors[i], bounds, cache, fuel);
    GatherNext(factors, Isolator(bounds, fuel), i, result);
    if next.Err? {
      if next.error != NoSuchElement || cache.capacity != 0 {
        GatherErrorStays(factors, Isolator(bounds, fuel), i + 1, |factors|);
      }
      return Err(next.error);
    }
    return Ok(result + next.value);
  }

  /** One factor of the loop: the linear case, then a cache hit, then a fresh isolation that is stored. */
  method FactorRootsCached(factor: UPoly, bounds: Interval, cache: Cache, fuel: nat) returns (r: Result<seq<RootBounds>>)
    requires cache.Valid() && CacheSound(cache.entries.values, fuel)
    modifies cache
    ensures cache.Valid() && CacheSound(cache.entries.values, fuel)
    ensures r.Ok? ==> r == FactorRoots(factor, bounds, fuel)
    ensures r.Err? ==> FactorRoots(factor, bounds, fuel).Err? || (r.error == NoSuchElement && cache.capacity == 0)
  {
    if IsLinear(factor) {
      var root := RationalRoot(factor);
      return Ok(if Contains(bounds, root) then [RootBounds(factor, root, root)] else []);
    }
    var key := (factor, bounds);
    var cached := cache.Get(key);
    if cached.Some? {
      return Ok(cached.value);
    }
    var roots := IsolateIrrationalRoots(factor, bounds, fuel);
    if roots.Err? {
      return Err(roots.error);
    }
    ghost var before := cache.entries;
    var stored := cache.Set(key, roots.value);
    if !stored {
      return Err(NoSuchElement);
    }
    PutKeepsSound(before, cache.capacity, key, roots.value, fuel);
    return Ok(roots.value);
  }

  /** Storing a correct list keeps the cache sound, whatever Put evicts. */
  lemma PutKeepsSound(e: Entries<(UPoly, Interval), seq<RootBounds>>, capacity: int, key: (UPoly, Interval), value: seq<RootBounds>, fuel: nat)
    requires CacheSound(e.values, fuel) && IrrationalRoots(key.0, key.1, fuel) == Ok(value)
    requires Put(e, capacity, key, value).Some?
    ensures CacheSound(Put(e, capacity, key, value).value.values, fuel)
  {
    var values := Put(e, capacity, key, value).value.values;
    PutStores(e, capacity, key, value);
    PutKeepsOthers(e, capacity, key, value);
    forall k | k in values
      ensures IrrationalRoots(k.0, k.1, fuel) == Ok(values[k])
    {
      if k != key {
        assert IrrationalRoots(k.0, k.1, fuel) == Ok(e.values[k]);
      }
    }
  }

  /** A linear factor contributes exactly its rational root, and only when that lies in bounds. */
  lemma LinearFactorRoots(p: UPoly, bounds: Interval, fuel: nat)
    requires IsLinear(p)
    ensures Coeff(p, 1) != 0.0 && IsRationalRoot(p, RationalRoot(p))
    ensures FactorRoots(p, bounds, fuel) ==
      Ok(if bounds.low <= RationalRoot(p) <= bounds.high then [RootBounds(p, RationalRoot(p), RationalRoot(p))] else [])
  {
    RationalRootIsZero(p);
  }

  /** Every interval of the combined result isolates a root of one of the input polynomials inside bounds. */
  lemma RootsInBoundsSound(polynomials: seq<UPoly>, bounds: Interval, fuel: nat)
    requires RootsInBounds(polynomials, bounds, fuel).Ok?
    ensures forall root :: root in RootsInBounds(polynomials, bounds, fuel).value ==>
      root.polynomial in polynomials && Isolating(root.polynomial, bounds, root)
  {
    var factors := Dedup(polynomials);
    var isolate := Isolator(bounds, fuel);
    GatherMembers(factors, isolate, |factors|);
    forall j | 0 <= j < |factors| && isolate(factors[j]).Ok?
      ensures forall root :: root in isolate(factors[j]).value ==>
        root.polynomial == factors[j] && Isolating(root.polynomial, bounds, root)
    {
      FactorRootsSound(factors[j], bounds, fuel);
    }
  }

  /** Every root one factor contributes belongs to it and isolates a root inside bounds. */
  lemma FactorRootsSound(p: UPoly, bounds: Interval, fuel: nat)
    requires FactorRoots(p, bounds, fuel).Ok?
    ensures forall root :: root in FactorRoots(p, bounds, fuel).value ==> root.polynomial == p && Isolating(p, bounds, root)
  {
    if IsLinear(p) {
      LinearFactorRoots(p, bounds, fuel);
    } else {
      IrrationalRootsSound(p, bounds, fuel);
    }
  }
}
