# biodivine-algebraic-toolkit, modelled in Dafny

This project models the computational core of biodivine-algebraic-toolkit. The toolkit is a Kotlin/Java library for exact parameter synthesis of polynomial dynamical systems. The model covers:

- **Limb-array natural numbers** (`IntArrayMath`): little-endian arrays of 31-bit limbs. Addition, subtraction, multiplication and the fused multiply-shift-add write a caller-supplied output array in place. Equality, comparison and cardinality ignore trailing zero limbs.
- **Exact interval arithmetic and boxes** (`Intervals`, `Boxes`): rational intervals with `+ − × ÷`, intersection and scalar products. Boxes are products of intervals, with their volume and their `2^d` subdivision.
- **Interval evaluation** (`IntervalEval`): univariate, multivariate and rational polynomials evaluated over boxes, including the memoised interval power and `mapInto`. Every result encloses the exact value.
- **Small stateful structures**:
  - the LRU cache (`Lru`: a class over a key-order sequence and a map, with its request and hit counters);
  - the rectangular transition system with forward and backward reachability (`TransitionSystems`);
  - the box-refinement state space and its facet transitions (`StateSpaces`).
- **Descartes root isolation** (`PolyTools`, `Roots`, `AdaptiveIsolation`, `PolyFactorIsolation`, `SquareFreeIsolation`):
  - the coefficient sign-change count, the default root bound and the Möbius transform;
  - the mutable `Root` with its lazy refinement and comparisons;
  - the three bisection work-stack isolators.
- **Cylindrical-decomposition bookkeeping** (`LevelLists`, `TreeSolvers`, `LevelGraphs`, `CellWalks`, `CADPolys`, `Cells`, `SemiAlgSets`):
  - level-list `zip`;
  - the semi-algebraic tree solver (lookup, level lists, root pairs, `makeLevelList`, `intersectCylinder`, `positive`, `apply`, `and`);
  - the `LevelGraph` dependency graph and its cell scans;
  - the `CADPolynomials` projection tower;
  - the cell-set algebra of `SemiAlgSet`.

How the toolkit's types appear in the model:

- Rationals are Dafny `real`s.
- Univariate polynomials are coefficient sequences, constant term first.
- Multivariate polynomials are rings-library values: a variable count and monomials.
- Calls into the computer-algebra library are fields of oracle records passed as parameters. These are factorisation, square-free factorisation, subresultants, partial evaluation and conversion to univariate form.
- `SemiAlgSets` also takes its level-graph operations (create, union, exclude, basis, walkCells, cellForPoint) as fields of an abstract record `Graphs`, which the model does not connect to `LevelGraphs`.
- Exceptions and `!!`/`error(...)` failures are `Result` errors.
- Loops whose termination rests on root separation run under an explicit `fuel` bound, and report `OutOfFuel` when it is exhausted.

## Model

| member | source | states |
|---|---|---|
| `IntArrayMath.Addition` | src/main/kotlin/biodivine/algebra/IntArrayMath.kt:38-71 | fails exactly when c is shorter than the longer argument; a sum that fits into c is written exactly; one that does not is possible only when c is exactly that long, and then c holds the sum less 2^(31·|c|) (the dropped carry) |
| `IntArrayMath.AddLimbs` | src/main/kotlin/biodivine/algebra/IntArrayMath.kt:50-63 | the two carry loops: limbs [0, \|a\|) of c and the outgoing carry (0 or 1) together denote a + b |
| `IntArrayMath.AddRound` | src/main/kotlin/biodivine/algebra/IntArrayMath.kt:55-57 | one loop round: the limb written is the 31 low bits of the sum, the carry its high part |
| `IntArrayMath.CheckedAddition` | src/main/kotlin/biodivine/algebra/IntArrayMath.kt:38-47 | the documented addition: succeeds exactly when the sum fits into c, and then c denotes a + b |
| `IntArrayMath.AdditionDropsCarry` | src/main/kotlin/biodivine/algebra/IntArrayMath.kt:59-67 | [2^31 − 1] + [1] into a one-limb output: the sum is 2^31, so the written value 0 has lost the carry |
| `IntArrayMath.SubtractLimbs` | src/main/kotlin/biodivine/algebra/IntArrayMath.kt:85-94 | the borrow loop: limbs [0, max(\|a\|, \|b\|)) of c, less the final borrow times the radix power, denote a − b |
| `IntArrayMath.Subtraction` | src/main/kotlin/biodivine/algebra/IntArrayMath.kt:73-105 | fails as "output too small" exactly when c is shorter than an argument, else as underflow exactly when a < b; otherwise c denotes a − b and its limbs past the arguments are zero |
| `IntArrayMath.MulAddLimbs` | src/main/kotlin/biodivine/algebra/IntArrayMath.kt:139-150 | the first loop of constMulShiftAdd: c plus the returned carry at weight shift + \|a\| denotes old c + a·b·2^(31·shift); limbs below shift unchanged |
| `IntArrayMath.PropagateCarry` | src/main/kotlin/biodivine/algebra/IntArrayMath.kt:151-157 | the carry loop: succeeds exactly when old c + carry·2^(31·k) fits into c, and then c denotes it; limbs below k unchanged |
| `IntArrayMath.LongSumBound` | src/main/kotlin/biodivine/algebra/IntArrayMath.kt:142-146 | c[k] + a[i]·b + carry stays below 2^63 (no Long overflow) and its carry stays below the radix |
| `IntArrayMath.ConstMulShiftAdd` | src/main/kotlin/biodivine/algebra/IntArrayMath.kt:128-159 | c += (a·b) << (31·shift) in place; fails (the index error) exactly when a shifted a or the result does not fit into c; limbs below shift unchanged |
| `IntArrayMath.ClearFrom` | src/main/kotlin/biodivine/algebra/IntArrayMath.kt:98-101 | the limbs from the index on become zero and those below keep their values |
| `IntArrayMath.Multiplication` | src/main/kotlin/biodivine/algebra/IntArrayMath.kt:107-126 | on success c denotes a·b; success is guaranteed when \|c\| ≥ \|a\| + \|b\|, and otherwise holds exactly when every partial product fits |
| `IntArrayMath.ProductFitsWhenLongEnough` | src/main/kotlin/biodivine/algebra/IntArrayMath.kt:114 | with \|a\| + \|b\| output limbs every step of the schoolbook multiplication fits |
| `IntArrayMath.Equals` | src/main/kotlin/biodivine/algebra/IntArrayMath.kt:161-174 | true exactly when both arrays denote the same number, whatever their trailing zeros |
| `IntArrayMath.Compare` | src/main/kotlin/biodivine/algebra/IntArrayMath.kt:176-193 | −1, 0 or 1, the sign of value(a) − value(b) |
| `IntArrayMath.Cardinality` | src/main/kotlin/biodivine/algebra/IntArrayMath.kt:195-202 | the dropped limbs are all zero, the last kept limb is not, and the kept prefix denotes the same number |
| `IntArrayMath.GetOr` | src/main/kotlin/biodivine/algebra/IntArrayMath.kt:204 | the limb at the index, or 0 past the end |
| `IntArrayMath.ToBigInteger` | src/main/kotlin/biodivine/algebra/IntArrayMath.kt:206-217 | the accumulated sum of limb·radix^i is the number the array denotes |
| `IntArrayMath.ValueIgnoresTrailingZeros` | src/main/kotlin/biodivine/algebra/IntArrayMath.kt:14 | appending zero limbs never changes the number |
| `IntArrayMath.ValueUpToInjective` | src/main/kotlin/biodivine/algebra/IntArrayMath.kt:7-16 | two limb sequences denote the same number below n exactly when they agree limb by limb |
| `Intervals.Make` | src/main/kotlin/biodivine/algebra/ia/Interval.kt:12-18 | the constructor succeeds exactly when low ≤ high, with those ends |
| `Intervals.Size` | src/main/kotlin/biodivine/algebra/ia/Interval.kt:25-26 | the width is never negative |
| `Intervals.SizeBoundsDistance` | src/main/kotlin/biodivine/algebra/ia/Interval.kt:25-26 | no two points of the interval lie further apart than its size |
| `Intervals.HasZero` | src/main/kotlin/biodivine/algebra/ia/Interval.kt:28-29 | true exactly when 0 lies in the interval |
| `Intervals.Center` | src/main/kotlin/biodivine/algebra/ia/Interval.kt:31-32 | a point of the interval equally far from both ends |
| `Intervals.IsNumber` | src/main/kotlin/biodivine/algebra/ia/Interval.kt:82 | true exactly when the size is 0 |
| `Intervals.IsNumberMeansSinglePoint` | src/main/kotlin/biodivine/algebra/ia/Interval.kt:82 | a number interval holds its low end and nothing else, and only such intervals do |
| `Intervals.PlusEncloses` | src/main/kotlin/biodivine/algebra/ia/Interval.kt:34-36 | the sum interval holds every sum of points, and its ends are the sums of the ends |
| `Intervals.MinusEncloses` | src/main/kotlin/biodivine/algebra/ia/Interval.kt:38-40 | the difference interval holds every difference of points, with both ends attained |
| `Intervals.TimesEncloses` | src/main/kotlin/biodivine/algebra/ia/Interval.kt:42-53 | every product of a point of a and a point of b lies in a·b |
| `Intervals.TimesTight` | src/main/kotlin/biodivine/algebra/ia/Interval.kt:42-53 | both ends of a·b are products of endpoints, so no tighter interval encloses every product |
| `Intervals.TimesScalarEncloses` | src/main/kotlin/biodivine/algebra/ia/Interval.kt:64-70 | the interval times a rational holds x·q for every point x, whatever the sign of q |
| `Intervals.ScalarTimes` | src/main/kotlin/biodivine/algebra/ia/Interval.kt:88 | rational times interval fails exactly for a negative factor on an interval wider than a point (no swap of ends), and otherwise equals the interval times the rational |
| `Intervals.Div` | src/main/kotlin/biodivine/algebra/ia/Interval.kt:55-62 | division fails exactly when the divisor contains 0 |
| `Intervals.DivByReciprocal` | src/main/kotlin/biodivine/algebra/ia/Interval.kt:57-61 | a divisor without 0 is replaced by [1/high, 1/low] and multiplied |
| `Intervals.ReciprocalEncloses` | src/main/kotlin/biodivine/algebra/ia/Interval.kt:57-61 | [1/high, 1/low] holds 1/y for every point y of a divisor without 0 |
| `Intervals.DivEncloses` | src/main/kotlin/biodivine/algebra/ia/Interval.kt:55-62 | every quotient of a point of a by a point of b lies in a / b |
| `Intervals.IntersectsMeansCommonPoint` | src/main/kotlin/biodivine/algebra/ia/Interval.kt:72 | two intervals intersect exactly when they share a point |
| `Intervals.Intersect` | src/main/kotlin/biodivine/algebra/ia/Interval.kt:74-78 | defined exactly for intersecting intervals, and then holds exactly the common points |
| `Boxes.Widths` | src/main/kotlin/biodivine/algebra/synth/Box.kt:27-29 | one width per dimension, high − low of that interval |
| `Boxes.Volume` | src/main/kotlin/biodivine/algebra/synth/Box.kt:21-29 | the fold of the widths from 1: never negative, and 1 for a box without dimensions |
| `Boxes.MaskCount` | src/main/kotlin/biodivine/algebra/synth/Box.kt:37 | the number of masks visited: 1.shl(d) as a 32-bit Int, none when that is not positive |
| `Boxes.MaskCountSmall` | src/main/kotlin/biodivine/algebra/synth/Box.kt:37 | for at most 30 dimensions exactly 2^d masks |
| `Boxes.Bit` | src/main/kotlin/biodivine/algebra/synth/Box.kt:42 | mask.shr(d).and(1) is 0 or 1 |
| `Boxes.MaskOfBit` | src/main/kotlin/biodivine/algebra/synth/Box.kt:38-42 | every choice of halves is the bit pattern of some mask |
| `Boxes.Child` | src/main/kotlin/biodivine/algebra/synth/Box.kt:39-47 | the child of a mask takes, in every dimension, the upper half when the mask's bit is 1 and the lower half otherwise |
| `Boxes.Subdivide` | src/main/kotlin/biodivine/algebra/synth/Box.kt:31-51 | one child per mask, in mask order |
| `Boxes.ChildIntervalHalves` | src/main/kotlin/biodivine/algebra/synth/Box.kt:40-46 | each half lies inside its interval and is half as wide |
| `Boxes.HalvesCover` | src/main/kotlin/biodivine/algebra/synth/Box.kt:40-46 | the two halves meet at the midpoint and together hold exactly the interval's points |
| `Boxes.ChildInside` | src/main/kotlin/biodivine/algebra/synth/Box.kt:31-51 | every point of a child lies in the parent |
| `Boxes.ChildVolume` | src/main/kotlin/biodivine/algebra/synth/Box.kt:31-32 | every child has 1/2^d of the parent's volume |
| `Boxes.SubdivideCovers` | src/main/kotlin/biodivine/algebra/synth/Box.kt:31-51 | for at most 30 dimensions every point of the box lies in some child |
| `Boxes.Equals` | src/main/kotlin/biodivine/algebra/synth/Box.kt:53-62 | boxes are equal exactly when their interval arrays are |
| `Boxes.HashCode` | src/main/kotlin/biodivine/algebra/synth/Box.kt:64-66 | contentHashCode, a wrapped 32-bit value |
| `Boxes.EqualsHashCode` | src/main/kotlin/biodivine/algebra/synth/Box.kt:53-66 | equal boxes have equal hash codes |
| `Lru.PutFails` | src/main/java/biodivine/algebra/LRUCache.java:30-39 | set fails (the iterator's next throws) exactly for a new key when the map is empty and full at once, i.e. capacity 0 |
| `Lru.PutWellFormed` | src/main/java/biodivine/algebra/LRUCache.java:30-39 | a successful set keeps the insertion order and the mapping consistent, each key listed once |
| `Lru.PutBounded` | src/main/java/biodivine/algebra/LRUCache.java:30-39 | with a non-negative capacity the map never grows past the capacity |
| `Lru.PutStores` | src/main/java/biodivine/algebra/LRUCache.java:38 | after set the key maps to the new value and is the most recent entry |
| `Lru.PutKeepsOthers` | src/main/java/biodivine/algebra/LRUCache.java:30-39 | every other key still present keeps its old value |
| `Lru.PutThenLookup` | src/main/java/biodivine/algebra/LRUCache.java:19-39 | get after set returns the value just set |
| `Lru.PutExisting` | src/main/java/biodivine/algebra/LRUCache.java:31-32 | re-setting a present key evicts nothing and keeps every other entry |
| `Lru.PutEvicts` | src/main/java/biodivine/algebra/LRUCache.java:33-37 | a new key in a full map evicts exactly the least recently used key and keeps every other entry |
| `Lru.PutGrows` | src/main/java/biodivine/algebra/LRUCache.java:33-38 | a new key in a map that is not full evicts nothing |
| `Lru.LookupResult` | src/main/java/biodivine/algebra/LRUCache.java:19-28 | a hit returns the stored value, keeps the mapping and makes the key most recent; a miss returns nothing and changes nothing |
| `Lru.LookupIsPut` | src/main/java/biodivine/algebra/LRUCache.java:22-25 | a hit re-sets the value already stored |
| `Lru.LRUCache.constructor` | src/main/java/biodivine/algebra/LRUCache.java:11-17 | a fresh cache: the given capacity, an empty map and zero counters |
| `Lru.LRUCache.Set` | src/main/java/biodivine/algebra/LRUCache.java:30-39 | succeeds exactly when the pure set does (false where the source throws), the entries become its result, the counters are unchanged, and the cache stays valid |
| `Lru.LRUCache.Get` | src/main/java/biodivine/algebra/LRUCache.java:19-28 | requests grows by one, hits by one exactly on a hit, the result and new entries are those of the pure lookup |
| `TransitionSystems.Flip` | src/main/kotlin/biodivine/algebra/synth/RectTransitionSystem.kt:8 | the transitions with source and target swapped, in the same order |
| `TransitionSystems.Targets` | src/main/kotlin/biodivine/algebra/synth/RectTransitionSystem.kt:7-8 | the group of a key in groupBy holds, in order, the targets of exactly the transitions leaving that key, and is empty for a missing key |
| `TransitionSystems.ExpandIsNext` | src/main/kotlin/biodivine/algebra/synth/RectTransitionSystem.kt:10-11 | the flat-map of the groups of a set is exactly the targets of the transitions leaving it |
| `TransitionSystems.NextForwardMeans` | src/main/kotlin/biodivine/algebra/synth/RectTransitionSystem.kt:10 | nextForward(S) is exactly the set of targets of transitions whose source is in S |
| `TransitionSystems.NextBackwardMeans` | src/main/kotlin/biodivine/algebra/synth/RectTransitionSystem.kt:11 | nextBackward(S) is exactly the set of sources of transitions whose target is in S |
| `TransitionSystems.NextMeans` | src/main/kotlin/biodivine/algebra/synth/RectTransitionSystem.kt:10-11 | the successor set is exactly the targets of transitions leaving the set |
| `TransitionSystems.NextUnion` | src/main/kotlin/biodivine/algebra/synth/RectTransitionSystem.kt:10-11 | the successor function distributes over union |
| `TransitionSystems.NextMonotone` | src/main/kotlin/biodivine/algebra/synth/RectTransitionSystem.kt:10-11 | the successor function is monotone |
| `TransitionSystems.LayerStep` | src/main/kotlin/biodivine/algebra/synth/RectTransitionSystem.kt:16-20 | one round of the loop adds exactly the successors of the frontier |
| `TransitionSystems.LayerFixpoint` | src/main/kotlin/biodivine/algebra/synth/RectTransitionSystem.kt:16-21 | when the frontier runs empty the result is closed under successors and equals the reachable set |
| `TransitionSystems.Successors` | src/main/kotlin/biodivine/algebra/synth/RectTransitionSystem.kt:10-11 | one call of nextForward or nextBackward returns the successor set |
| `TransitionSystems.Reach` | src/main/kotlin/biodivine/algebra/synth/RectTransitionSystem.kt:13-33 | the shared loop terminates with the set of states reachable from the start set |
| `TransitionSystems.ReachForward` | src/main/kotlin/biodivine/algebra/synth/RectTransitionSystem.kt:13-22 | reachForward returns exactly the states reachable from S, a superset of S closed under nextForward |
| `TransitionSystems.FlippedReachable` | src/main/kotlin/biodivine/algebra/synth/RectTransitionSystem.kt:8 | reachability over the flipped transitions is the ability to reach S |
| `TransitionSystems.ReachBackward` | src/main/kotlin/biodivine/algebra/synth/RectTransitionSystem.kt:24-33 | reachBackward returns exactly the states that can reach S, a superset of S closed under nextBackward |
| `PolyTools.GetFirstNonZeroCoefficient` | src/main/kotlin/biodivine/algebra/UnivariatePolynomialTools.kt:61-68 | the result is non-zero exactly when some coefficient is, and then it is the lowest-degree non-zero coefficient; 0 otherwise |
| `PolyTools.FirstNonZeroFound` | src/main/kotlin/biodivine/algebra/UnivariatePolynomialTools.kt:61-68 | the first non-zero coefficient, characterised independently of the loop |
| `PolyTools.GetNumberOfSignChanges` | src/main/kotlin/biodivine/algebra/UnivariatePolynomialTools.kt:42-59 | the loop's count equals the number of sign changes between neighbouring non-zero coefficients |
| `PolyTools.SignChangesIgnoresZero` | src/main/kotlin/biodivine/algebra/UnivariatePolynomialTools.kt:42-55 | inserting a zero coefficient anywhere leaves the count unchanged |
| `PolyTools.SignChangesZeroPoly` | src/main/kotlin/biodivine/algebra/UnivariatePolynomialTools.kt:42-55 | the zero polynomial has no sign change |
| `PolyTools.SignChangesBound` | src/main/kotlin/biodivine/algebra/UnivariatePolynomialTools.kt:42-55 | the count is at most the number of non-zero coefficients less one |
| `PolyTools.SignChangesScale` | src/main/kotlin/biodivine/algebra/UnivariatePolynomialTools.kt:42-59 | multiplying every coefficient by a non-zero constant, negation in particular, keeps the count |
| `PolyTools.GetDefaultBoundForDescartMethod` | src/main/kotlin/biodivine/algebra/UnivariatePolynomialTools.kt:70-82 | 0 for the zero polynomial; otherwise at least 2, at least twice every \|c_i / lc\|, and attained by some coefficient |
| `PolyTools.TransformPolyToInterval` | src/main/kotlin/biodivine/algebra/UnivariatePolynomialTools.kt:14-36 | fails with IndexOutOfBounds exactly when a non-zero coefficient needs a table entry (1 + x)^k with k > 10, and otherwise returns the summands of the non-zero coefficients |
| `PolyTools.TransformEval` | src/main/kotlin/biodivine/algebra/UnivariatePolynomialTools.kt:16-36 | the computed polynomial t satisfies t(x) = (1 + x)^n · p(y) wherever y·(1 + x) = l·x + u, i.e. it is (1 + x)^n · p((l·x + u)/(1 + x)) |
| `PolyTools.EvalNormalizationFactor` | src/main/kotlin/biodivine/algebra/UnivariatePolynomialTools.kt:14 | table entry k evaluates to (1 + x)^k |
| `PolyTools.EvalSubstitutionPower` | src/main/kotlin/biodivine/algebra/UnivariatePolynomialTools.kt:24-32 | the substitution after i rounds evaluates to (u + l·x)^i |
| `IntervalEval.EvaluateUPoly` | src/main/kotlin/biodivine/algebra/ia/package.kt:16-24 | the loop computes [c0, c0] plus x^i · c_i for i = 1 .. degree |
| `IntervalEval.UEvalEncloses` | src/main/kotlin/biodivine/algebra/ia/package.kt:16-24 | the interval value of p over x holds p(y) for every y in x |
| `IntervalEval.UEvalConstant` | src/main/kotlin/biodivine/algebra/ia/package.kt:16-24 | a constant polynomial evaluates to its point interval, whatever x is |
| `IntervalEval.PointPowerEncloses` | src/main/kotlin/biodivine/algebra/ia/package.kt:18-21 | the loop's k-th power holds y^k for every y in x |
| `IntervalEval.PowCached` | src/main/kotlin/biodivine/algebra/ia/package.kt:27-50 | fails on exponent 0, otherwise returns the power by squaring whether or not it was cached, and keeps every cache entry equal to the power it names |
| `IntervalEval.PowPositiveEncloses` | src/main/kotlin/biodivine/algebra/ia/package.kt:29-50 | the power by squaring holds y^e for every y in x |
| `IntervalEval.EvaluateMPoly` | src/main/kotlin/biodivine/algebra/ia/package.kt:26-64 | the loop computes the sum over monomials of (product of variable powers) · coefficient |
| `IntervalEval.EvaluateVars` | src/main/kotlin/biodivine/algebra/ia/package.kt:55-59 | the foldIndexed over a monomial's exponents, sharing the sound memo table |
| `IntervalEval.EvaluateVar` | src/main/kotlin/biodivine/algebra/ia/package.kt:56-58 | one fold step: a zero degree is skipped, otherwise the accumulator is multiplied by the variable's power |
| `IntervalEval.MEvalFails` | src/main/kotlin/biodivine/algebra/ia/package.kt:55-57 | evaluation fails exactly when a variable used with positive degree has no interval (x[i] out of bounds), and only with IndexOutOfBounds |
| `IntervalEval.FoldVarsEncloses` | src/main/kotlin/biodivine/algebra/ia/package.kt:55-59 | the fold over one monomial holds the product of its variable powers at every point of the box |
| `IntervalEval.MEvalEncloses` | src/main/kotlin/biodivine/algebra/ia/package.kt:26-64 | a successful evaluation holds p's exact value at every point of the box |
| `IntervalEval.EvaluateRational` | src/main/kotlin/biodivine/algebra/ia/package.kt:70-74 | numerator interval divided by denominator interval, the numerator's failure first |
| `IntervalEval.EvaluateRationalWith` | src/main/kotlin/biodivine/algebra/ia/package.kt:66-68 | the same evaluation over the parameters followed by the variables |
| `IntervalEval.REvalEncloses` | src/main/kotlin/biodivine/algebra/ia/package.kt:70-74 | a successful evaluation has no zero in the denominator's range and holds the exact quotient at every point of the box |
| `IntervalEval.REvalFails` | src/main/kotlin/biodivine/algebra/ia/package.kt:70-74 | failure is exactly a missing variable in either polynomial or zero in the denominator's range |
| `IntervalEval.TruncateTowardZero` | src/main/kotlin/biodivine/algebra/ia/package.kt:172 | BigInteger division rounds toward zero: \|q\| ≤ \|n/d\| < \|q\| + 1 with the quotient's sign |
| `Boxes.Wrap32` | src/main/kotlin/biodivine/algebra/ia/package.kt:172 | toLong().toInt() keeps the value modulo 2^32 in the signed 32-bit range |
| `IntervalEval.MapInto` | src/main/kotlin/biodivine/algebra/ia/package.kt:169-173 | fails with DivisionByZero exactly for a point interval |
| `IntervalEval.MapIntoRange` | src/main/kotlin/biodivine/algebra/ia/package.kt:169-173 | a value of the interval lands in [0, max], at 0 for the low end and at max for the high end |
| `Roots.Cmp` | src/main/kotlin/biodivine/algebra/rootisolation/Root.kt:96 | compareTo on rationals: −1, 0 or 1 exactly as a is below, equal to or above b |
| `Roots.CountSignChanges` | src/main/kotlin/biodivine/algebra/rootisolation/Root.kt:57-58 | the Descartes count over [l, u] is the sign-change count of the Möbius transform, failing when the transform does |
| `Roots.RefineHalves` | src/main/kotlin/biodivine/algebra/rootisolation/Root.kt:55-65 | a successful refine keeps one of the two halves, half as wide, inside the old interval, with exactly one sign change |
| `Roots.RefineFails` | src/main/kotlin/biodivine/algebra/rootisolation/Root.kt:55-65 | refine fails exactly when a transform needs too large a factor or the two halves' counts do not sum to 1 |
| `Roots.Root.constructor` | src/main/kotlin/biodivine/algebra/rootisolation/Root.kt:17-21 | the fields take the given polynomial and bounds, which satisfy the init check |
| `Roots.Root.Irrational` | src/main/kotlin/biodivine/algebra/rootisolation/Root.kt:36-44 | fails with EmptyInterval exactly when low > high (the init check), otherwise a fresh root with those bounds |
| `Roots.Root.Rational` | src/main/kotlin/biodivine/algebra/rootisolation/Root.kt:28-31 | fails with DivisionByZero exactly when p has no linear coefficient, otherwise a point root at −p[0] / p[1] |
| `Roots.RationalRootIsZero` | src/main/kotlin/biodivine/algebra/rootisolation/Root.kt:28-31 | the rational root of a linear polynomial is its zero |
| `Roots.Root.Refine` | src/main/kotlin/biodivine/algebra/rootisolation/Root.kt:55-65 | the bounds take the refined half, or stay as they were on failure; the interval only shrinks |
| `Roots.Root.CompareTo` | src/main/kotlin/biodivine/algebra/rootisolation/Root.kt:67-97 | 0 only for the same polynomial with this interval inside the other's; −1 only with this interval wholly below; 1 for wholly above or the other interval inside; for different polynomials the final intervals are disjoint; already disjoint intervals answer at once, unrefined; a failure is running out of fuel or a refinement step's own error; both intervals only shrink |
| `Roots.Root.CompareToValue` | src/main/kotlin/biodivine/algebra/rootisolation/Root.kt:99-114 | a point root compares its value unchanged; q already outside the interval answers at once; any other root ends with q outside its interval and never answers 0; the answer compares the lower bound with q; a failure is running out of fuel or a refinement step's own error |
| `Roots.Root.MiddleValue` | src/main/kotlin/biodivine/algebra/rootisolation/Root.kt:49-53 | a success lies strictly between this root's interval and the other's |
| `Roots.Root.Equals` | src/main/kotlin/biodivine/algebra/rootisolation/Root.kt:116-122 | roots of different polynomials are unequal; equal roots have this interval inside the other's |
| `Roots.EqualRootsHashAlike` | src/main/kotlin/biodivine/algebra/rootisolation/Root.kt:116-130 | roots of the same polynomial, which includes every pair equals calls equal, have the same hash code |
| `AdaptiveIsolation.Bisect` | src/main/kotlin/biodivine/algebra/rootisolation/AdaptiveRootIsolation.kt:61-68 | the queue keeps its old entries and gains [low, middle] and then [middle, high] |
| `AdaptiveIsolation.Step` | src/main/kotlin/biodivine/algebra/rootisolation/AdaptiveRootIsolation.kt:55-70 | one round of the loop: pop, count, then record the root or split the interval |
| `AdaptiveIsolation.WorkStepSound` | src/main/kotlin/biodivine/algebra/rootisolation/AdaptiveRootIsolation.kt:54-71 | a round keeps the queue inside the initial interval and records only isolating intervals (one sign change, or an exact rational root) |
| `AdaptiveIsolation.IsolateSound` | src/main/kotlin/biodivine/algebra/rootisolation/AdaptiveRootIsolation.kt:54-71 | every interval the bisection returns isolates a root of the polynomial inside the initial interval |
| `AdaptiveIsolation.IsolateExtends` | src/main/kotlin/biodivine/algebra/rootisolation/AdaptiveRootIsolation.kt:54-71 | the bisection only appends to the roots found so far |
| `AdaptiveIsolation.IsolateFails` | src/main/kotlin/biodivine/algebra/rootisolation/AdaptiveRootIsolation.kt:54-71 | the loop fails only by running out of fuel or by a transform beyond the factor table |
| `AdaptiveIsolation.IsolateIrrationalRoots` | src/main/kotlin/biodivine/algebra/rootisolation/AdaptiveRootIsolation.kt:48-76 | the method computes the bisection's roots followed by the initial interval's endpoints that are exact roots |
| `AdaptiveIsolation.IrrationalRootsSound` | src/main/kotlin/biodivine/algebra/rootisolation/AdaptiveRootIsolation.kt:48-76 | every returned interval isolates a root inside the initial interval, and an endpoint that is an exact root is reported as a point |
| `AdaptiveIsolation.LinearFactorRoots` | src/main/kotlin/biodivine/algebra/rootisolation/AdaptiveRootIsolation.kt:30-32 | a linear factor contributes exactly its rational root, and only when that lies in bounds |
| `AdaptiveIsolation.FactorRootsCached` | src/main/kotlin/biodivine/algebra/rootisolation/AdaptiveRootIsolation.kt:30-43 | with a sound cache one factor's roots are those computed without the cache, and the cache stays sound |
| `AdaptiveIsolation.PutKeepsSound` | src/main/kotlin/biodivine/algebra/rootisolation/AdaptiveRootIsolation.kt:39-40 | storing a freshly isolated list keeps every cache entry equal to what the bisection computes for its key, whatever the LRU evicts |
| `AdaptiveIsolation.AddFactor` | src/main/kotlin/biodivine/algebra/rootisolation/AdaptiveRootIsolation.kt:29-43 | one factor's roots, computed through the cache exactly as without it, are appended to the result, and the cache stays sound |
| `AdaptiveIsolation.GatherCached` | src/main/kotlin/biodivine/algebra/rootisolation/AdaptiveRootIsolation.kt:27-44 | the loop over the distinct factors concatenates their roots, in the order of the factor list, exactly as without the cache, and the cache stays sound |
| `AdaptiveIsolation.IsolateRootsInBounds` | src/main/kotlin/biodivine/algebra/rootisolation/AdaptiveRootIsolation.kt:25-46 | with a sound cache the result is the concatenation of the factors' roots computed without the cache, and the cache stays sound; a capacity-0 cache can fail where the source's LRU set throws |
| `AdaptiveIsolation.FactorRootsSound` | src/main/kotlin/biodivine/algebra/rootisolation/AdaptiveRootIsolation.kt:29-43 | every root one factor contributes belongs to it and isolates a root inside bounds |
| `AdaptiveIsolation.RootsInBoundsSound` | src/main/kotlin/biodivine/algebra/rootisolation/AdaptiveRootIsolation.kt:25-46 | every root of the result belongs to one of the input polynomials and isolates a root of it inside bounds |
| `PolyFactorIsolation.Midpoint` | src/main/kotlin/biodivine/algebra/rootisolation/DescartWithPolyFactorisationRootIsolation.kt:43 | (upper + lower) / 2 lies in the interval |
| `PolyFactorIsolation.HalfWidth` | src/main/kotlin/biodivine/algebra/rootisolation/DescartWithPolyFactorisationRootIsolation.kt:44 | actualPrecision is non-negative and half the width |
| `PolyFactorIsolation.Split` | src/main/kotlin/biodivine/algebra/rootisolation/DescartWithPolyFactorisationRootIsolation.kt:52-53 | the queue keeps its old entries and gains [lower, middle] and then [middle, upper] |
| `PolyFactorIsolation.WorkRound` | src/main/kotlin/biodivine/algebra/rootisolation/DescartWithPolyFactorisationRootIsolation.kt:41-55 | one round of the loop: pop, count, then drop, report or split |
| `PolyFactorIsolation.IsolateIrrationalRootsRecursively` | src/main/kotlin/biodivine/algebra/rootisolation/DescartWithPolyFactorisationRootIsolation.kt:36-58 | the loop runs the work queue from the single bounds interval |
| `PolyFactorIsolation.RoundSound` | src/main/kotlin/biodivine/algebra/rootisolation/DescartWithPolyFactorisationRootIsolation.kt:40-56 | a round keeps the queue inside bounds and reports only intervals with one sign change narrower than twice the precision |
| `PolyFactorIsolation.WorkSound` | src/main/kotlin/biodivine/algebra/rootisolation/DescartWithPolyFactorisationRootIsolation.kt:36-58 | every reported interval lies in bounds, is narrower than 2·precision and has exactly one sign change |
| `PolyFactorIsolation.WorkFails` | src/main/kotlin/biodivine/algebra/rootisolation/DescartWithPolyFactorisationRootIsolation.kt:36-58 | the loop fails only by running out of fuel or by a transform beyond the factor table |
| `PolyFactorIsolation.NoChangeNoReport` | src/main/kotlin/biodivine/algebra/rootisolation/DescartWithPolyFactorisationRootIsolation.kt:47 | bounds on which the Descartes count is 0 report nothing |
| `PolyFactorIsolation.LinearRootIsRoot` | src/main/kotlin/biodivine/algebra/rootisolation/DescartWithPolyFactorisationRootIsolation.kt:20-22 | a monic linear factor vanishes at −c0 |
| `PolyFactorIsolation.IsolateFactor` | src/main/kotlin/biodivine/algebra/rootisolation/DescartWithPolyFactorisationRootIsolation.kt:20-26 | a linear factor gives its point root when in bounds, any other the work queue's intervals |
| `PolyFactorIsolation.AddFactor` | src/main/kotlin/biodivine/algebra/rootisolation/DescartWithPolyFactorisationRootIsolation.kt:19-27 | one factor's intervals are appended to computedRoots |
| `PolyFactorIsolation.IsolateInBounds` | src/main/kotlin/biodivine/algebra/rootisolation/DescartWithPolyFactorisationRootIsolation.kt:13-29 | the intervals of the factors concatenated in factor order |
| `PolyFactorIsolation.FactorIntervalsSound` | src/main/kotlin/biodivine/algebra/rootisolation/DescartWithPolyFactorisationRootIsolation.kt:20-26 | a linear factor contributes only its root −c0 inside bounds, any other only reported intervals |
| `PolyFactorIsolation.InBoundsSound` | src/main/kotlin/biodivine/algebra/rootisolation/DescartWithPolyFactorisationRootIsolation.kt:13-29 | every interval of the result comes from one of the factors in that way |
| `PolyFactorIsolation.InBoundsFails` | src/main/kotlin/biodivine/algebra/rootisolation/DescartWithPolyFactorisationRootIsolation.kt:13-29 | failure is only running out of fuel or a factor whose transform needs a factor beyond the table |
| `PolyFactorIsolation.IsolateRoots` | src/main/kotlin/biodivine/algebra/rootisolation/DescartWithPolyFactorisationRootIsolation.kt:31-34 | isolateInBounds on [−B, B] for B the default Descartes bound |
| `SquareFreeIsolation.IsolateAllRootsRecursively` | src/main/kotlin/biodivine/algebra/rootisolation/DescartWithSquareFreeFactorisationRootIsolation.kt:29-57 | fails with EmptyInterval when the bounds are reversed (the Interval check), else runs the work queue from [lower, upper] |
| `SquareFreeIsolation.WorkRound` | src/main/kotlin/biodivine/algebra/rootisolation/DescartWithSquareFreeFactorisationRootIsolation.kt:34-54 | one round: pop, fast-skip, record an exact midpoint root, then drop, report or split |
| `SquareFreeIsolation.SkippedHasNoRoot` | src/main/kotlin/biodivine/algebra/rootisolation/DescartWithSquareFreeFactorisationRootIsolation.kt:35 | an interval skipped by the fast test contains no root of the polynomial |
| `SquareFreeIsolation.MiddleRootRecorded` | src/main/kotlin/biodivine/algebra/rootisolation/DescartWithSquareFreeFactorisationRootIsolation.kt:41-43 | an exact root at the midpoint is recorded as a point, whatever the sign-change count |
| `SquareFreeIsolation.RoundSound` | src/main/kotlin/biodivine/algebra/rootisolation/DescartWithSquareFreeFactorisationRootIsolation.kt:33-55 | a round keeps the queue inside bounds and records only point roots or narrow one-sign-change intervals |
| `SquareFreeIsolation.WorkSound` | src/main/kotlin/biodivine/algebra/rootisolation/DescartWithSquareFreeFactorisationRootIsolation.kt:29-57 | every recorded interval lies in bounds and is a point root or narrower than 2·precision with one sign change |
| `SquareFreeIsolation.WorkFails` | src/main/kotlin/biodivine/algebra/rootisolation/DescartWithSquareFreeFactorisationRootIsolation.kt:29-57 | the loop fails only by running out of fuel or by a transform beyond the factor table |
| `SquareFreeIsolation.BoundRoots` | src/main/kotlin/biodivine/algebra/rootisolation/DescartWithSquareFreeFactorisationRootIsolation.kt:24 | holds B and −B as points exactly when they are roots, and nothing else |
| `SquareFreeIsolation.IsolateAllRoots` | src/main/kotlin/biodivine/algebra/rootisolation/DescartWithSquareFreeFactorisationRootIsolation.kt:22-26 | the bound roots followed by the work queue's intervals over [−B, B] |
| `SquareFreeIsolation.AllRootsSound` | src/main/kotlin/biodivine/algebra/rootisolation/DescartWithSquareFreeFactorisationRootIsolation.kt:22-26 | every interval lies in [−B, B] and is a point root or a narrow one-sign-change interval |
| `SquareFreeIsolation.AddFactor` | src/main/kotlin/biodivine/algebra/rootisolation/DescartWithSquareFreeFactorisationRootIsolation.kt:16-18 | one square-free factor's intervals are appended to computedRoots |
| `SquareFreeIsolation.IsolateRoots` | src/main/kotlin/biodivine/algebra/rootisolation/DescartWithSquareFreeFactorisationRootIsolation.kt:14-20 | the intervals of the square-free factors concatenated in factor order |
| `SquareFreeIsolation.FactorsRootsSound` | src/main/kotlin/biodivine/algebra/rootisolation/DescartWithSquareFreeFactorisationRootIsolation.kt:14-20 | every interval of the result is found for one of the factors within that factor's [−B, B] |
| `LevelLists.Zip` | src/main/kotlin/biodivine/algebra/params/SemiAlgTree.kt:240-248 | the result is as long as the longer list, each entry the union of both lists' entries where both have one and the longer list's entry past the shorter |
| `LevelLists.ZippedIsZip` | src/main/kotlin/biodivine/algebra/params/SemiAlgTree.kt:240-248 | the value definition of the level-wise union meets that promise |
| `LevelLists.ZipUnique` | src/main/kotlin/biodivine/algebra/params/SemiAlgTree.kt:240-248 | the promise has exactly one possible result |
| `LevelLists.ZippedCommutes` | src/main/kotlin/biodivine/algebra/params/SemiAlgTree.kt:240-248 | zip is commutative, so the swap at line 241 does not change the result |
| `LevelLists.ZippedEmpty` | src/main/kotlin/biodivine/algebra/params/SemiAlgTree.kt:240-248 | zipping with the empty list returns the other list |
| `LevelLists.ZippedSelf` | src/main/kotlin/biodivine/algebra/params/SemiAlgTree.kt:240-248 | zipping a list with itself returns it |
| `LevelLists.ZippedAssociates` | src/main/kotlin/biodivine/algebra/params/SemiAlgTree.kt:240-248 | zip is associative, so a fold of zips does not depend on grouping |
| `LevelGraphs.Level` | src/main/kotlin/biodivine/algebra/params/LevelGraph.kt:254-267 | the level is −1 or a variable index; a variable at the level has positive degree and none above it does |
| `LevelGraphs.LevelUnique` | src/main/kotlin/biodivine/algebra/params/LevelGraph.kt:254-267 | those three facts determine the level |
| `LevelGraphs.LevelOf` | src/main/kotlin/biodivine/algebra/params/LevelGraph.kt:258-267 | the downward loop returns the level |
| `LevelGraphs.BoundLevel` | src/main/kotlin/biodivine/algebra/params/LevelGraph.kt:46-47 | the bound polynomial x_d − c has level d |
| `LevelGraphs.DependencyQueries` | src/main/kotlin/biodivine/algebra/params/LevelGraph.kt:271-291 | a Single answers only the discriminant query for its own source; a Combination never answers it; combination queries are symmetric and imply both sources; isDependencyOf means being a source |
| `LevelGraphs.DependenciesOf` | src/main/kotlin/biodivine/algebra/params/LevelGraph.kt:124 | exactly the dependencies that have poly as a source |
| `LevelGraphs.Independent` | src/main/kotlin/biodivine/algebra/params/LevelGraph.kt:125 | exactly the dependencies that do not have poly as a source |
| `LevelGraphs.NonConstant` | src/main/kotlin/biodivine/algebra/params/LevelGraph.kt:96 | exactly the members of the chain that are not constants |
| `LevelGraphs.Projections` | src/main/kotlin/biodivine/algebra/params/LevelGraph.kt:95-96 | exactly the factors of the chain's non-constant members that can vanish in the box |
| `LevelGraphs.SetToSeq` | src/main/kotlin/biodivine/algebra/params/LevelGraph.kt:190 | toList of a set holds exactly its members, each once |
| `LevelGraphs.Flatten` | src/main/kotlin/biodivine/algebra/params/LevelGraph.kt:79 | flatten holds exactly the members of the lists |
| `LevelGraphs.KeepUntargeted` | src/main/kotlin/biodivine/algebra/params/LevelGraph.kt:79 | exactly the listed polynomials that no dependency targets |
| `LevelGraphs.FlattenDistinct` | src/main/kotlin/biodivine/algebra/params/LevelGraph.kt:79 | distinct levels flatten to a list without repetitions, all of whose members have levels of the graph |
| `LevelGraphs.DetachValid` | src/main/kotlin/biodivine/algebra/params/LevelGraph.kt:118-125 | removing a polynomial and, above level 0, the dependencies it is a source of keeps the graph well formed |
| `LevelGraphs.OrphansStep` | src/main/kotlin/biodivine/algebra/params/LevelGraph.kt:127-132 | removing an orphaned target keeps the record that everything removed besides poly was orphaned |
| `LevelGraphs.LevelGraph.Empty` | src/main/kotlin/biodivine/algebra/params/LevelGraph.kt:37-40 | one empty level per dimension and no dependencies |
| `LevelGraphs.LevelGraph.Insert` | src/main/kotlin/biodivine/algebra/params/LevelGraph.kt:81-116 | a level outside the graph fails with IndexOutOfBounds; a present poly changes nothing; a new level-0 poly is only added; otherwise, on success, poly is stored, every member of its discriminant projection (unless one was recorded before) is stored with its Single dependency, and for every other polynomial of its level not yet combined with it every member of the resultant projection is stored with its Combination dependency; levels only grow, and every new dependency has a source that was not stored before or is poly itself |
| `LevelGraphs.LevelGraph.AddDiscriminant` | src/main/kotlin/biodivine/algebra/params/LevelGraph.kt:92-101 | an already recorded discriminant changes nothing; a projection failure is returned with the graph unchanged; on success every member of the discriminant projection is stored with its Single dependency on poly; only polynomials and dependencies owned by poly or by new polynomials are added |
| `LevelGraphs.LevelGraph.AddResultants` | src/main/kotlin/biodivine/algebra/params/LevelGraph.kt:103-114 | on success, for every other polynomial of the level distinct from poly and not combined with it before, every member of their resultant projection is stored with its Combination dependency; levels and dependencies only grow, and each new dependency belongs to poly paired with one of those polynomials or to a new polynomial |
| `LevelGraphs.LevelGraph.AddResultant` | src/main/kotlin/biodivine/algebra/params/LevelGraph.kt:105-113 | the same polynomial or an existing combination changes nothing; a projection failure is returned with the graph unchanged; on success every member of the resultant projection is stored with its Combination dependency; stored polynomials stay stored |
| `LevelGraphs.LevelGraph.AddProjections` | src/main/kotlin/biodivine/algebra/params/LevelGraph.kt:97-100 | on success every projection is stored with its dependency on the source(s) recorded; every new dependency belongs to the source (with that partner) or to a new polynomial |
| `LevelGraphs.LevelGraph.AddProjection` | src/main/kotlin/biodivine/algebra/params/LevelGraph.kt:98-99 | on success the projection is stored and its dependency recorded; levels and dependencies only grow, and every new dependency belongs to the source or to a new polynomial |
| `LevelGraphs.LevelGraph.Remove` | src/main/kotlin/biodivine/algebra/params/LevelGraph.kt:118-134 | poly is no longer stored; a missing poly changes nothing; above level 0 no remaining dependency has poly as a source; everything else removed was orphaned; every target of a dropped dependency that is no longer targeted is removed too (the cascade is complete); the graph stays well formed |
| `LevelGraphs.LevelGraph.Detach` | src/main/kotlin/biodivine/algebra/params/LevelGraph.kt:119-125 | poly leaves its level, its dependencies go above level 0, and the dropped ones are returned |
| `LevelGraphs.LevelGraph.RemoveOrphans` | src/main/kotlin/biodivine/algebra/params/LevelGraph.kt:127-132 | the loop keeps the graph well formed, removes only orphaned targets, and when it ends every target of a dropped dependency that nothing targets any more is gone |
| `LevelGraphs.LevelGraph.RemoveOrphan` | src/main/kotlin/biodivine/algebra/params/LevelGraph.kt:128-131 | the target goes exactly when no dependency targets it any more (otherwise nothing changes), the graph only shrinks, and the targets its own cascade orphans are removed as well |
| `LevelGraphs.LevelGraph.InsertAll` | src/main/kotlin/biodivine/algebra/params/LevelGraph.kt:53 | on success every basis polynomial is stored |
| `LevelGraphs.LevelGraph.InsertBounds` | src/main/kotlin/biodivine/algebra/params/LevelGraph.kt:42-50 | on success x_d − low_d and x_d − high_d are stored for every dimension; a ring with fewer variables than dimensions fails |
| `LevelGraphs.LevelGraph.Lists` | src/main/kotlin/biodivine/algebra/params/LevelGraph.kt:190 | every level listed, each member once |
| `LevelGraphs.LevelGraph.Basis` | src/main/kotlin/biodivine/algebra/params/LevelGraph.kt:78-79 | exactly the stored polynomials that no dependency targets, each once |
| `LevelGraphs.LevelGraph.CellForPoint` | src/main/kotlin/biodivine/algebra/params/LevelGraph.kt:136-176 | the located cell of the point from dimension 0 up, with 0 where a dimension finds no cell |
| `LevelGraphs.LevelGraph.WalkCells` | src/main/kotlin/biodivine/algebra/params/LevelGraph.kt:182-227 | the depth-first walk's samples and cell coordinates, from the listed levels |
| `LevelGraphs.LevelGraph.Absorb` | src/main/kotlin/biodivine/algebra/params/LevelGraph.kt:58-60 | the copied dependencies are kept and on success both graphs' polynomials are stored |
| `LevelGraphs.LevelGraph.CopyFrom` | src/main/kotlin/biodivine/algebra/params/LevelGraph.kt:66-69 | every level becomes the union with the other graph's, and its dependencies are appended |
| `LevelGraphs.Merge` | src/main/kotlin/biodivine/algebra/params/LevelGraph.kt:66-68 | each level of the result is the union of the two levels |
| `LevelGraphs.MergeValid` | src/main/kotlin/biodivine/algebra/params/LevelGraph.kt:66-69 | merging two well-formed graph states gives a well-formed one containing both |
| `LevelGraphs.ValidGrows` | src/main/kotlin/biodivine/algebra/params/LevelGraph.kt:81-116 | insertions from a well-formed state keep it well formed |
| `LevelGraphs.CellOf` | src/main/kotlin/biodivine/algebra/params/LevelGraph.kt:137-175 | the cell holds the found index per dimension and 0 where none was found (the array's initial value) |
| `LevelGraphs.AsSamples` | src/main/kotlin/biodivine/algebra/params/LevelGraph.kt:194 | one sample per visit, with its point and its coordinates |
| `LevelGraphs.Create` | src/main/kotlin/biodivine/algebra/params/LevelGraph.kt:32-50 | a fresh well-formed graph over the ring and box, holding the bound polynomials on success |
| `LevelGraphs.WithBasis` | src/main/kotlin/biodivine/algebra/params/LevelGraph.kt:52-54 | a fresh well-formed graph holding the bound and basis polynomials on success |
| `LevelGraphs.Union` | src/main/kotlin/biodivine/algebra/params/LevelGraph.kt:56-61 | incompatible rings or boxes fail; otherwise a well-formed graph with both graphs' polynomials and dependencies |
| `LevelGraphs.UnionValid` | src/main/kotlin/biodivine/algebra/params/LevelGraph.kt:56-61 | the union's state is well formed and holds both graphs' polynomials and dependencies |
| `LevelGraphs.Exclude` | src/main/kotlin/biodivine/algebra/params/LevelGraph.kt:63-72 | a polynomial outside the graph fails; otherwise it is gone, no dependency has it as a source above level 0, whatever else went is targeted by nothing, and every target whose dependencies were dropped and that nothing targets any more is gone |
| `LevelGraphs.ExcludeOrphans` | src/main/kotlin/biodivine/algebra/params/LevelGraph.kt:63-72 | whatever the exclusion removed besides the excluded polynomial is targeted by no remaining dependency |
| `CADPolys.BoundPolys` | src/main/kotlin/biodivine/algebra/params/CADPolynomials.kt:35-39 | 2k polynomials: x_d − low_d then x_d − high_d, for each dimension d in order |
| `CADPolys.RefineMeans` | src/main/kotlin/biodivine/algebra/params/CADPolynomials.kt:50-52 | a failing evaluation fails the filters; otherwise the result holds exactly the factors, themselves able to vanish in the box, of chain members that can vanish there |
| `CADPolys.Discriminants` | src/main/kotlin/biodivine/algebra/params/CADPolynomials.kt:46-49 | exactly the members of the discriminant chains of the list's polynomials |
| `CADPolys.ResultantRow` | src/main/kotlin/biodivine/algebra/params/CADPolynomials.kt:55-63 | the inner loop appends the kept resultant factors of the pairs (i, j), j > i, in order |
| `CADPolys.Resultants` | src/main/kotlin/biodivine/algebra/params/CADPolynomials.kt:53-64 | the nested loop builds projection2 as the rows of every pair i < j |
| `CADPolys.RowMembers` | src/main/kotlin/biodivine/algebra/params/CADPolynomials.kt:55-63 | a row succeeds exactly when each of its pairs does, and then holds exactly what its pairs hold |
| `CADPolys.RowsMembers` | src/main/kotlin/biodivine/algebra/params/CADPolynomials.kt:53-64 | the rows succeed exactly when every pair i < j does, and then hold exactly what those pairs hold |
| `CADPolys.ProjectRound` | src/main/kotlin/biodivine/algebra/params/CADPolynomials.kt:45-65 | one round computes that level's projection |
| `CADPolys.ProjectLevelMeans` | src/main/kotlin/biodivine/algebra/params/CADPolynomials.kt:45-65 | a projected list holds exactly the kept discriminant factors and the kept resultant factors of the pairs i < j, each once |
| `CADPolys.ProjectLevelZeros` | src/main/kotlin/biodivine/algebra/params/CADPolynomials.kt:46-65 | every polynomial of a projected list can vanish in the box |
| `CADPolys.Tower` | src/main/kotlin/biodivine/algebra/params/CADPolynomials.kt:40-66 | a successful tower has k + 1 lists and starts with the first list |
| `CADPolys.TowerLinks` | src/main/kotlin/biodivine/algebra/params/CADPolynomials.kt:44-66 | each list of the tower is the projection of the one before it, in the variable of its index |
| `CADPolys.TowerErrorStays` | src/main/kotlin/biodivine/algebra/params/CADPolynomials.kt:44-66 | a failed round fails every longer tower with the same error |
| `CADPolys.TowerRound` | src/main/kotlin/biodivine/algebra/params/CADPolynomials.kt:44-66 | one pass of the loop extends the tower by the projection of its last list |
| `CADPolys.BuildTower` | src/main/kotlin/biodivine/algebra/params/CADPolynomials.kt:40-66 | the loop builds the tower over dimensions − 1 rounds |
| `CADPolys.ReversedLinks` | src/main/kotlin/biodivine/algebra/params/CADPolynomials.kt:67 | read backwards, each list is the projection of the list after it, and the first list is last |
| `CADPolys.ReversedInOrder` | src/main/kotlin/biodivine/algebra/params/CADPolynomials.kt:67 | every list of the reversal is a list of the tower |
| `CADPolys.Make` | src/main/kotlin/biodivine/algebra/params/CADPolynomials.kt:32-68 | the method computes the reversed tower over the first list |
| `CADPolys.MakeTower` | src/main/kotlin/biodivine/algebra/params/CADPolynomials.kt:32-68 | a successful make has a ring naming every dimension and is the reversed tower over the first list |
| `CADPolys.MakeMeans` | src/main/kotlin/biodivine/algebra/params/CADPolynomials.kt:32-68 | one list per dimension (one for a zero-dimensional box), the last holding exactly the basis and bound polynomials that can vanish in the box |
| `CADPolys.MakeLinks` | src/main/kotlin/biodivine/algebra/params/CADPolynomials.kt:44-67 | each list but the last is the projection of the list after it |
| `CADPolys.MakeKeepsZeros` | src/main/kotlin/biodivine/algebra/params/CADPolynomials.kt:41-65 | every polynomial make keeps, in every list, can vanish in the box |
| `CADPolys.Found` | src/main/kotlin/biodivine/algebra/params/CADPolynomials.kt:99-101 | result.add(cell) keeps exactly the cells found, in dimension order |
| `CADPolys.CellForPoint` | src/main/kotlin/biodivine/algebra/params/CADPolynomials.kt:76-110 | the located cells of the point, scanning levels[d] against the box's d-th interval from d = 0 upward, without deduplicating roots |
| `CADPolys.WalkCells` | src/main/kotlin/biodivine/algebra/params/CADPolynomials.kt:116-151 | the depth-first walk from the stored levels, last variable first, roots deduplicated |
| `CellWalks.Normalize` | src/main/kotlin/biodivine/algebra/params/CADPolynomials.kt:169 | exactly the factors of the listed polynomials |
| `CellWalks.CanHaveZeroSound` | src/main/kotlin/biodivine/algebra/params/Extensions.kt:17 | a polynomial whose interval value over the box excludes zero has no zero anywhere in the box |
| `CellWalks.KeepZeros` | src/main/kotlin/biodivine/algebra/params/Extensions.kt:17 | the filter fails exactly when some evaluation fails, and otherwise keeps exactly the polynomials that can vanish in the box |
| `CellWalks.KeepWithin` | src/main/kotlin/biodivine/algebra/params/LevelGraph.kt:145-151 | fails with "Root crosses boundary" exactly when some root straddles a bound, and otherwise keeps exactly the roots inside the interval |
| `CellWalks.SortByLowSorted` | src/main/kotlin/biodivine/algebra/params/LevelGraph.kt:152 | sortedBy { it.low } returns a reordering of its input, sorted by lower bound |
| `CellWalks.LevelRootsMeans` | src/main/kotlin/biodivine/algebra/params/LevelGraph.kt:141-152 | the level's roots are sorted, exactly the isolated roots inside the interval, and fail exactly on a straddling root |
| `CellWalks.CheckEnds` | src/main/kotlin/biodivine/algebra/params/LevelGraph.kt:155-156 | first()/last() fail on no roots with NoSuchElement; otherwise success exactly when neither end mismatches its bound |
| `CellWalks.FindCell` | src/main/kotlin/biodivine/algebra/params/LevelGraph.kt:160-173 | the scan finds the first cell c with roots[c].high ≤ v ≤ roots[c + 1].low, or reports that none holds v |
| `CellWalks.FirstCell` | src/main/kotlin/biodivine/algebra/params/LevelGraph.kt:160-173 | the first cell from c on that holds v, or none |
| `CellWalks.LocatePoint` | src/main/kotlin/biodivine/algebra/params/LevelGraph.kt:139-174 | the loop over the dimensions computes the located cells |
| `CellWalks.LocatedStep` | src/main/kotlin/biodivine/algebra/params/LevelGraph.kt:139-174 | one dimension either fails with its own error (or IndexOutOfBounds for a missing level) or records its cell, substituting the coordinate only when a cell was found |
| `CellWalks.LocateInMeans` | src/main/kotlin/biodivine/algebra/params/LevelGraph.kt:153-173 | a reported cell holds the coordinate and no earlier one does; no root interval holds it; none reported means no cell holds it |
| `CellWalks.LocateInFails` | src/main/kotlin/biodivine/algebra/params/LevelGraph.kt:141-158 | one dimension fails exactly on a straddling root, a missing coordinate, a bound check or a root interval holding the point |
| `CellWalks.GapMiddleBetween` | src/main/kotlin/biodivine/algebra/params/LevelGraph.kt:214 | the cell's sample lies in the gap between its roots, strictly inside when the gap is not empty |
| `CellWalks.Children` | src/main/kotlin/biodivine/algebra/params/LevelGraph.kt:213-225 | one entry per cell between consecutive roots, each with one fewer level, its index and its sample appended |
| `CellWalks.Expand` | src/main/kotlin/biodivine/algebra/params/LevelGraph.kt:196-225 | every entry a popped entry pushes has one fewer level |
| `CellWalks.PendingPush` | src/main/kotlin/biodivine/algebra/params/LevelGraph.kt:191-215 | entries pushed on the stack are walked before the rest, last pushed first |
| `CellWalks.PendingPop` | src/main/kotlin/biodivine/algebra/params/LevelGraph.kt:191-192 | the entry on top is walked before the rest of the stack |
| `CellWalks.WalkCells` | src/main/kotlin/biodivine/algebra/params/LevelGraph.kt:182-227 | the work-stack loop yields exactly the depth-first walk from the start entry |
| `Cells.Project` | src/main/kotlin/biodivine/algebra/params/SemiAlgSet.kt:17 | take fails exactly for a negative count; otherwise a prefix of the coordinates of length min(retain, size) |
| `Cells.ProjectTwice` | src/main/kotlin/biodivine/algebra/params/SemiAlgSet.kt:17 | projecting twice keeps the shorter prefix |
| `Cells.ProjectAll` | src/main/kotlin/biodivine/algebra/params/SemiAlgSet.kt:17 | projecting on all coordinates or more returns the cell itself |
| `Cells.CellEquality` | src/main/kotlin/biodivine/algebra/params/SemiAlgSet.kt:19-28 | cells are equal exactly when their coordinate arrays agree entry by entry |
| `SemiAlgSets.Origin` | src/main/kotlin/biodivine/algebra/params/SemiAlgSet.kt:59-60 | Cell(IntArray(dimensions)): one coordinate per dimension, all 0 |
| `SemiAlgSets.ZeroAndOne` | src/main/kotlin/biodivine/algebra/params/SemiAlgSet.kt:58-60 | zero is empty, one holds only the origin cell, both over a graph with no basis polynomial |
| `SemiAlgSets.SelectFromMeans` | src/main/kotlin/biodivine/algebra/params/SemiAlgSet.kt:158-160 | a partial selection holds exactly the cells of the samples the test keeps, and succeeds exactly when every test does |
| `SemiAlgSets.SelectMeans` | src/main/kotlin/biodivine/algebra/params/SemiAlgSet.kt:114-168 | mapNotNull/takeIf/toSet succeeds exactly when the walk and every test succeed, and then holds exactly the cells of the kept samples |
| `SemiAlgSets.AllLandMeans` | src/main/kotlin/biodivine/algebra/params/SemiAlgSet.kt:77-86 | the subset check answers true exactly when the walk succeeds and every sample landing in a valid cell of this lands in one of that; false only at a sample that shows otherwise |
| `SemiAlgSets.SubsetReflexive` | src/main/kotlin/biodivine/algebra/params/SemiAlgSet.kt:77-86 | a set whose locations all succeed is a subset of itself |
| `SemiAlgSets.DisjunctionMeans` | src/main/kotlin/biodivine/algebra/params/SemiAlgSet.kt:88-96 | over the union graph, a cell is valid exactly when one of its samples lands in a valid cell of either operand |
| `SemiAlgSets.ConjunctionMeans` | src/main/kotlin/biodivine/algebra/params/SemiAlgSet.kt:100-109 | over the union graph, a cell is valid exactly when one of its samples lands in valid cells of both operands |
| `SemiAlgSets.NotMeans` | src/main/kotlin/biodivine/algebra/params/SemiAlgSet.kt:113-116 | not keeps the graph and marks valid exactly the walked cells that were not valid; it fails only with the walk |
| `SemiAlgSets.NotTwice` | src/main/kotlin/biodivine/algebra/params/SemiAlgSet.kt:113-116 | negating twice keeps exactly the valid cells the walk visits |
| `SemiAlgSets.SignedMeans` | src/main/kotlin/biodivine/algebra/params/SemiAlgSet.kt:156-170 | a cell is valid in positive(poly) exactly when one of its samples gives poly a positive value, and likewise negative with a negative value |
| `SemiAlgSets.SignsDisjoint` | src/main/kotlin/biodivine/algebra/params/SemiAlgSet.kt:156-170 | when the walk visits each cell once, positive(poly) and negative(poly) share no valid cell |
| `SemiAlgSets.ClassifySound` | src/main/kotlin/biodivine/algebra/params/SemiAlgSet.kt:123-136 | an accepted removal: every check sample lands in the reduced graph, in the new valid set exactly when its original cell is valid |
| `SemiAlgSets.ClassifyRejects` | src/main/kotlin/biodivine/algebra/params/SemiAlgSet.kt:129-133 | a removal is abandoned only when an originally valid and an originally invalid sample merge into one cell of the reduced graph |
| `SemiAlgSets.CollectValid` | src/main/kotlin/biodivine/algebra/params/SemiAlgSet.kt:127-130 | one more valid check sample adds its reduced cell to the valid side |
| `SemiAlgSets.CollectInvalid` | src/main/kotlin/biodivine/algebra/params/SemiAlgSet.kt:131-135 | one more invalid check sample adds its reduced cell to the invalid side |
| `SemiAlgSets.SimplifyingFaithful` | src/main/kotlin/biodivine/algebra/params/SemiAlgSet.kt:121-138 | each accepted step keeps the result faithful to the original set |
| `SemiAlgSets.SimplifiedFaithful` | src/main/kotlin/biodivine/algebra/params/SemiAlgSet.kt:118-140 | simplify returns the set unchanged or one in whose graph every original sample lands in a valid cell exactly when its original cell is valid |
| `SemiAlgSets.CheckRemoval` | src/main/kotlin/biodivine/algebra/params/SemiAlgSet.kt:123-136 | the inner loop classifies the check samples one by one |
| `SemiAlgSets.Simplify` | src/main/kotlin/biodivine/algebra/params/SemiAlgSet.kt:118-140 | the outer loop computes the simplified set |
| `SemiAlgSets.Or` | src/main/kotlin/biodivine/algebra/params/SemiAlgSet.kt:88-98 | the disjunction over the union graph, simplified, with its failure passed on |
| `SemiAlgSets.And` | src/main/kotlin/biodivine/algebra/params/SemiAlgSet.kt:100-111 | zero when either operand is empty, else the conjunction over the union graph, simplified |
| `StateSpaces.AnyExcludesMeans` | src/main/kotlin/biodivine/algebra/synth/StateSpace.kt:38 | any answers true only at an equation whose interval over the box excludes zero, and false exactly when every equation evaluates and contains zero |
| `StateSpaces.NoZeroInside` | src/main/kotlin/biodivine/algebra/synth/StateSpace.kt:38-42 | an equation whose interval over the box excludes zero is defined and nonzero at every point of the box, so there is no equilibrium there |
| `StateSpaces.JudgeMeans` | src/main/kotlin/biodivine/algebra/synth/StateSpace.kt:29-46 | a box above the largest volume is split; a box is unsafe exactly when it is not above the largest and below the smallest; a safe box lies between the sizes and has some equation nonzero everywhere in it |
| `StateSpaces.ResolvePass` | src/main/kotlin/biodivine/algebra/synth/StateSpace.kt:27-48 | one pass of the for loop over the boxes to resolve |
| `StateSpaces.Refine` | src/main/kotlin/biodivine/algebra/synth/StateSpace.kt:23-50 | the while loop, one pass per fuel step, until nothing is left to resolve |
| `StateSpaces.ComputeStateSpace` | src/main/kotlin/biodivine/algebra/synth/StateSpace.kt:18-54 | the sizes are fractions of the variable bounds' volume, then the refinement loop |
| `StateSpaces.SplitVolume` | src/main/kotlin/biodivine/algebra/synth/StateSpace.kt:24-41 | when every box was output as safe or unsafe the two volumes add up to the total |
| `StateSpaces.ResolveKeeps` | src/main/kotlin/biodivine/algebra/synth/StateSpace.kt:26-50 | the loop keeps every output box finished and each accumulated volume equal to the volume of its kind |
| `StateSpaces.StateSpaceSound` | src/main/kotlin/biodivine/algebra/synth/StateSpace.kt:18-54 | no output box exceeds the largest volume, each is safe or unsafe, safeVolume and unsafeVolume are the volumes of those kinds and add up to the total |
| `StateSpaces.ScanDimensions` | src/main/kotlin/biodivine/algebra/synth/StateSpace.kt:63-77 | the dimension loop computes the touch scan |
| `StateSpaces.TouchScanMeans` | src/main/kotlin/biodivine/algebra/synth/StateSpace.kt:63-77 | the scan ends with td exactly when every dimension intersects and td is the only touching dimension (or −1 for none) |
| `StateSpaces.TouchScanBounds` | src/main/kotlin/biodivine/algebra/synth/StateSpace.kt:63-77 | a completed scan ends with −1 or a dimension below the count |
| `StateSpaces.Facet` | src/main/kotlin/biodivine/algebra/synth/StateSpace.kt:79-81 | vars has one interval per dimension |
| `StateSpaces.IndexMapMeans` | src/main/kotlin/biodivine/algebra/synth/StateSpace.kt:59 | the index map holds exactly the boxes of the list, each at the last position holding an equal box |
| `StateSpaces.IndexOfDistinct` | src/main/kotlin/biodivine/algebra/synth/StateSpace.kt:59-87 | the index of a box is its own position when no other position holds an equal box |
| `StateSpaces.FacetIsPoint` | src/main/kotlin/biodivine/algebra/synth/StateSpace.kt:79-82 | adjacent boxes meet in a single point of the touching dimension, so the "WTF?" check never fires, at one end of the state box |
| `StateSpaces.PairTransition` | src/main/kotlin/biodivine/algebra/synth/StateSpace.kt:61-95 | the neighbour loop body computes the pair's transition |
| `StateSpaces.PairEdgeMeans` | src/main/kotlin/biodivine/algebra/synth/StateSpace.kt:61-95 | a pair adds a transition exactly for two different positions that are adjacent in some dimension whose equation allows the direction, joining their indices |
| `StateSpaces.FacetEdgeMeans` | src/main/kotlin/biodivine/algebra/synth/StateSpace.kt:79-94 | past the scan an adjacent pair adds the transition exactly when the equation over the facet allows the direction |
| `StateSpaces.NoTouchFails` | src/main/kotlin/biodivine/algebra/synth/StateSpace.kt:79-82 | two boxes that intersect everywhere but touch nowhere index vars[−1] and fail |
| `StateSpaces.NoEdgeNoFlow` | src/main/kotlin/biodivine/algebra/synth/StateSpace.kt:83-94 | a pair adjacent in td without an upward transition has the equation at most 0 everywhere on the facet for every parameter, and without a downward one at least 0 |
| `StateSpaces.RowTransitions` | src/main/kotlin/biodivine/algebra/synth/StateSpace.kt:61-95 | the neighbour loop of state i over every other |
| `StateSpaces.StateTransitions` | src/main/kotlin/biodivine/algebra/synth/StateSpace.kt:60-96 | one more state's row appended to the transitions of the states before |
| `StateSpaces.MakeTransitions` | src/main/kotlin/biodivine/algebra/synth/StateSpace.kt:56-101 | the method computes every state against every other, in list order |
| `StateSpaces.TransitionsMeans` | src/main/kotlin/biodivine/algebra/synth/StateSpace.kt:56-101 | fails on an empty list (first()) or a failing pair; otherwise keeps the list as the states and holds exactly the transitions the pairs give |
| `StateSpaces.TransitionsExact` | src/main/kotlin/biodivine/algebra/synth/StateSpace.kt:56-101 | a transition is present exactly when two different positions are adjacent in some dimension whose equation allows the direction |
| `StateSpaces.NoSelfTransition` | src/main/kotlin/biodivine/algebra/synth/StateSpace.kt:62-87 | over a list without repeated boxes every transition joins two different valid positions |
| `TreeSolvers.LinearRootIsRoot` | src/main/kotlin/biodivine/algebra/params/SemiAlgTreeSolver.kt:22-30 | the root of Root.linear for a bound c has value c and is a zero of its polynomial |
| `TreeSolvers.PolysOfMeans` | src/main/kotlin/biodivine/algebra/params/SemiAlgTreeSolver.kt:228-229 | roots.map { it.second }.toSet() holds exactly the polynomials some root came from |
| `TreeSolvers.LookupCell` | src/main/kotlin/biodivine/algebra/params/SemiAlgTreeSolver.kt:210-242 | a leaf is its own cell; a cylinder succeeds exactly for an existing cell index and returns that cell, failing with IndexOutOfBounds otherwise |
| `TreeSolvers.LeafMembers` | src/main/kotlin/biodivine/algebra/params/SemiAlgTreeSolver.kt:210-220 | a leaf has no roots and no level list, and is its own cell for either lookup |
| `TreeSolvers.BelowPrefix` | src/main/kotlin/biodivine/algebra/params/SemiAlgTreeSolver.kt:233-240 | over sorted roots the roots below x are a prefix |
| `TreeSolvers.LookupPointGap` | src/main/kotlin/biodivine/algebra/params/SemiAlgTreeSolver.kt:233-240 | over sorted roots the cell lookup(point) returns lies between the root just below and the root just above the point |
| `TreeSolvers.GapOf` | src/main/kotlin/biodivine/algebra/params/SemiAlgTreeSolver.kt:233-240 | over sorted roots a point that is no root splits the roots into those below and those above it |
| `TreeSolvers.BinarySearch` | src/main/kotlin/biodivine/algebra/params/SemiAlgTreeSolver.kt:234 | the result is in range; over sorted roots a non-negative result holds the point, and a negative one means no root is the point and −r − 1 roots lie below it |
| `TreeSolvers.Lookup` | src/main/kotlin/biodivine/algebra/params/SemiAlgTreeSolver.kt:233-240 | over sorted roots, fails on a root and otherwise returns the cell after the roots below the point |
| `TreeSolvers.FoldLeftSnoc` | src/main/kotlin/biodivine/algebra/params/SemiAlgTreeSolver.kt:250-256 | a left fold over ys + [y] folds ys and then y |
| `TreeSolvers.Fold1IsFoldLeft` | src/main/kotlin/biodivine/algebra/params/SemiAlgTreeSolver.kt:250-256 | fold1 of [x] is x, and of a longer list the left fold of the rest from the first element |
| `TreeSolvers.Fold1Loop` | src/main/kotlin/biodivine/algebra/params/SemiAlgTreeSolver.kt:250-256 | the loop fails with NoSuchElement on an empty list (first()) and otherwise computes fold1 |
| `TreeSolvers.ChildLists` | src/main/kotlin/biodivine/algebra/params/SemiAlgTreeSolver.kt:228-231 | one level list per cell |
| `TreeSolvers.FoldZipEntries` | src/main/kotlin/biodivine/algebra/params/SemiAlgTreeSolver.kt:228-256 | the zip fold of k lists is as long as the longest and each entry is the union of that entry of all k |
| `TreeSolvers.EntryUnionBeyond` | src/main/kotlin/biodivine/algebra/params/SemiAlgTreeSolver.kt:228-231 | past the longest list the entry union is empty |
| `TreeSolvers.LevelListEntries` | src/main/kotlin/biodivine/algebra/params/SemiAlgTreeSolver.kt:228-231 | a cylinder's level list starts with its roots' polynomials, and entry i + 1 is the union of entry i of its cells' level lists |
| `TreeSolvers.PairsMeans` | src/main/kotlin/biodivine/algebra/params/SemiAlgTreeSolver.kt:139-154 | n roots give n + 1 pairs: (low, r0), consecutive roots, (r(n−1), high); only (low, high) without roots |
| `TreeSolvers.RootPairs` | src/main/kotlin/biodivine/algebra/params/SemiAlgTreeSolver.kt:139-154 | the loop hands the action exactly those pairs, in order |
| `TreeSolvers.RowResultantsMeans` | src/main/kotlin/biodivine/algebra/params/SemiAlgTreeSolver.kt:189-191 | one row of the nested loop adds exactly the resultants of list[i] with the later elements |
| `TreeSolvers.PairResultantsMeans` | src/main/kotlin/biodivine/algebra/params/SemiAlgTreeSolver.kt:188-192 | the nested loop adds a polynomial exactly when it is a resultant of list[i] and list[j] for some i < j |
| `TreeSolvers.PairLoop` | src/main/kotlin/biodivine/algebra/params/SemiAlgTreeSolver.kt:188-192 | the nested loop computes those resultants |
| `TreeSolvers.Carry` | src/main/kotlin/biodivine/algebra/params/SemiAlgTreeSolver.kt:178 | exactly the polynomials of the set whose level is below the given one |
| `TreeSolvers.Descend` | src/main/kotlin/biodivine/algebra/params/SemiAlgTreeSolver.kt:181-192 | what one level passes down holds every carried polynomial |
| `TreeSolvers.MakeLevelListShape` | src/main/kotlin/biodivine/algebra/params/SemiAlgTreeSolver.kt:176-194 | succeeds exactly for level 0 and the box's levels above it, with level + 1 entries, the last holding the polynomials of at least that level |
| `TreeSolvers.MakeLevelListLevels` | src/main/kotlin/biodivine/algebra/params/SemiAlgTreeSolver.kt:176-194 | every entry k > 0 holds only polynomials of level at least k |
| `TreeSolvers.MakeLevelListPlaces` | src/main/kotlin/biodivine/algebra/params/SemiAlgTreeSolver.kt:176-194 | every polynomial of the set is stored at its place: its own level, the start level for the higher ones, 0 for constants |
| `TreeSolvers.IntersectCylinder` | src/main/kotlin/biodivine/algebra/params/SemiAlgTreeSolver.kt:96-137 | past one list the result is the other list's entry |
| `TreeSolvers.CrossSymmetric` | src/main/kotlin/biodivine/algebra/params/SemiAlgTreeSolver.kt:96-137 | with a symmetric resultant the cross resultants of two sets do not depend on their order |
| `TreeSolvers.IntersectSwap` | src/main/kotlin/biodivine/algebra/params/SemiAlgTreeSolver.kt:96-137 | with a symmetric resultant one level of the intersection does not depend on the order of the sides |
| `TreeSolvers.IntersectCommutes` | src/main/kotlin/biodivine/algebra/params/SemiAlgTreeSolver.kt:96-137 | with a symmetric resultant, intersectCylinder(a, b) equals intersectCylinder(b, a) |
| `TreeSolvers.Sample` | src/main/kotlin/biodivine/algebra/params/SemiAlgTreeSolver.kt:172-174 | fails unless l is below h, and then lies strictly between them |
| `TreeSolvers.MakeCells` | src/main/kotlin/biodivine/algebra/params/SemiAlgTreeSolver.kt:37-51 | one cell per gap |
| `TreeSolvers.MakePositiveComplete` | src/main/kotlin/biodivine/algebra/params/SemiAlgTreeSolver.kt:37-51 | what makePositive builds is complete down to the last dimension, rooted at the point's level |
| `TreeSolvers.MakeCellsComplete` | src/main/kotlin/biodivine/algebra/params/SemiAlgTreeSolver.kt:37-51 | every cell built for a gap is complete one level further down |
| `TreeSolvers.CompleteLevelList` | src/main/kotlin/biodivine/algebra/params/SemiAlgTreeSolver.kt:228-256 | a complete tree has a level list (fold1 never meets an empty list), one entry per level down to the depth |
| `TreeSolvers.PositiveComplete` | src/main/kotlin/biodivine/algebra/params/SemiAlgTreeSolver.kt:196-199 | positive fails in a box without dimensions; a success is a complete tree at level 0 whose level list has one entry per dimension |
| `TreeSolvers.LookupCellSmaller` | src/main/kotlin/biodivine/algebra/params/SemiAlgTreeSolver.kt:242 | a cell looked up in a cylinder is smaller than it; a leaf is its own cell |
| `TreeSolvers.IndicesMeans` | src/main/kotlin/biodivine/algebra/params/SemiAlgTreeSolver.kt:68-74 | the walk's cell index starts at 0 and advances by one exactly after a pair ending at a root of that tree's polynomials |
| `TreeSolvers.Apply` | src/main/kotlin/biodivine/algebra/params/SemiAlgTreeSolver.kt:53-94 | two leaves combine into a leaf at the point's level with op of their members; otherwise a success is a cylinder at the point's level with fewer roots than cells and none at the lower bound, whose walk is the pairs of the roots isolated for both trees' polynomials between the box's bounds; every cell of the result is, recursively, op applied to a's cell and b's cell given by the two trees' indices at the step of the walk that produced it, and a leaf of the result holds op of the two leaves it was combined from |
| `TreeSolvers.Walk` | src/main/kotlin/biodivine/algebra/params/SemiAlgTreeSolver.kt:65-93 | the walk over the pairs yields fewer roots than cells, none of them the box's lower bound, with each tree's cell index advancing after a pair that ends at one of that tree's roots; the cells come in the order of the pairs, each pair giving at least one, and each cell combines a's and b's cells at that pair's indices |
| `TreeSolvers.WalkStep` | src/main/kotlin/biodivine/algebra/params/SemiAlgTreeSolver.kt:70-91 | one pair yields at least one cell, one more cell than roots when the pair starts at the lower bound, and never the lower bound as a root; each cell combines a's cell iA with b's cell iB; a missing cell of a, then of b, is the error returned |
| `TreeSolvers.ApplyGap` | src/main/kotlin/biodivine/algebra/params/SemiAlgTreeSolver.kt:79-90 | a gap whose cells are not both leaves is split at the roots isolated inside it: at least one cell, never the lower bound as a root, each cell the combination of the two children at its sample; an isolation failure is the error returned |
| `TreeSolvers.Split` | src/main/kotlin/biodivine/algebra/params/SemiAlgTreeSolver.kt:86-90 | one cell per sub-gap, and no cell boundary at the lower bound; each cell is the combination of the two children at the point extended by the sample of its sub-gap |
| `TreeSolvers.And` | src/main/kotlin/biodivine/algebra/params/SemiAlgTreeSolver.kt:32-35 | two leaves give the leaf of the conjunction at level 0; otherwise a success is a merged cylinder at level 0 each of whose cells is, recursively, the conjunction of the corresponding cells of a and b |

## Left out

- Rendering and image output (the svg package, the `draw` functions of `StateSpace.kt`, the image code in `ia/package.kt`), every `println` (including the hit-rate report of `LRUCache.java` and the `.also { println }` of `SemiAlgSet.zero`), `decimalString`, and every `main()`: output only.
- Concurrency: `ConcurrentArrayStateMap.kt`, `SemiAlgTransitionSystem.kt`, the executor of `synth/package.kt` and the `ThreadLocal` wrappers of the isolation cache and of `Projection.kt`. The caches are a single LRU cache or a plain parameter here.
- The computer-algebra library: factorisation, square-free factorisation, subresultants, `divideByLC`, `asUnivariate`, partial evaluation, elimination and the polynomial parsers. These are functions of oracle records. Any law about them that a model needs is stated as a predicate over the oracle, such as the symmetry of the resultant assumed by `TreeSolvers.IntersectCommutes`, never assumed.
- `Projection.kt` (a memoising wrapper around those calls), `Fun.kt`, `g1s.kt`, `spiral.kt`, `main.kt`, `repres.kt`, `repres6.kt`, `clark.kt` and `Model.kt`: drivers and model definitions outside the core. A model is reduced to the parts the core reads: its variable bounds, its parameter bounds and its equations.
- The `RootIsolation.kt` interface (a flatMap and toSet over an isolator) and the interval-list glue in `Extensions.kt`, apart from `canHaveZero`, whose interval test is modelled in `CellWalks`.
- `Decimal.kt`, `Rational.kt` and the commented-out tree code of `SemiAlgTree.kt`: unfinished or commented-out code.
- `makeSemiAlgTransitions` (`synth/StateSpace.kt:103-255`): it calls `positiveExtended`/`negativeExtended`, which the solver does not define.
- `SemiAlgSet.project` (`params/SemiAlgSet.kt:145-151`): it calls a `LevelGraph` constructor that does not exist. Only the cell projection it relies on is modelled (`Cells.Project`, `Cells.ProjectAll`).
- Termination of `Root.compareTo`, of the bisection work stacks, of `LevelGraph.insert` and of the `computeStateSpace` refinement: it rests on root separation and a positive minimum volume. Each loop takes a `fuel` bound and reports `OutOfFuel` when it runs out, so the model does not state that enough fuel always exists.
- The isolation precision of `LevelGraph` (`ISOLATE_PRECISION`) is not defined anywhere in the source. It is a parameter of the scan; `CADPolynomials` uses its own 1/1000.
- `normalize` has two definitions. `params/CADPolynomials.kt:169` factors and keeps every factor. `params/Extensions.kt:16` also drops constant factors. `CellWalks.Normalize` follows the one in `CADPolynomials.kt`, the file that uses it.
- Hash-set and hash-map iteration order: where the source iterates a `HashSet` (projections in `LevelGraph.insert`, the pair loop of `makeLevelList`, `toList()` of a set), the model fixes one order through a parameter (`SetToSeq` or the solver's `order` oracle). Results that do not depend on the order are stated over sets.
- `LevelGraph.insert` iterates `levels[level]` while its recursive calls may add to the same set. A projection of the same level would make the source throw `ConcurrentModificationException`; the model iterates a snapshot of the set taken when the loop starts.
- The `ring` of `LevelGraph` and `SemiAlgSet` is reduced to its number of variables; two rings are the same exactly when those numbers are equal.
- Multivariate polynomial equality is the structural equality of the model's values, not the rings library's equality up to normal form.
- `LevelGraph.walkCells` and `CADPolynomials.walkCells` are lazy Kotlin sequences and iterators; the model produces the whole list of (sample, cell) pairs at once, in the same order.
- `LevelGraph.equals`, `hashCode` and `toString`, and `Cell.hashCode`: the model uses value equality, and the hash is only a cache key.
- The object identity test `state === other` in `makeTransitions` is modelled as the equality of the two boxes' positions in the input list.
- The `when` of `computeStateSpace` is the caller's judge function, so the refinement loop is generic over how a box is classified; `StateSpaces.StateSpaceSound` connects it to the source's rule.
- `SemiAlgTreeSolver.kt:82-83` isolates the roots of a gap through an `isolateRootsInBounds` overload taking two `Root`s as bounds, which the source does not define. Root isolation in the tree solver, the hash set of root/polynomial pairs and the sort by root are the solver's oracles.
- Roots in the tree solver are the exact reals they denote, so `samplePoint` (`Root.middleValue`) is the midpoint of two exact values rather than the gap between two refined isolating intervals.
- `apply` may fail in several ways (a missing cell, an isolation failure, a sample between equal roots). The model reports the first failure of its own evaluation order, which need not be the exception the source would throw first.
- `Cylinder.levelList` is computed eagerly when a Kotlin cylinder is built; the model computes it on demand from the tree with `LevelListOf`, so a failure of `fold1` on a cylinder without cells surfaces at use.
- The bound-projection loop of `intersectCylinder` and `makeLevelList` (the discriminant and bound resultants of every polynomial) is modelled as a set comprehension over the polynomials, the value the loop accumulates.
- TreeSolvers.Apply: states which cells of a and b each result cell combines (the walk's indices) and that leaves hold op of the two leaves, but not the geometric meaning: that the solver's root oracles are correct, that a sample lies inside its gap, or that a result leaf denotes op of both sets at every point of its cell.
- TreeSolvers.And: as for `TreeSolvers.Apply`, the conjunction is stated cell by cell over the walk, not pointwise over the parameter space.
- TreeSolvers.WalkStep: a step between two leaves carries the placeholder sample 0 in its ghost trace, because the source builds that cell without a sample.
- AdaptiveIsolation.IsolateRootsInBounds: returns the factors' roots concatenated in the order of the factor list, not the source's `TreeSet<Root>`. It does not sort the roots by `compareTo`, does not drop a root that `compareTo` finds equal to one already present, and does not refine the stored roots in place as the set compares them. For example, the factor x² − x/2 on [0, 1] gives [0, 1] and then the point [0, 0]; `compareTo` answers 0, so the source keeps one root where the model returns both.
- AdaptiveIsolation.GatherCached: concatenates the factors' roots like `AdaptiveIsolation.IsolateRootsInBounds`, without the `TreeSet`'s ordering, its dropping of compare-equal roots, or its in-place refinement.
- AdaptiveIsolation.AddFactor: appends one factor's roots to a sequence, rather than adding them to a `TreeSet<Root>` that orders them, drops compare-equal ones and refines them in place.
- LevelGraphs.LevelGraph.Insert: the resultants it states cover the polynomials of poly's level present before the call, the snapshot the loop iterates. In the source the discriminant step, which runs first, eliminates the level's variable, so its projections lie below that level; the model's algebra oracle does not promise this, and a polynomial that step would place at poly's own level is not covered.
- SemiAlgSets: the semi-algebraic set operations run over an abstract record `Graphs<G>` of level-graph operations (create, union, exclude, basis, walkCells, cellForPoint). Its fields are parameters, so no lemma ties them to the `LevelGraphs` members that model those operations.
- IntArrayMath.Addition, IntArrayMath.CheckedAddition, IntArrayMath.Subtraction, IntArrayMath.Multiplication and IntArrayMath.ConstMulShiftAdd (and their loop helpers): the output array is required to be distinct from the input arrays, as at every call site in the toolkit, so in-place use of an input as the output (aliasing) is not modelled.
- The conversion `toLong().toInt()` of `mapInto` is modelled by truncation toward zero followed by 32-bit wrap-around.
- The `Root.linear`/`Root.arbitrary` factory names that the isolators call do not exist in `Root.kt`. They are read as `Root.rational` and `Root.irrational`.
- The rational library's checks (a `0` denominator in `1/0`) are modelled as errors: `Intervals.Div` fails exactly when the divisor contains zero, which includes `[0, 0]` that the signum check lets through to the division.

## Findings

| source | as written | input that shows it | evidently intended | confidence | as-written member | corrected member |
|---|---|---|---|---|---|---|
| src/main/kotlin/biodivine/algebra/IntArrayMath.kt:44-70 | addition fails only when c is shorter than the longer argument. When c is exactly as long as it, the last carry is dropped without an error. | a = [2^31 − 1], b = [1], c of length 1: c becomes [0], although the sum is 2^31 | an `ArithmeticException` whenever the sum exceeds the capacity of c, as the documentation promises (capacity max(a, b) + 1) | not executed | `IntArrayMath.Addition`, `IntArrayMath.AdditionDropsCarry` | `IntArrayMath.CheckedAddition` |

