/**
 * A transition system over the indices of a list of boxes
 * (`synth/RectTransitionSystem.kt`): one-step successor and predecessor
 * sets, and forward and backward reachability computed by a frontier loop.
 */
module TransitionSystems {
  import opened Boxes
  import opened Gathering

  /** A transition (source index, target index). */
  type Edge = (int, int)

  datatype RectTransitionSystem = RectTransitionSystem(states: seq<Box>, transitions: seq<Edge>)

  // ---------------------------------------------------------------------
  // one step
  // ---------------------------------------------------------------------

  /** The transitions with source and target swapped, in the same order. */
  function Flip(edges: seq<Edge>): (r: seq<Edge>)
    ensures |r| == |edges| && forall i :: 0 <= i < |edges| ==> r[i] == (edges[i].1, edges[i].0)
  {
    seq(|edges|, i requires 0 <= i < |edges| => (edges[i].1, edges[i].0))
  }

  /**
   * The group of key `x` in `groupBy(first, second)`, i.e.
   * `successors.getValue(x)`, empty for a missing key; over the flipped
   * transitions it is `predecessors.getValue(x)`.
   */
  function Targets(edges: seq<Edge>, x: int): (r: seq<int>)
    ensures forall y :: y in r <==> (x, y) in edges
  {
    if |edges| == 0 then []
    else
      var rest := Targets(edges[1..], x);
      assert forall e :: e in edges <==> e == edges[0] || e in edges[1..];
      (if edges[0].0 == x then [edges[0].1] else []) + rest
  }

  /** The targets of the transitions whose source is in s. */
  function Next(edges: seq<Edge>, s: set<int>): set<int> {
    set e | e in edges && e.0 in s :: e.1
  }

  /** `set.flatMapTo(HashSet()) { group(it) }`: the union of the groups of the members of s. */
  function Expand(edges: seq<Edge>, s: set<int>): set<int> {
    set x, y | x in s && y in Targets(edges, x) :: y
  }

  /** Expanding s by its groups gives exactly Next(s). */
  lemma ExpandIsNext(edges: seq<Edge>, s: set<int>)
    ensures Expand(edges, s) == Next(edges, s)
  {
    var flat := Expand(edges, s);
    forall y | y in Next(edges, s)
      ensures y in flat
    {
      var e :| e in edges && e.0 in s && e.1 == y;
      assert y in Targets(edges, e.0);
    }
    forall y | y in flat
      ensures y in Next(edges, s)
    {
      var x :| x in s && y in Targets(edges, x);
      assert (x, y) in edges;
    }
    assert flat == Next(edges, s);
  }

  function NextForward(ts: RectTransitionSystem, s: set<int>): set<int> {
    Expand(ts.transitions, s)
  }

  function NextBackward(ts: RectTransitionSystem, s: set<int>): set<int> {
    Expand(Flip(ts.transitions), s)
  }

  /** Next(s) is exactly the targets of the transitions leaving s. */
  lemma NextMeans(edges: seq<Edge>, s: set<int>, y: int)
    ensures y in Next(edges, s) <==> exists x :: x in s && (x, y) in edges
  {
    if exists x :: x in s && (x, y) in edges {
      var x :| x in s && (x, y) in edges;
      assert (x, y).1 == y;
    }
  }

  /** The target of a transition leaving s is in Next(s). */
  lemma NextHas(edges: seq<Edge>, s: set<int>, x: int, y: int)
    requires x in s && (x, y) in edges
    ensures y in Next(edges, s)
  {
    assert (x, y).1 == y;
  }

  /** nextForward(S) is exactly the targets of the transitions whose source is in S. */
  lemma NextForwardMeans(ts: RectTransitionSystem, s: set<int>, y: int)
    ensures y in NextForward(ts, s) <==> exists x :: x in s && (x, y) in ts.transitions
  {
    ExpandIsNext(ts.transitions, s);
    NextMeans(ts.transitions, s, y);
  }

  /** nextBackward(S) is exactly the sources of the transitions whose target is in S. */
  lemma NextBackwardMeans(ts: RectTransitionSystem, s: set<int>, x: int)
    ensures x in NextBackward(ts, s) <==> exists y :: y in s && (x, y) in ts.transitions
  {
    var flipped := Flip(ts.transitions);
    ExpandIsNext(flipped, s);
    NextMeans(flipped, s, x);
    forall y | (y, x) in flipped
      ensures (x, y) in ts.transitions
    {
      var i :| 0 <= i < |flipped| && flipped[i] == (y, x);
      assert ts.transitions[i] == (x, y);
    }
    forall y | (x, y) in ts.transitions
      ensures (y, x) in flipped
    {
      var i :| 0 <= i < |ts.transitions| && ts.transitions[i] == (x, y);
      assert flipped[i] == (y, x);
    }
  }

  /** Next distributes over union. */
  lemma NextUnion(edges: seq<Edge>, a: set<int>, b: set<int>)
    ensures Next(edges, a + b) == Next(edges, a) + Next(edges, b)
  {
  }

  /** Next is monotone. */
  lemma NextMonotone(edges: seq<Edge>, a: set<int>, b: set<int>)
    requires a <= b
    ensures Next(edges, a) <= Next(edges, b)
  {
  }

  /** Every target lies among the transitions' targets. */
  lemma NextWithinTargets(edges: seq<Edge>, s: set<int>)
    ensures Next(edges, s) <= AllTargets(edges)
  {
    forall y | y in Next(edges, s)
      ensures y in AllTargets(edges)
    {
      NextMeans(edges, s, y);
      var x :| x in s && (x, y) in edges;
    }
  }

  function AllTargets(edges: seq<Edge>): set<int> {
    set e | e in edges :: e.1
  }

  // ---------------------------------------------------------------------
  // reachability
  // ---------------------------------------------------------------------

  /** A non-empty sequence of states, each step a transition. */
  ghost predicate IsPath(edges: seq<Edge>, p: seq<int>) {
    |p| >= 1 && forall i :: 0 <= i < |p| - 1 ==> (p[i], p[i + 1]) in edges
  }

  /** y is reachable from s by zero or more transitions. */
  ghost predicate Reachable(edges: seq<Edge>, s: set<int>, y: int) {
    exists p :: IsPath(edges, p) && p[0] in s && p[|p| - 1] == y
  }

  /** The states reachable in at most k steps. */
  function Layer(edges: seq<Edge>, s: set<int>, k: nat): set<int> {
    if k == 0 then s else Layer(edges, s, k - 1) + Next(edges, Layer(edges, s, k - 1))
  }

  /** Every state of a layer is reachable. */
  lemma {:induction false} LayerReachable(edges: seq<Edge>, s: set<int>, k: nat, y: int)
    requires y in Layer(edges, s, k)
    ensures Reachable(edges, s, y)
  {
    if k == 0 {
      assert IsPath(edges, [y]);
    } else if y in Layer(edges, s, k - 1) {
      LayerReachable(edges, s, k - 1, y);
    } else {
      NextMeans(edges, Layer(edges, s, k - 1), y);
      var x :| x in Layer(edges, s, k - 1) && (x, y) in edges;
      LayerReachable(edges, s, k - 1, x);
      var p :| IsPath(edges, p) && p[0] in s && p[|p| - 1] == x;
      var q := PathExtend(edges, p, y);
      assert IsPath(edges, q) && q[0] in s && q[|q| - 1] == y;
    }
  }

  /** A path followed by one more transition. */
  function PathExtend(edges: seq<Edge>, p: seq<int>, y: int): (q: seq<int>)
    requires IsPath(edges, p) && (p[|p| - 1], y) in edges
    ensures IsPath(edges, q) && q[0] == p[0] && q[|q| - 1] == y
  {
    var q := p + [y];
    assert forall i :: 0 <= i < |p| - 1 ==> (q[i], q[i + 1]) == (p[i], p[i + 1]);
    q
  }

  /** A set that holds s and is closed under Next holds every state reachable from s. */
  lemma ClosedHoldsReachable(edges: seq<Edge>, s: set<int>, c: set<int>, y: int)
    requires s <= c && Next(edges, c) <= c && Reachable(edges, s, y)
    ensures y in c
  {
    var p :| IsPath(edges, p) && p[0] in s && p[|p| - 1] == y;
    ClosedHoldsPath(edges, c, p, |p| - 1);
  }

  lemma {:induction false} ClosedHoldsPath(edges: seq<Edge>, c: set<int>, p: seq<int>, i: nat)
    requires IsPath(edges, p) && p[0] in c && Next(edges, c) <= c && i < |p|
    ensures p[i] in c
  {
    if i > 0 {
      ClosedHoldsPath(edges, c, p, i - 1);
      assert (p[i - 1], p[i]) in edges;
      NextHas(edges, c, p[i - 1], p[i]);
    }
  }

  /** The frontier after k rounds: s itself at first, then what the last round added. */
  predicate IsFrontier(edges: seq<Edge>, s: set<int>, k: nat, frontier: set<int>) {
    if k == 0 then frontier == s else frontier == Layer(edges, s, k) - Layer(edges, s, k - 1)
  }

  /** Every layer contains s and lies within s and the transitions' targets. */
  lemma {:induction false} LayerBounds(edges: seq<Edge>, s: set<int>, k: nat)
    ensures s <= Layer(edges, s, k) <= s + AllTargets(edges)
  {
    if k > 0 {
      LayerBounds(edges, s, k - 1);
      NextWithinTargets(edges, Layer(edges, s, k - 1));
    }
  }

  /** One round: the layer plus Next of the frontier is the next layer. */
  lemma LayerStep(edges: seq<Edge>, s: set<int>, k: nat, frontier: set<int>)
    requires IsFrontier(edges, s, k, frontier)
    ensures Layer(edges, s, k) + Next(edges, frontier) == Layer(edges, s, k + 1)
    ensures IsFrontier(edges, s, k + 1, Next(edges, frontier) - Layer(edges, s, k))
  {
    if k > 0 {
      var prev := Layer(edges, s, k - 1);
      var cur := Layer(edges, s, k);
      assert cur == prev + frontier;
      NextUnion(edges, prev, frontier);
      NextUnion(edges, prev, cur - prev);
    }
    UnionMinus(Layer(edges, s, k), Next(edges, frontier));
  }

  lemma UnionMinus(a: set<int>, b: set<int>)
    ensures (a + b) - a == b - a
  {
  }

  /** A round that adds something leaves fewer states of the universe outside. */
  lemma LayerStepGrows(edges: seq<Edge>, s: set<int>, k: nat, frontier: set<int>)
    requires IsFrontier(edges, s, k, frontier) && Next(edges, frontier) - Layer(edges, s, k) != {}
    ensures |s + AllTargets(edges) - Layer(edges, s, k + 1)| < |s + AllTargets(edges) - Layer(edges, s, k)|
  {
    var cur, after := Layer(edges, s, k), Layer(edges, s, k + 1);
    LayerStep(edges, s, k, frontier);
    LayerBounds(edges, s, k + 1);
    var x := Member(Next(edges, frontier) - cur);
    assert cur <= after;
    GrowthShrinksRest(s + AllTargets(edges), cur, after, x);
  }

  /** Some element of a non-empty set. */
  lemma Member(a: set<int>) returns (x: int)
    requires a != {}
    ensures x in a
  {
    assert (forall y :: y !in a) ==> a == {};
    x :| x in a;
  }

  /** Adding new elements inside a finite universe leaves fewer outside. */
  lemma GrowthShrinksRest(universe: set<int>, before: set<int>, after: set<int>, x: int)
    requires before <= after <= universe && x in after && x !in before
    ensures |universe - after| < |universe - before|
  {
    var outside, wasOutside := universe - after, universe - before;
    var joined := wasOutside - outside;
    assert x in joined;
    assert wasOutside == outside + joined;
    assert outside * joined == {};
  }

  /** A frontier that runs empty means the layer is closed and is the reachable set. */
  lemma LayerFixpoint(edges: seq<Edge>, s: set<int>, k: nat)
    requires IsFrontier(edges, s, k, {})
    ensures Next(edges, Layer(edges, s, k)) <= Layer(edges, s, k)
    ensures forall y :: y in Layer(edges, s, k) <==> Reachable(edges, s, y)
  {
    var cur := Layer(edges, s, k);
    if k > 0 {
      var prev := Layer(edges, s, k - 1);
      assert cur == prev + Next(edges, prev);
      forall x | x in cur
        ensures x in prev
      {
        assert x !in cur - prev;
      }
      NextMonotone(edges, cur, prev);
    }
    LayerBounds(edges, s, k);
    forall y | y in cur
      ensures Reachable(edges, s, y)
    {
      LayerReachable(edges, s, k, y);
    }
    forall y | Reachable(edges, s, y)
      ensures y in cur
    {
      ClosedHoldsReachable(edges, s, cur, y);
    }
  }

  /** One call of nextForward or nextBackward: the flat-map of the groups, which is Next. */
  method Successors(edges: seq<Edge>, s: set<int>) returns (next: set<int>)
    ensures next == Next(edges, s)
  {
    next := Expand(edges, s);
    ExpandIsNext(edges, s);
  }

  /** One round of the loop: the next layer and its frontier, with a smaller measure. */
  method ReachRound(edges: seq<Edge>, s: set<int>, ghost k: nat, result: set<int>, recompute: set<int>)
    returns (nextResult: set<int>, nextRecompute: set<int>)
    requires result == Layer(edges, s, k) && IsFrontier(edges, s, k, recompute) && recompute != {}
    ensures nextResult == Layer(edges, s, k + 1)
    ensures IsFrontier(edges, s, k + 1, nextRecompute)
    ensures |s + AllTargets(edges) - nextResult| < |s + AllTargets(edges) - result|
      || (|s + AllTargets(edges) - nextResult| == |s + AllTargets(edges) - result| && |nextRecompute| < |recompute|)
  {
    var next := Successors(edges, recompute);
    LayerStep(edges, s, k, recompute);
    if next - result != {} {
      LayerStepGrows(edges, s, k, recompute);
    } else {
      assert result + next == result by {
        forall y | y in next
          ensures y in result
        {
          assert y !in next - result;
        }
      }
    }
    nextRecompute := next - result;
    nextResult := result + next;
  }

  /**
   * The loop shared by `reachForward` and `reachBackward`: the result grows
   * by Next of the frontier, and the frontier is what was new.
   */
  method Reach(edges: seq<Edge>, s: set<int>) returns (result: set<int>)
    ensures s <= result
    ensures Next(edges, result) <= result
    ensures forall y :: y in result <==> Reachable(edges, s, y)
  {
    result := s;
    var recompute := s;
    ghost var k: nat := 0;
    ghost var universe := s + AllTargets(edges);
    while recompute != {}
      invariant result == Layer(edges, s, k)
      invariant IsFrontier(edges, s, k, recompute)
      decreases |universe - result|, |recompute|
    {
      result, recompute := ReachRound(edges, s, k, result, recompute);
      k := k + 1;
    }
    LayerFixpoint(edges, s, k);
    LayerBounds(edges, s, k);
  }

  /** `reachForward`: the states reachable from S, a set closed under nextForward. */
  method ReachForward(ts: RectTransitionSystem, s: set<int>) returns (result: set<int>)
    ensures s <= result
    ensures NextForward(ts, result) <= result
    ensures forall y :: y in result <==> Reachable(ts.transitions, s, y)
  {
    result := Reach(ts.transitions, s);
    ExpandIsNext(ts.transitions, result);
  }

  /** x can reach s: some path of transitions starts at x and ends in s. */
  ghost predicate CanReach(edges: seq<Edge>, s: set<int>, x: int) {
    exists p :: IsPath(edges, p) && p[0] == x && p[|p| - 1] in s
  }

  /** A path of the flipped transitions is a reversed path of the transitions. */
  lemma FlipPath(edges: seq<Edge>, p: seq<int>)
    requires IsPath(Flip(edges), p)
    ensures IsPath(edges, Reverse(p))
  {
    var flipped := Flip(edges);
    var q := Reverse(p);
    forall i | 0 <= i < |q| - 1
      ensures (q[i], q[i + 1]) in edges
    {
      var j := |p| - 2 - i;
      assert (p[j], p[j + 1]) in flipped;
      var m :| 0 <= m < |flipped| && flipped[m] == (p[j], p[j + 1]);
      assert edges[m] == (q[i], q[i + 1]);
    }
  }

  lemma UnflipPath(edges: seq<Edge>, p: seq<int>)
    requires IsPath(edges, p)
    ensures IsPath(Flip(edges), Reverse(p))
  {
    var flipped := Flip(edges);
    var q := Reverse(p);
    forall i | 0 <= i < |q| - 1
      ensures (q[i], q[i + 1]) in flipped
    {
      var j := |p| - 2 - i;
      assert (p[j], p[j + 1]) in edges;
      var m :| 0 <= m < |edges| && edges[m] == (p[j], p[j + 1]);
      assert flipped[m] == (q[i], q[i + 1]);
    }
  }

  /** Reachability over the flipped transitions is the ability to reach s. */
  lemma FlippedReachable(edges: seq<Edge>, s: set<int>, x: int)
    ensures Reachable(Flip(edges), s, x) <==> CanReach(edges, s, x)
  {
    if Reachable(Flip(edges), s, x) {
      var p :| IsPath(Flip(edges), p) && p[0] in s && p[|p| - 1] == x;
      FlipPath(edges, p);
      assert Reverse(p)[0] == x;
    }
    if CanReach(edges, s, x) {
      var p :| IsPath(edges, p) && p[0] == x && p[|p| - 1] in s;
      UnflipPath(edges, p);
      assert Reverse(p)[0] in s;
    }
  }

  /** `reachBackward`: the states that can reach S, a set closed under nextBackward. */
  method ReachBackward(ts: RectTransitionSystem, s: set<int>) returns (result: set<int>)
    ensures s <= result
    ensures NextBackward(ts, result) <= result
    ensures forall x :: x in result <==> CanReach(ts.transitions, s, x)
  {
    result := Reach(Flip(ts.transitions), s);
    ExpandIsNext(Flip(ts.transitions), result);
    forall x
      ensures x in result <==> CanReach(ts.transitions, s, x)
    {
      FlippedReachable(ts.transitions, s, x);
    }
  }
}
