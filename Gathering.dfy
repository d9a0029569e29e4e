/**
 * Per-item results concatenated in item order, as the isolators build
 * their lists with `computedRoots += …` over the factors of a polynomial
 * or over a set of polynomials: the first failing item aborts the loop.
 * Also the list reversal that the projection tower and the path proofs share.
 */
module Gathering {
  import opened Wrappers

  /** A sequence read backwards (`reversed()`). */
  function Reverse<T>(s: seq<T>): (r: seq<T>)
    ensures |r| == |s| && forall i :: 0 <= i < |s| ==> r[i] == s[|s| - 1 - i]
  {
    seq(|s|, i requires 0 <= i < |s| => s[|s| - 1 - i])
  }

  /** `a += b` on results: the first failure wins. */
  function Append<T>(a: Result<seq<T>>, b: Result<seq<T>>): (r: Result<seq<T>>)
    ensures r.Ok? <==> a.Ok? && b.Ok?
    ensures r.Ok? ==> r.value == a.value + b.value
    ensures r.Err? ==> r.error == (if a.Err? then a.error else b.error)
  {
    if a.Err? then a else if b.Err? then b else Ok(a.value + b.value)
  }

  /** The results of f on the first k items, concatenated. */
  function Gather<A, T>(items: seq<A>, f: A -> Result<seq<T>>, k: nat): Result<seq<T>>
    requires k <= |items|
    decreases k
  {
    if k == 0 then Ok([]) else Append(Gather(items, f, k - 1), f(items[k - 1]))
  }

  /** One more item: its result is appended to the results so far. */
  lemma GatherNext<A, T>(items: seq<A>, f: A -> Result<seq<T>>, k: nat, sofar: seq<T>)
    requires k < |items| && Gather(items, f, k) == Ok(sofar)
    ensures f(items[k]).Ok? ==> Gather(items, f, k + 1) == Ok(sofar + f(items[k]).value)
    ensures f(items[k]).Err? ==> Gather(items, f, k + 1) == f(items[k])
  {
  }

  /** Once an item has failed, the later items keep that failure. */
  lemma {:induction false} GatherErrorStays<A, T>(items: seq<A>, f: A -> Result<seq<T>>, k: nat, n: nat)
    requires k <= n <= |items| && Gather(items, f, k).Err?
    ensures Gather(items, f, n) == Gather(items, f, k)
    decreases n - k
  {
    if k < n {
      GatherErrorStays(items, f, k + 1, n);
    }
  }

  /** The results appear in item order: the first k items' results are a prefix of the whole. */
  lemma {:induction false} GatherInOrder<A, T>(items: seq<A>, f: A -> Result<seq<T>>, k: nat, n: nat)
    requires k <= n <= |items| && Gather(items, f, n).Ok?
    ensures Gather(items, f, k).Ok? && Gather(items, f, k).value <= Gather(items, f, n).value
    decreases n - k
  {
    if k < n {
      GatherInOrder(items, f, k + 1, n);
    }
  }

  /** A failure is the failure of one of the items, and the whole succeeds exactly when every item does. */
  lemma {:induction false} GatherFails<A, T>(items: seq<A>, f: A -> Result<seq<T>>, k: nat)
    requires k <= |items|
    ensures Gather(items, f, k).Ok? <==> forall j :: 0 <= j < k ==> f(items[j]).Ok?
    ensures Gather(items, f, k).Err? ==>
      exists j :: 0 <= j < k && f(items[j]).Err? && f(items[j]).error == Gather(items, f, k).error
    decreases k
  {
    if k > 0 {
      GatherFails(items, f, k - 1);
    }
  }

  /** Every element of the whole comes from the result of one of the items. */
  lemma {:induction false} GatherMembers<A, T>(items: seq<A>, f: A -> Result<seq<T>>, k: nat)
    requires k <= |items| && Gather(items, f, k).Ok?
    ensures forall x :: x in Gather(items, f, k).value ==>
      exists j :: 0 <= j < k && f(items[j]).Ok? && x in f(items[j]).value
    decreases k
  {
    if k > 0 {
      GatherMembers(items, f, k - 1);
    }
  }

  /**
   * A list without repetitions, first occurrence first: the distinct
   * elements the source collects into a set before iterating over them.
   */
  function Dedup<T(==,!new)>(s: seq<T>): (r: seq<T>)
    ensures forall x :: x in r <==> x in s
    ensures forall i, j :: 0 <= i < j < |r| ==> r[i] != r[j]
    ensures |r| <= |s|
    decreases |s|
  {
    if |s| == 0 then []
    else
      var rest := Dedup(s[..|s| - 1]);
      if s[|s| - 1] in rest then rest else rest + [s[|s| - 1]]
  }
}
