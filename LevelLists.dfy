/**
 * Level lists of the semi-algebraic tree solver (params/SemiAlgTree.kt):
 * for each variable level, the set of polynomials that live on it, lowest
 * level first, and `zip`, which merges two such lists level by level.
 */
module LevelLists {
  import opened MPolys

  /** `LevelList`: the polynomials of each level, lowest level first. */
  type LevelList = seq<set<MPoly>>

  function MaxLen(a: LevelList, b: LevelList): nat {
    if |a| < |b| then |b| else |a|
  }

  /** Entry i of a list, or nothing past its end. */
  function EntryOr(a: LevelList, i: nat): set<MPoly> {
    if i < |a| then a[i] else {}
  }

  /**
   * The level-wise merge, as a value: as long as the longer list, each
   * entry the union of the two lists' entries at that level.
   */
  function Zipped(a: LevelList, b: LevelList): LevelList {
    seq(MaxLen(a, b), (i: int) requires 0 <= i => EntryOr(a, i) + EntryOr(b, i))
  }

  /**
   * What `zip` promises of r: it is as long as the longer list; where both
   * lists have an entry it is their union, and past the shorter list it is
   * the longer list's entry.
   */
  predicate IsZipOf(r: LevelList, a: LevelList, b: LevelList) {
    && |r| == MaxLen(a, b)
    && (forall i :: 0 <= i < |a| && i < |b| ==> r[i] == a[i] + b[i])
    && (forall i :: |b| <= i < |a| ==> r[i] == a[i])
    && (forall i :: |a| <= i < |b| ==> r[i] == b[i])
  }

  /**
   * `LevelList.zip`: the shorter list is merged into a copy of the longer
   * one; neither argument changes, as both are values.
   */
  method Zip(a: LevelList, b: LevelList) returns (r: LevelList)
    ensures IsZipOf(r, a, b)
    ensures r == Zipped(a, b)
    decreases if |a| < |b| then 1 else 0
  {
    if |a| < |b| {
      r := Zip(b, a);
      ZippedCommutes(b, a);
      return;
    }
    r := a;
    for i := 0 to |b|
      invariant |r| == |a|
      invariant forall j :: 0 <= j < i ==> r[j] == a[j] + b[j]
      invariant forall j :: i <= j < |a| ==> r[j] == a[j]
    {
      r := r[i := r[i] + b[i]];
    }
    ZipUnique(r, Zipped(a, b), a, b);
  }

  /** The value definition meets the promise of `zip`. */
  lemma ZippedIsZip(a: LevelList, b: LevelList)
    ensures IsZipOf(Zipped(a, b), a, b)
  {
  }

  /** The promise determines the list: `zip` has exactly one possible result. */
  lemma ZipUnique(r: LevelList, s: LevelList, a: LevelList, b: LevelList)
    requires IsZipOf(r, a, b) && s == Zipped(a, b)
    ensures r == s
  {
    ZippedIsZip(a, b);
    forall i | 0 <= i < |r|
      ensures r[i] == s[i]
    {
      if i < |a| && i < |b| {
      } else if i < |a| {
      } else {
      }
    }
  }

  /** zip is commutative. */
  lemma ZippedCommutes(a: LevelList, b: LevelList)
    ensures Zipped(a, b) == Zipped(b, a)
  {
    assert forall i :: 0 <= i < MaxLen(a, b) ==> Zipped(a, b)[i] == Zipped(b, a)[i];
  }

  /** Zipping with the empty list returns the other list. */
  lemma ZippedEmpty(a: LevelList)
    ensures Zipped(a, []) == a && Zipped([], a) == a
  {
    assert forall i :: 0 <= i < |a| ==> Zipped(a, [])[i] == a[i];
    ZippedCommutes(a, []);
  }

  /** Zipping a list with itself returns it. */
  lemma ZippedSelf(a: LevelList)
    ensures Zipped(a, a) == a
  {
    assert forall i :: 0 <= i < |a| ==> Zipped(a, a)[i] == a[i];
  }

  /** zip is associative, so a fold of zips does not depend on how it is grouped. */
  lemma ZippedAssociates(a: LevelList, b: LevelList, c: LevelList)
    ensures Zipped(Zipped(a, b), c) == Zipped(a, Zipped(b, c))
  {
    var l, r := Zipped(Zipped(a, b), c), Zipped(a, Zipped(b, c));
    assert |l| == |r|;
    forall i | 0 <= i < |l|
      ensures l[i] == r[i]
    {
      assert l[i] == EntryOr(a, i) + EntryOr(b, i) + EntryOr(c, i);
    }
  }
}
