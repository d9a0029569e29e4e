/**
 * `Cell` (params/SemiAlgSet.kt): the coordinates of one cell of a
 * cylindrical decomposition, one cell index per dimension. Two cells are
 * equal exactly when their coordinate arrays have the same contents, which
 * is what datatype equality is here.
 */
module Cells {
  import opened Wrappers

  datatype Cell = Cell(coordinates: seq<int>)

  function Min(a: int, b: int): int {
    if a < b then a else b
  }

  /**
   * `project(retain)`: the cell of the first `retain` coordinates
   * (`take`, which rejects a negative count and keeps everything when the
   * count exceeds the length).
   */
  function Project(c: Cell, retain: int): (r: Result<Cell>)
    ensures r.Err? <==> retain < 0
    ensures r.Ok? ==> |r.value.coordinates| == Min(retain, |c.coordinates|)
    ensures r.Ok? ==> r.value.coordinates <= c.coordinates
  {
    if retain < 0 then Err(IllegalState("Requested element count is less than zero."))
    else if retain >= |c.coordinates| then Ok(c)
    else Ok(Cell(c.coordinates[..retain]))
  }

  /** Projecting twice keeps the shorter prefix. */
  lemma ProjectTwice(c: Cell, a: nat, b: nat)
    ensures Project(c, a).Ok? && Project(Project(c, a).value, b) == Project(c, Min(a, b))
  {
    var once := Project(c, a).value;
    var twice := Project(once, b).value;
    var direct := Project(c, Min(a, b)).value;
    assert |twice.coordinates| == |direct.coordinates|;
    assert twice.coordinates <= once.coordinates <= c.coordinates;
    assert direct.coordinates <= c.coordinates;
    assert twice.coordinates == c.coordinates[..|twice.coordinates|];
    assert direct.coordinates == c.coordinates[..|direct.coordinates|];
  }

  /** Projecting on all coordinates (or more) returns the cell itself. */
  lemma ProjectAll(c: Cell, retain: int)
    requires retain >= |c.coordinates|
    ensures Project(c, retain) == Ok(c)
  {
  }

  /** Cells are equal exactly when their coordinates are, entry by entry. */
  lemma CellEquality(a: Cell, b: Cell)
    ensures a == b <==>
      |a.coordinates| == |b.coordinates| && forall i :: 0 <= i < |a.coordinates| ==> a.coordinates[i] == b.coordinates[i]
  {
    if |a.coordinates| == |b.coordinates| && forall i :: 0 <= i < |a.coordinates| ==> a.coordinates[i] == b.coordinates[i] {
      assert a.coordinates == b.coordinates;
    }
  }
}
