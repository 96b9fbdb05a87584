/** The scenarios of the unit tests of `src/vec2d.rs`, run against the
    model: each method builds the grid the test builds, makes the same calls
    and returns what the test inspects. */
module Vec2dExamples {
  import opened RowMajor
  import opened Vec2d

  /** `indexing_works`: a 3x3 grid of 1..9 reports its size, reads cells by
      (row, column) and reads the range (1, 1)..(2, 1) across a row end. */
  method IndexingWorks() returns (size: (nat, nat), cells: seq<int>, range: seq<int>)
    ensures size == (3, 3)
    ensures cells == [1, 3, 4, 8]
    ensures range == [5, 6, 7]
  {
    var v := new Vec2D.From([1, 2, 3, 4, 5, 6, 7, 8, 9], 3, 3);
    size := v.Size();
    cells := [v.At(0, 0), v.At(0, 2), v.At(1, 0), v.At(2, 1)];
    range := v.AtRange((1, 1), (2, 1));
  }

  /** `growing_works` with the corrected width phase: the empty grid grows
      to 1x1 and then to 3x3; both written cells read back, and the first
      one is still at (0, 0). */
  method GrowingWorks() returns (first: (nat, nat), second: (nat, nat), x: int, y: int, corner: int)
    ensures first == (1, 1) && second == (3, 3)
    ensures x == 1 && y == 1 && corner == 1
  {
    var v := new Vec2D<int>();
    var i := GrowEmpty(v);
    v.AtMut(0, 0, 1);
    first := v.Size();
    x := v.At(0, 0);
    i := GrowCorner(v);
    corner := v.At(0, 0);
    v.AtMut(2, 2, 1);
    second := v.Size();
    y := v.At(2, 2);
  }

  /** The first growth of `growing_works`: the empty grid becomes the 1x1
      grid holding the default. */
  method GrowEmpty(v: Vec2D<int>) returns (index: nat)
    requires v.inner == [] && v.width == 0 && v.height == 0
    modifies v
    ensures v.inner == [0] && v.width == 1 && v.height == 1 && index == 0
  {
    index := v.GrowingAtMut(0, 0, 0);
  }

  /** The second growth of `growing_works`, with the corrected width phase:
      the 1x1 grid [1] becomes 3x3 with the 1 still at (0, 0) and defaults
      everywhere else. */
  method GrowCorner(v: Vec2D<int>) returns (index: nat)
    requires v.inner == [1] && v.width == 1 && v.height == 1
    modifies v
    ensures v.inner == [1, 0, 0, 0, 0, 0, 0, 0, 0] && v.width == 3 && v.height == 3
    ensures index == 8
  {
    index := v.GrowingAtMut(2, 2, 0);
    CornerGridGrown(v.inner);
  }

  /** The only 3x3 grid that extends the 1x1 grid [1] with zeros. */
  lemma CornerGridGrown(r: seq<int>)
    requires |r| == 3 * 3 && Extends(r, 3, 3, [1], 1, 1, 0)
    ensures r == [1, 0, 0, 0, 0, 0, 0, 0, 0]
  {
    RowsCell([1], 1, 1, 0, 0);
    var rows := Rows(r, 3, 3);
    assert rows[0] == [1, 0, 0];
    assert rows[1] == [0, 0, 0];
    assert rows[2] == [0, 0, 0];
    assert rows == [[1, 0, 0], [0, 0, 0], [0, 0, 0]];
    FlattenRows(r, 3, 3);
  }

  /** `growing_works` with `growing_at_mut` as written: the test's own
      checks pass, but the 1 first written at (0, 0) now sits at (0, 2). */
  method GrowingWorksAsWritten() returns (second: (nat, nat), y: int, corner: int, moved: int)
    ensures second == (3, 3) && y == 1
    ensures corner == 0 && moved == 1
  {
    var v := new Vec2D<int>();
    var i := GrowEmptyAsWritten(v);
    v.AtMut(0, 0, 1);
    i := GrowCornerAsWritten(v);
    corner := v.At(0, 0);
    moved := v.At(0, 2);
    v.AtMut(2, 2, 1);
    second := v.Size();
    y := v.At(2, 2);
  }

  /** The first growth of `growing_works` as written: the same 1x1 grid as
      with the corrected width phase. */
  method GrowEmptyAsWritten(v: Vec2D<int>) returns (index: nat)
    requires v.inner == [] && v.width == 0 && v.height == 0
    modifies v
    ensures v.inner == [0] && v.width == 1 && v.height == 1 && index == 0
  {
    index := v.GrowingAtMutAsWritten(0, 0, 0);
  }

  /** The second growth of `growing_works` as written: the 1 moves to (0, 2). */
  method GrowCornerAsWritten(v: Vec2D<int>) returns (index: nat)
    requires v.inner == [1] && v.width == 1 && v.height == 1
    modifies v
    ensures v.inner == [0, 0, 1, 0, 0, 0, 0, 0, 0] && v.width == 3 && v.height == 3
    ensures index == 8
  {
    index := v.GrowingAtMutAsWritten(2, 2, 0);
    CornerGrownAsWritten();
  }

  /** Growing the 1x1 grid [1] to 3x3 as written: the two defaults of row 0
      go in front of the 1, then two rows of defaults follow. */
  lemma CornerGrownAsWritten()
    ensures GrownAsWritten([1], 1, 1, 2, 2, 0) == [0, 0, 1, 0, 0, 0, 0, 0, 0]
  {
    assert WidenAsWritten([1], 1, 1, 2, 0, 1) == InsertRun([1], 0, 2, 0) == [0, 0, 1];
    assert Repeat(0, 6) == [0, 0, 0, 0, 0, 0];
  }

  /** `growing_works_2` with the corrected width phase: growing the 3x3
      identity grid to reach (2, 4) and writing 1 there gives the grid the
      test's comment expects. */
  method GrowingWorks2() returns (size: (nat, nat), grid: seq<int>)
    ensures size == (5, 3)
    ensures grid == [1, 0, 0, 0, 0,
                     0, 1, 0, 0, 0,
                     0, 0, 1, 0, 1]
  {
    var v := new Vec2D.From([1, 0, 0, 0, 1, 0, 0, 0, 1], 3, 3);
    var i := v.GrowingAtMut(2, 4, 0);
    IdentityGridWidened(v.inner);
    v.AtMut(2, 4, 1);
    size := v.Size();
    grid := v.inner;
  }

  /** The only 5x3 grid that extends the 3x3 identity grid with zeros. */
  lemma IdentityGridWidened(r: seq<int>)
    requires |r| == 5 * 3 && Extends(r, 5, 3, [1, 0, 0, 0, 1, 0, 0, 0, 1], 3, 3, 0)
    ensures r == [1, 0, 0, 0, 0, 0, 1, 0, 0, 0, 0, 0, 1, 0, 0]
  {
    var s := [1, 0, 0, 0, 1, 0, 0, 0, 1];
    assert Rows(s, 3, 3)[0] == [1, 0, 0];
    assert Rows(s, 3, 3)[1] == [0, 1, 0];
    assert Rows(s, 3, 3)[2] == [0, 0, 1];
    var rows := Rows(r, 5, 3);
    assert rows[0] == [1, 0, 0, 0, 0];
    assert rows[1] == [0, 1, 0, 0, 0];
    assert rows[2] == [0, 0, 1, 0, 0];
    assert rows == [[1, 0, 0, 0, 0], [0, 1, 0, 0, 0], [0, 0, 1, 0, 0]];
    FlattenRows(r, 5, 3);
  }
}
