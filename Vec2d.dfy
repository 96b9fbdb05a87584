/** The growable row-major grid of `src/vec2d.rs`: a flat buffer `inner`
    holding `height` rows of `width` cells, addressed by unsigned
    (row, column) pairs, that `GrowingAtMut` extends on demand. */
module Vec2d {
  import opened RowMajor

  // ---------------------------------------------------------------------
  // Buffer operations used by growth
  // ---------------------------------------------------------------------

  /** `n` successive `Vec::insert(pos, x)` calls at the same position: the run
      of `n` copies of `x` ends up in front of the old `s[pos]`. */
  function InsertRun<T>(s: seq<T>, pos: nat, n: nat, x: T): (r: seq<T>)
    requires pos <= |s|
    ensures |r| == |s| + n
  {
    s[..pos] + Repeat(x, n) + s[pos..]
  }

  /** One more insertion at `pos` lengthens the run by one. */
  lemma InsertRunStep<T>(s: seq<T>, pos: nat, n: nat, x: T)
    requires pos <= |s|
    ensures pos <= |InsertRun(s, pos, n, x)|
    ensures InsertRun(s, pos, n + 1, x) ==
            InsertRun(s, pos, n, x)[..pos] + [x] + InsertRun(s, pos, n, x)[pos..]
  {
    var r := InsertRun(s, pos, n, x);
    assert r[..pos] == s[..pos];
    assert r[pos..] == Repeat(x, n) + s[pos..];
    assert Repeat(x, n + 1) == [x] + Repeat(x, n);
  }

  // ---------------------------------------------------------------------
  // The width phase as the source writes it (vec2d.rs:80-85)
  // ---------------------------------------------------------------------

  /** The buffer after the first `rows` iterations of the width phase as
      written: iteration `i` inserts `missing` defaults at `width * i`, the
      offset where row `i` STARTS in the old layout. The earlier rows have
      already grown by `i * missing` cells by then, so from `i = 1` on the run
      lands among the cells of earlier rows. */
  function WidenAsWritten<T>(s: seq<T>, width: nat, height: nat, missing: nat, d: T, rows: nat): (r: seq<T>)
    requires |s| == width * height && rows <= height
    ensures |r| == |s| + rows * missing
    decreases rows
  {
    if rows == 0 then s
    else
      var prev := WidenAsWritten(s, width, height, missing, d, rows - 1);
      AsWrittenPosition(width, height, missing, rows - 1);
      InsertRun(prev, width * (rows - 1), missing, d)
  }

  /** Either width phase leaves a buffer of the widened shape. */
  lemma WidenedShape(width: nat, height: nat, missing: nat, widened: nat)
    requires widened == width + missing
    ensures widened * height == width * height + height * missing
    ensures widened * height == (width + missing) * height
  {
  }

  /** Iteration `i` of the width phase as written inserts inside the buffer,
      which by then has grown by `i * missing` cells. */
  lemma AsWrittenPosition(width: nat, height: nat, missing: nat, i: nat)
    requires i < height
    ensures width * i <= width * height + i * missing
    ensures (i + 1) * missing == i * missing + missing
  {
    MulMonotone(width, i, height);
    assert i * missing >= 0;
  }

  /** The elements of `s` at the positions `mask` marks. */
  function Select<T>(s: seq<T>, mask: seq<bool>): (r: seq<T>)
    requires |s| == |mask|
    ensures |r| <= |s|
  {
    if s == [] then []
    else (if mask[0] then [s[0]] else []) + Select(s[1..], mask[1..])
  }

  lemma {:induction false} SelectConcat<T>(a: seq<T>, ma: seq<bool>, b: seq<T>, mb: seq<bool>)
    requires |a| == |ma| && |b| == |mb|
    ensures Select(a + b, ma + mb) == Select(a, ma) + Select(b, mb)
    decreases |a|
  {
    if a == [] {
      assert a + b == b && ma + mb == mb;
    } else {
      var ab, mab := a + b, ma + mb;
      assert ab[0] == a[0] && mab[0] == ma[0];
      assert ab[1..] == a[1..] + b && mab[1..] == ma[1..] + mb;
      var head := if ma[0] then [a[0]] else [];
      assert Select(a, ma) == head + Select(a[1..], ma[1..]);
      assert Select(ab, mab) == head + Select(a[1..] + b, ma[1..] + mb);
      SelectConcat(a[1..], ma[1..], b, mb);
    }
  }

  lemma {:induction false} SelectAll<T>(s: seq<T>)
    ensures Select(s, Repeat(true, |s|)) == s
    decreases |s|
  {
    if s != [] {
      assert Repeat(true, |s|)[1..] == Repeat(true, |s| - 1);
      SelectAll(s[1..]);
    }
  }

  lemma {:induction false} SelectNone<T>(s: seq<T>)
    ensures Select(s, Repeat(false, |s|)) == []
    decreases |s|
  {
    if s != [] {
      assert Repeat(false, |s|)[1..] == Repeat(false, |s| - 1);
      SelectNone(s[1..]);
    }
  }

  /** `r` is `s` with cells equal to `d` inserted: the cells of `s` appear in `r`
      in their original relative order, and every other cell of `r` is `d`. */
  ghost predicate InsertsOnly<T>(r: seq<T>, s: seq<T>, d: T)
  {
    exists mask: seq<bool> :: Witnesses(r, mask, s, d)
  }

  /** `mask` shows that `r` is `s` with defaults inserted: it picks `s` out of
      `r`, and every cell it leaves out is `d`. */
  ghost predicate Witnesses<T>(r: seq<T>, mask: seq<bool>, s: seq<T>, d: T)
  {
    |mask| == |r| && Select(r, mask) == s &&
    forall j :: 0 <= j < |r| && !mask[j] ==> r[j] == d
  }

  /** Inserting a run of defaults into a masked buffer, with a matching run of
      `false` in the mask, keeps both halves of `InsertsOnly`'s witness. */
  lemma InsertRunMasked<T>(r: seq<T>, mask: seq<bool>, s: seq<T>, d: T, pos: nat, n: nat)
    requires Witnesses(r, mask, s, d) && pos <= |r|
    ensures Witnesses(InsertRun(r, pos, n, d), InsertRun(mask, pos, n, false), s, d)
  {
    SelectConcat(r[..pos], mask[..pos], Repeat(d, n), Repeat(false, n));
    SelectConcat(r[..pos] + Repeat(d, n), mask[..pos] + Repeat(false, n), r[pos..], mask[pos..]);
    SelectNone(Repeat(d, n));
    SelectConcat(r[..pos], mask[..pos], r[pos..], mask[pos..]);
    assert r[..pos] + r[pos..] == r && mask[..pos] + mask[pos..] == mask;
    var r', m' := InsertRun(r, pos, n, d), InsertRun(mask, pos, n, false);
    forall j | 0 <= j < |r| + n && !m'[j]
      ensures r'[j] == d
    {
      if j >= pos + n {
        assert m'[j] == mask[j - n] && r'[j] == r[j - n];
      }
    }
  }

  /** The mask of `WidenAsWritten`: the same insertions applied to all-`true`
      give `false` exactly where a default was inserted. */
  lemma {:induction false} WidenAsWrittenMask<T>(s: seq<T>, width: nat, height: nat, missing: nat, d: T, rows: nat)
    requires |s| == width * height && rows <= height
    ensures var r := WidenAsWritten(s, width, height, missing, d, rows);
            var mask := WidenAsWritten(Repeat(true, |s|), width, height, missing, false, rows);
            Witnesses(r, mask, s, d)
    decreases rows
  {
    if rows == 0 {
      SelectAll(s);
    } else {
      WidenAsWrittenMask(s, width, height, missing, d, rows - 1);
      var prev := WidenAsWritten(s, width, height, missing, d, rows - 1);
      var prevMask := WidenAsWritten(Repeat(true, |s|), width, height, missing, false, rows - 1);
      AsWrittenPosition(width, height, missing, rows - 1);
      InsertRunMasked(prev, prevMask, s, d, width * (rows - 1), missing);
    }
  }

  /** What the width phase as written does guarantee: it only inserts
      defaults, and keeps every old cell, in the old relative order. */
  lemma WidenAsWrittenInsertsOnly<T>(s: seq<T>, width: nat, height: nat, missing: nat, d: T)
    requires |s| == width * height
    ensures InsertsOnly(WidenAsWritten(s, width, height, missing, d, height), s, d)
  {
    WidenAsWrittenMask(s, width, height, missing, d, height);
    var mask := WidenAsWritten(Repeat(true, |s|), width, height, missing, false, height);
    assert Witnesses(WidenAsWritten(s, width, height, missing, d, height), mask, s, d);
  }

  /** Appending defaults (the height phase) also only inserts defaults. */
  lemma AppendInsertsOnly<T>(r: seq<T>, s: seq<T>, d: T, n: nat)
    requires InsertsOnly(r, s, d)
    ensures InsertsOnly(r + Repeat(d, n), s, d)
  {
    var mask :| Witnesses(r, mask, s, d);
    SelectConcat(r, mask, Repeat(d, n), Repeat(false, n));
    SelectNone(Repeat(d, n));
    var mask' := mask + Repeat(false, n);
    assert Witnesses(r + Repeat(d, n), mask', s, d);
  }

  /** The defect: whenever a row is widened, the first cell of the buffer
      after the width phase as written is a default, so the old cell (0, 0)
      is no longer at (0, 0) unless it happened to equal the default. */
  lemma {:induction false} WidenAsWrittenFrontIsDefault<T>(s: seq<T>, width: nat, height: nat, missing: nat, d: T, rows: nat)
    requires |s| == width * height && 1 <= rows <= height && missing >= 1
    ensures WidenAsWritten(s, width, height, missing, d, rows)[0] == d
    decreases rows
  {
    var prev := WidenAsWritten(s, width, height, missing, d, rows - 1);
    AsWrittenPosition(width, height, missing, rows - 1);
    if rows > 1 {
      WidenAsWrittenFrontIsDefault(s, width, height, missing, d, rows - 1);
    }
    InsertRunFront(prev, width * (rows - 1), missing, d);
  }

  /** A run inserted at the front, or behind a front cell that already is
      the run's value, leaves that value at the front. */
  lemma InsertRunFront<T>(s: seq<T>, pos: nat, n: nat, x: T)
    requires pos <= |s| && n >= 1 && (pos == 0 || s[0] == x)
    ensures InsertRun(s, pos, n, x)[0] == x
  {
  }

  /** The corner cell moves: on a grid of at least one cell whose corner is
      not the default, the widened grid as written no longer holds the old
      corner at (0, 0). */
  lemma WidenAsWrittenMovesCorner<T>(s: seq<T>, width: nat, height: nat, missing: nat, d: T)
    requires |s| == width * height && width >= 1 && height >= 1 && missing >= 1
    requires s[0] != d
    ensures var r := WidenAsWritten(s, width, height, missing, d, height);
            |r| == (width + missing) * height &&
            Rows(r, width + missing, height)[0][0] != Rows(s, width, height)[0][0]
  {
    var r := WidenAsWritten(s, width, height, missing, d, height);
    WidenAsWrittenFrontIsDefault(s, width, height, missing, d, height);
    WidenedShape(width, height, missing, width + missing);
    CornerCell(r, width + missing, height);
    CornerCell(s, width, height);
  }

  /** Cell (0, 0) of a non-empty grid is the first cell of its buffer. */
  lemma CornerCell<T>(s: seq<T>, width: nat, height: nat)
    requires |s| == width * height && width >= 1 && height >= 1
    ensures Rows(s, width, height)[0][0] == s[0]
  {
    assert Index(width, 0, 0) == 0;
    assert RowSlice(s, width, height, 0)[0] == Cell(s, width, 0, 0);
  }

  /** The scenario of the `growing_works_2` test: widening the 3x3 identity
      grid to width 5 as written, then writing 1 at (2, 4), does not give the
      grid the test comment expects. */
  lemma IdentityGridWidenedAsWritten()
    ensures var r := WidenAsWritten([1, 0, 0, 0, 1, 0, 0, 0, 1], 3, 3, 2, 0, 3);
            r == [0, 0, 1, 0, 0, 0, 0, 0, 0, 0, 1, 0, 0, 0, 1] &&
            r[14 := 1] != [1, 0, 0, 0, 0, 0, 1, 0, 0, 0, 0, 0, 1, 0, 1]
  {
    var s := [1, 0, 0, 0, 1, 0, 0, 0, 1];
    assert Repeat(0, 2) == [0, 0];
    assert WidenAsWritten(s, 3, 3, 2, 0, 0) == s;
    var r1 := WidenAsWritten(s, 3, 3, 2, 0, 1);
    assert r1 == InsertRun(s, 0, 2, 0) == [0, 0, 1, 0, 0, 0, 1, 0, 0, 0, 1];
    var r2 := WidenAsWritten(s, 3, 3, 2, 0, 2);
    assert r2 == InsertRun(r1, 3, 2, 0) == [0, 0, 1, 0, 0, 0, 0, 0, 1, 0, 0, 0, 1];
    var r3 := WidenAsWritten(s, 3, 3, 2, 0, 3);
    assert r3 == InsertRun(r2, 6, 2, 0) == [0, 0, 1, 0, 0, 0, 0, 0, 0, 0, 1, 0, 0, 0, 1];
    assert r3[14 := 1][0] != 1;
  }

  /** Widening the grid 1..9 by two columns as written: every run of
      defaults lands inside old row 0, in front of 1, 2 and 3, and rows 1
      and 2 end up as one block at the back. */
  lemma CountingGridWidenedAsWritten()
    ensures WidenAsWritten([1, 2, 3, 4, 5, 6, 7, 8, 9], 3, 3, 2, 0, 3) ==
            [0, 0, 1, 0, 0, 2, 0, 0, 3, 4, 5, 6, 7, 8, 9]
  {
    var s := [1, 2, 3, 4, 5, 6, 7, 8, 9];
    assert Repeat(0, 2) == [0, 0];
    assert WidenAsWritten(s, 3, 3, 2, 0, 0) == s;
    var r1 := WidenAsWritten(s, 3, 3, 2, 0, 1);
    assert r1 == InsertRun(s, 0, 2, 0) == [0, 0, 1, 2, 3, 4, 5, 6, 7, 8, 9];
    var r2 := WidenAsWritten(s, 3, 3, 2, 0, 2);
    assert r2 == InsertRun(r1, 3, 2, 0) == [0, 0, 1, 0, 0, 2, 3, 4, 5, 6, 7, 8, 9];
  }

  // ---------------------------------------------------------------------
  // The width phase with the insertion point at the end of each row
  // ---------------------------------------------------------------------

  /** The rows of the grid after the width phase as intended: every old row
      followed by `missing` defaults. */
  function WidenedRows<T>(s: seq<T>, width: nat, height: nat, missing: nat, d: T): (rows: seq<seq<T>>)
    requires |s| == width * height
    ensures |rows| == height
    ensures forall k :: 0 <= k < height ==> |rows[k]| == width + missing
  {
    seq(height, k requires 0 <= k < height => RowSlice(s, width, height, k) + Repeat(d, missing))
  }

  /** The buffer after the width phase as intended: every old cell keeps its
      (row, column) and the new columns hold the default. */
  function Widened<T>(s: seq<T>, width: nat, height: nat, missing: nat, d: T): (r: seq<T>)
    requires |s| == width * height
    ensures |r| == (width + missing) * height
    ensures Extends(r, width + missing, height, s, width, height, d)
  {
    var rows := WidenedRows(s, width, height, missing, d);
    WidenedExtends(s, width, height, missing, d);
    Flatten(rows)
  }

  lemma WidenedExtends<T>(s: seq<T>, width: nat, height: nat, missing: nat, d: T)
    requires |s| == width * height
    ensures var r := Flatten(WidenedRows(s, width, height, missing, d));
            |r| == (width + missing) * height && Extends(r, width + missing, height, s, width, height, d)
  {
    var rows := WidenedRows(s, width, height, missing, d);
    RowsFlatten(rows, width + missing);
    var r := Flatten(rows);
    assert Rows(r, width + missing, height) == rows;
    forall row, col | 0 <= row < height && 0 <= col < width + missing
      ensures Rows(r, width + missing, height)[row][col] ==
              if row < height && col < width then Rows(s, width, height)[row][col] else d
    {
      var old_row := RowSlice(s, width, height, row);
      assert rows[row] == old_row + Repeat(d, missing);
      if col < width {
        assert rows[row][col] == old_row[col];
      } else {
        assert rows[row][col] == Repeat(d, missing)[col - width];
      }
    }
    assert |r| == (width + missing) * height;
    assert Extends(r, width + missing, height, s, width, height, d);
  }

  /** The buffer after `i` iterations of the corrected width phase: rows
      `0 .. i-1` widened, the rest of the old buffer untouched. */
  ghost function PartlyWidened<T>(s: seq<T>, width: nat, height: nat, missing: nat, d: T, i: nat): seq<T>
    requires |s| == width * height && i <= height
  {
    MulMonotone(width, i, height);
    Flatten(WidenedRows(s, width, height, missing, d)[..i]) + s[i * width..]
  }

  /** One iteration of the corrected width phase: with rows `0 .. i-1`
      already widened, inserting the run of defaults at
      `(width + missing) * i + width`, just past the last old cell of row `i`,
      widens row `i` too. */
  lemma WidenStep<T>(s: seq<T>, width: nat, height: nat, missing: nat, d: T, i: nat)
    requires |s| == width * height && i < height
    ensures Index(width + missing, i, width) <= |PartlyWidened(s, width, height, missing, d, i)|
    ensures InsertRun(PartlyWidened(s, width, height, missing, d, i), Index(width + missing, i, width), missing, d) ==
            PartlyWidened(s, width, height, missing, d, i + 1)
  {
    WidenRowSlices(s, width, height, missing, d, i);
  }

  /** No old cell is left after the last iteration. */
  lemma PartlyWidenedAll<T>(s: seq<T>, width: nat, height: nat, missing: nat, d: T)
    requires |s| == width * height
    ensures PartlyWidened(s, width, height, missing, d, height) == Widened(s, width, height, missing, d)
  {
    var rows := WidenedRows(s, width, height, missing, d);
    assert rows[..height] == rows;
    assert s[height * width..] == [];
  }

  /** `WidenStep` on the slices it is made of. */
  lemma WidenRowSlices<T>(s: seq<T>, width: nat, height: nat, missing: nat, d: T, i: nat)
    requires |s| == width * height && i < height
    ensures (i + 1) * width == i * width + width && i * width + width <= |s|
    ensures var done := Flatten(WidenedRows(s, width, height, missing, d)[..i]);
            |done| == (width + missing) * i &&
            InsertRun(done + s[i * width..], (width + missing) * i + width, missing, d) ==
            Flatten(WidenedRows(s, width, height, missing, d)[..i + 1]) + s[i * width + width..]
  {
    WidenedPrefix(s, width, height, missing, d, i);
    RowSuffix(s, width, height, i);
    var done := Flatten(WidenedRows(s, width, height, missing, d)[..i]);
    InsertRunAfter(done, RowSlice(s, width, height, i), s[i * width + width..], missing, d);
  }

  /** The first `i + 1` widened rows are the first `i` followed by row `i`
      and its run of defaults. */
  lemma WidenedPrefix<T>(s: seq<T>, width: nat, height: nat, missing: nat, d: T, i: nat)
    requires |s| == width * height && i < height
    ensures var rows := WidenedRows(s, width, height, missing, d);
            |Flatten(rows[..i])| == (width + missing) * i &&
            Flatten(rows[..i + 1]) == Flatten(rows[..i]) + (RowSlice(s, width, height, i) + Repeat(d, missing))
  {
    var rows := WidenedRows(s, width, height, missing, d);
    FlattenLength(rows[..i], width + missing);
    assert rows[..i + 1][..i] == rows[..i];
  }

  /** The buffer from the start of row `i` on is row `i` followed by the
      rest. */
  lemma RowSuffix<T>(s: seq<T>, width: nat, height: nat, i: nat)
    requires |s| == width * height && i < height
    ensures (i + 1) * width == i * width + width && i * width + width <= |s|
    ensures s[i * width..] == RowSlice(s, width, height, i) + s[i * width + width..]
  {
    MulMonotone(width, i + 1, height);
    assert (i + 1) * width == i * width + width;
  }

  /** Inserting a run right after `a + b` puts it between `b` and `c`. */
  lemma InsertRunAfter<T>(a: seq<T>, b: seq<T>, c: seq<T>, n: nat, x: T)
    ensures InsertRun(a + (b + c), |a| + |b|, n, x) == a + (b + Repeat(x, n)) + c
  {
    var s := a + (b + c);
    assert s[..|a| + |b|] == a + b;
    assert s[|a| + |b|..] == c;
  }

  /** Appending whole rows of defaults (the height phase) keeps every old cell
      at its (row, column) and fills the new rows with defaults. */
  lemma AppendRowsExtends<T>(s: seq<T>, width: nat, height: nat, missing: nat, d: T)
    requires |s| == width * height
    ensures |s + Repeat(d, CellCount(width, missing))| == width * (height + missing)
    ensures Extends(s + Repeat(d, CellCount(width, missing)), width, height + missing, s, width, height, d)
  {
    AppendedLength(width, height, missing);
    var r := s + Repeat(d, CellCount(width, missing));
    assert r[..|s|] == s;
    TailExtends(s, r, width, height, height + missing, d);
  }

  lemma AppendedLength(width: nat, height: nat, missing: nat)
    ensures width * (height + missing) == width * height + missing * width
  {
  }

  /** A taller grid of the same width whose buffer starts with the old
      buffer and continues with defaults extends the old grid. */
  lemma TailExtends<T>(s: seq<T>, r: seq<T>, width: nat, height: nat, H: nat, d: T)
    requires |s| == width * height && |r| == width * H && height <= H
    requires |s| <= |r| && r[..|s|] == s
    requires forall i :: |s| <= i < |r| ==> r[i] == d
    ensures Extends(r, width, H, s, width, height, d)
  {
    forall row, col | 0 <= row < H && 0 <= col < width
      ensures Rows(r, width, H)[row][col] ==
              if row < height && col < width then Rows(s, width, height)[row][col] else d
    {
      RowsCell(r, width, H, row, col);
      if row < height {
        RowsCell(s, width, height, row, col);
        assert r[Index(width, row, col)] == r[..|s|][Index(width, row, col)];
      } else {
        MulMonotone(width, height, row);
      }
    }
  }

  // ---------------------------------------------------------------------
  // The container
  // ---------------------------------------------------------------------

  function Max(a: nat, b: nat): nat { if a < b then b else a }

  class Vec2D<T> {
    var inner: seq<T>
    var width: nat
    var height: nat

    /** The buffer holds exactly `height` rows of `width` cells. The source
        never checks this; `from` takes the caller's word for it. */
    ghost predicate Shaped()
      reads this
    {
      |inner| == width * height
    }

    /** The grid as rows: the view the `Debug` dump prints. */
    ghost function Grid(): (rows: seq<seq<T>>)
      reads this
      requires Shaped()
      ensures |rows| == height
    {
      Rows(inner, width, height)
    }

    /** `Default::default()`: an empty 0x0 grid. */
    constructor ()
      ensures inner == [] && width == 0 && height == 0
    {
      inner, width, height := [], 0, 0;
    }

    /** `with_capacity`: the capacity only affects allocation. */
    constructor WithCapacity(capacity: nat)
      ensures inner == [] && width == 0 && height == 0
    {
      inner, width, height := [], 0, 0;
    }

    /** `with_capacity_and_size`: an empty buffer with the given extents. */
    constructor WithCapacityAndSize(capacity: nat, width: nat, height: nat)
      ensures inner == [] && this.width == width && this.height == height
    {
      inner, this.width, this.height := [], width, height;
    }

    /** `from`: takes the buffer and the extents as given, unchecked. */
    constructor From(data: seq<T>, width: nat, height: nat)
      ensures inner == data && this.width == width && this.height == height
    {
      inner, this.width, this.height := data, width, height;
    }

    method Push(item: T)
      modifies this
      ensures inner == old(inner) + [item]
      ensures width == old(width) && height == old(height)
    {
      inner := inner + [item];
    }

    /** `extend` with the items the iterator yields, in order. */
    method Extend(items: seq<T>)
      modifies this
      ensures inner == old(inner) + items
      ensures width == old(width) && height == old(height)
    {
      inner := inner + items;
    }

    method SetSize(width: nat, height: nat)
      modifies this
      ensures inner == old(inner)
      ensures this.width == width && this.height == height
    {
      this.width, this.height := width, height;
    }

    /** `size`: (width, height); on a shaped grid their product is the
        number of cells. */
    function Size(): (size: (nat, nat))
      reads this
      ensures Shaped() ==> |inner| == size.0 * size.1
      ensures Shaped() && inner != [] ==> size.0 > 0 && size.1 > 0
    {
      (width, height)
    }

    /** `to_index`: in-bounds coordinates map into the buffer of a shaped
        grid, and distinct ones to distinct offsets. */
    function ToIndex(row: nat, column: nat): (i: nat)
      reads this
      ensures row < height && column < width ==> i < width * height
      ensures forall r: nat, c: nat :: c < width && column < width && Index(width, r, c) == i ==>
                r == row && c == column
    {
      IndexFacts(width, height, row, column);
      row * width + column
    }

    /** `at`: indexing panics unless the offset is inside the buffer; on a
        shaped grid with an in-bounds coordinate the cell read is the
        `column`-th cell of row `row`. */
    function At(row: nat, column: nat): (x: T)
      reads this
      requires ToIndex(row, column) < |inner|
      ensures Shaped() && row < height && column < width ==> x == Grid()[row][column]
    {
      inner[ToIndex(row, column)]
    }

    /** The write the caller makes through the reference `at_mut` returns:
        only that one cell changes. */
    method AtMut(row: nat, column: nat, value: T)
      requires ToIndex(row, column) < |inner|
      modifies this
      ensures width == old(width) && height == old(height)
      ensures inner == old(inner)[ToIndex(row, column) := value]
    {
      inner := inner[ToIndex(row, column) := value];
    }

    /** `at_range`: the contiguous run of cells from `from` up to, not
        including, `to`, continuing across row ends; slicing panics unless
        the two offsets are ordered and inside the buffer. */
    function AtRange(from: (nat, nat), to: (nat, nat)): (r: seq<T>)
      reads this
      requires ToIndex(from.0, from.1) <= ToIndex(to.0, to.1) <= |inner|
      ensures |r| == ToIndex(to.0, to.1) - ToIndex(from.0, from.1)
      ensures inner == inner[..ToIndex(from.0, from.1)] + r + inner[ToIndex(to.0, to.1)..]
      ensures Shaped() && from.0 == to.0 < height && from.1 <= to.1 <= width ==>
                r == Grid()[from.0][from.1..to.1]
      ensures Shaped() && from.0 + 1 == to.0 < height && from.1 <= width && to.1 <= width ==>
                r == Grid()[from.0][from.1..] + Grid()[to.0][..to.1]
    {
      RangeFacts(inner, width, height, from, to);
      inner[ToIndex(from.0, from.1)..ToIndex(to.0, to.1)]
    }

    /** The innermost loop of the width phase: `n` calls of
        `inner.insert(pos, T::default())`. */
    method InsertDefaults(pos: nat, n: nat, dflt: T)
      requires pos <= |inner|
      modifies this
      ensures width == old(width) && height == old(height)
      ensures inner == InsertRun(old(inner), pos, n, dflt)
    {
      ghost var before := inner;
      for k := 0 to n
        invariant width == old(width) && height == old(height)
        invariant inner == InsertRun(before, pos, k, dflt)
      {
        InsertRunStep(before, pos, k, dflt);
        inner := inner[..pos] + [dflt] + inner[pos..];
      }
    }

    /** The width phase as the source writes it (vec2d.rs:80-91). */
    method GrowWidthAsWritten(missing: nat, dflt: T)
      requires Shaped()
      modifies this
      ensures Shaped()
      ensures width == old(width) + missing && height == old(height)
      ensures inner == WidenAsWritten(old(inner), old(width), old(height), missing, dflt, old(height))
    {
      ghost var s := inner;
      var w, h := width, height;
      for i := 0 to h
        invariant width == w && height == h
        invariant inner == WidenAsWritten(s, w, h, missing, dflt, i)
      {
        AsWrittenPosition(w, h, missing, i);
        InsertDefaults(Index(w, i, 0), missing, dflt);
      }
      var widened := w + missing;
      WidenedShape(w, h, missing, widened);
      width := widened;
    }

    /** The width phase with each row's defaults inserted after its last old
        cell, at `(width + missing) * i + width`: it produces `Widened`. */
    method GrowWidth(missing: nat, dflt: T)
      requires Shaped()
      modifies this
      ensures Shaped()
      ensures width == old(width) + missing && height == old(height)
      ensures inner == Widened(old(inner), old(width), old(height), missing, dflt)
      ensures Extends(inner, width, height, old(inner), old(width), old(height), dflt)
    {
      ghost var s := inner;
      var w, h := width, height;
      assert PartlyWidened(s, w, h, missing, dflt, 0) == s;
      for i := 0 to h
        invariant width == w && height == h
        invariant inner == PartlyWidened(s, w, h, missing, dflt, i)
      {
        WidenStep(s, w, h, missing, dflt, i);
        InsertDefaults(Index(w + missing, i, w), missing, dflt);
      }
      PartlyWidenedAll(s, w, h, missing, dflt);
      var widened := w + missing;
      WidenedShape(w, h, missing, widened);
      width := widened;
    }

    /** The height phase (vec2d.rs:94-105): `missing` whole rows of defaults
        pushed at the end. */
    method GrowHeight(missing: nat, dflt: T)
      requires Shaped()
      modifies this
      ensures Shaped()
      ensures width == old(width) && height == old(height) + missing
      ensures inner == old(inner) + Repeat(dflt, CellCount(old(width), missing))
      ensures Extends(inner, width, height, old(inner), old(width), old(height), dflt)
    {
      ghost var s := inner;
      var w, h := width, height;
      for j := 0 to missing
        invariant width == w && height == h
        invariant inner == s + Repeat(dflt, CellCount(w, j))
      {
        for k := 0 to w
          invariant width == w && height == h
          invariant inner == s + Repeat(dflt, CellCount(w, j) + k)
        {
          Push(dflt);
        }
        assert CellCount(w, j) + w == CellCount(w, j + 1);
      }
      AppendRowsExtends(s, w, h, missing, dflt);
      height := h + missing;
    }

    /** `growing_at_mut` with the corrected width phase: afterwards
        (row, column) is in bounds and the returned offset addresses it, the
        extents grew just enough, every old cell kept its (row, column) and
        every new cell holds the default. An empty buffer first becomes the
        1x1 grid holding the default. */
    method GrowingAtMut(row: nat, column: nat, dflt: T) returns (index: nat)
      requires inner == [] || Shaped()
      modifies this
      ensures Shaped() && row < height && column < width
      ensures index == ToIndex(row, column) && index < |inner|
      ensures old(inner) == [] ==>
                width == column + 1 && height == row + 1 &&
                Extends(inner, width, height, [dflt], 1, 1, dflt) &&
                (row == 0 && column == 0 ==> inner == [dflt])
      ensures old(inner) != [] ==>
                width == Max(old(width), column + 1) && height == Max(old(height), row + 1) &&
                Extends(inner, width, height, old(inner), old(width), old(height), dflt) &&
                (row < old(height) && column < old(width) ==> inner == old(inner))
    {
      if inner == [] {
        Push(dflt);
        SetSize(1, 1);
      }
      ghost var base, w0, h0 := inner, width, height;
      ExtendsRefl(base, w0, h0, dflt);
      if column >= width {
        var missing := (column - width) + 1;
        ghost var mid := inner;
        GrowWidth(missing, dflt);
        ExtendsTrans(inner, width, height, mid, w0, h0, base, w0, h0, dflt);
      }
      if row >= height {
        var missing := (row - height) + 1;
        ghost var mid, wm, hm := inner, width, height;
        GrowHeight(missing, dflt);
        ExtendsTrans(inner, width, height, mid, wm, hm, base, w0, h0, dflt);
      }
      index := ToIndex(row, column);
    }

    /** `growing_at_mut` exactly as the source writes it: the shape, the
        bounds, the extents and the returned offset are as in
        `GrowingAtMut`, and the old cells survive in their old relative
        order among inserted defaults, but not at their old coordinates
        (see `WidenAsWrittenMovesCorner`). */
    method GrowingAtMutAsWritten(row: nat, column: nat, dflt: T) returns (index: nat)
      requires inner == [] || Shaped()
      modifies this
      ensures Shaped() && row < height && column < width
      ensures index == ToIndex(row, column) && index < |inner|
      ensures old(inner) == [] ==>
                width == column + 1 && height == row + 1 &&
                inner == GrownAsWritten([dflt], 1, 1, row, column, dflt) &&
                InsertsOnly(inner, [dflt], dflt) &&
                (row == 0 && column == 0 ==> inner == [dflt])
      ensures old(inner) != [] ==>
                width == Max(old(width), column + 1) && height == Max(old(height), row + 1) &&
                inner == GrownAsWritten(old(inner), old(width), old(height), row, column, dflt) &&
                InsertsOnly(inner, old(inner), dflt) &&
                (row < old(height) && column < old(width) ==> inner == old(inner))
    {
      if inner == [] {
        Push(dflt);
        SetSize(1, 1);
      }
      ghost var base, w0, h0 := inner, width, height;
      if column >= width {
        var missing := (column - width) + 1;
        GrowWidthAsWritten(missing, dflt);
      }
      if row >= height {
        var missing := (row - height) + 1;
        GrowHeight(missing, dflt);
      }
      GrownAsWrittenInsertsOnly(base, w0, h0, row, column, dflt);
      index := ToIndex(row, column);
    }
  }

  /** The buffer `growing_at_mut` as written leaves behind for a shaped
      `w` x `h` buffer `s`: the width phase as written, then whole rows of
      defaults appended. */
  ghost function GrownAsWritten<T>(s: seq<T>, w: nat, h: nat, row: nat, column: nat, d: T): seq<T>
    requires |s| == w * h
  {
    var s1 := if column >= w then WidenAsWritten(s, w, h, column - w + 1, d, h) else s;
    if row >= h then s1 + Repeat(d, CellCount(Max(w, column + 1), row - h + 1)) else s1
  }

  /** Growth as written only inserts defaults: the old cells survive in
      their old relative order. */
  lemma GrownAsWrittenInsertsOnly<T>(s: seq<T>, w: nat, h: nat, row: nat, column: nat, d: T)
    requires |s| == w * h
    ensures InsertsOnly(GrownAsWritten(s, w, h, row, column, d), s, d)
  {
    if column >= w {
      var s1 := WidenAsWritten(s, w, h, column - w + 1, d, h);
      WidenAsWrittenInsertsOnly(s, w, h, column - w + 1, d);
      if row >= h {
        AppendInsertsOnly(s1, s, d, CellCount(Max(w, column + 1), row - h + 1));
      }
    } else {
      InsertsOnlyRefl(s, d);
      if row >= h {
        AppendInsertsOnly(s, s, d, CellCount(Max(w, column + 1), row - h + 1));
      }
    }
  }

  lemma ExtendsRefl<T>(s: seq<T>, width: nat, height: nat, d: T)
    requires |s| == width * height
    ensures Extends(s, width, height, s, width, height, d)
  {
  }

  lemma InsertsOnlyRefl<T>(s: seq<T>, d: T)
    ensures InsertsOnly(s, s, d)
  {
    SelectAll(s);
    assert Witnesses(s, Repeat(true, |s|), s, d);
  }

  /** Growing in two steps extends the original grid: cells of the first grid
      keep their coordinates through both, and every other cell is a
      default. */
  lemma ExtendsTrans<T>(c: seq<T>, w2: nat, h2: nat, b: seq<T>, w1: nat, h1: nat,
                        a: seq<T>, w0: nat, h0: nat, d: T)
    requires |c| == w2 * h2 && |b| == w1 * h1 && |a| == w0 * h0
    requires Extends(c, w2, h2, b, w1, h1, d) && Extends(b, w1, h1, a, w0, h0, d)
    ensures Extends(c, w2, h2, a, w0, h0, d)
  {
    forall row, col | 0 <= row < h2 && 0 <= col < w2
      ensures Rows(c, w2, h2)[row][col] == if row < h0 && col < w0 then Rows(a, w0, h0)[row][col] else d
    {
      if row < h1 && col < w1 {
        assert Rows(c, w2, h2)[row][col] == Rows(b, w1, h1)[row][col];
      }
    }
  }
}
