/** Row-major addressing shared by both `Vec2D` containers: cell (row, column)
    of a grid `width` cells wide lives at offset `row * width + column` of the
    flat buffer. */
module RowMajor {

  /** The flat offset of (row, column); the body of `to_index`. */
  function Index(width: nat, row: nat, column: nat): nat
  {
    row * width + column
  }

  /** Multiplying by a width is monotone in the row count. */
  lemma MulMonotone(width: nat, a: nat, b: nat)
    requires a <= b
    ensures a * width <= b * width
  {
  }

  /** An in-bounds coordinate has an offset inside the buffer of a shaped grid. */
  lemma IndexBound(width: nat, height: nat, row: nat, column: nat)
    requires row < height && column < width
    ensures Index(width, row, column) < width * height
  {
    MulMonotone(width, row + 1, height);
    assert (row + 1) * width == row * width + width;
  }

  /** Offset zero of the next row comes right after the last cell of this one. */
  lemma RowEnd(width: nat, row: nat)
    ensures Index(width, row, width) == Index(width, row + 1, 0)
  {
    assert (row + 1) * width == row * width + width;
  }

  /** Two in-bounds coordinates with the same offset are the same coordinate. */
  lemma IndexInjective(width: nat, r1: nat, c1: nat, r2: nat, c2: nat)
    requires c1 < width && c2 < width
    requires Index(width, r1, c1) == Index(width, r2, c2)
    ensures r1 == r2 && c1 == c2
  {
    if r1 < r2 {
      MulMonotone(width, r1 + 1, r2);
      assert false;
    } else if r2 < r1 {
      MulMonotone(width, r2 + 1, r1);
      assert false;
    }
  }

  /** Division by the width undoes `Index`: an offset with an in-range column
      decodes back to its (row, column). */
  lemma IndexDecode(width: nat, row: nat, column: nat)
    ensures column < width ==> Index(width, row, column) / width == row
    ensures column < width ==> Index(width, row, column) % width == column
  {
    if column < width {
      var o := Index(width, row, column);
      IndexBound(width, row + 1, row, column);
      IndexOnto(width, row + 1, o);
      IndexInjective(width, o / width, o % width, row, column);
    }
  }

  /** Every offset of a shaped buffer is the offset of the coordinate
      (offset / width, offset % width), and that coordinate is in bounds.
      `IndexInjective` makes it the only such coordinate. */
  lemma IndexOnto(width: nat, height: nat, offset: nat)
    requires offset < width * height
    ensures width > 0
    ensures offset / width < height && offset % width < width
    ensures Index(width, offset / width, offset % width) == offset
  {
    if width == 0 {
      assert false;
    }
    var r, c := offset / width, offset % width;
    assert r * width + c == offset;
    if r >= height {
      MulMonotone(width, height, r);
      assert false;
    }
  }

  /** The cell (row, column) of a buffer laid out `width` cells per row. */
  function Cell<T>(s: seq<T>, width: nat, row: nat, column: nat): T
    requires Index(width, row, column) < |s|
  {
    s[Index(width, row, column)]
  }

  /** The number of cells in `rows` rows of `width` cells each. */
  function CellCount(width: nat, rows: nat): nat
  {
    rows * width
  }

  /** `n` copies of `x`: the cells that growth fills with the default value. */
  function Repeat<T>(x: T, n: nat): (r: seq<T>)
    ensures |r| == n
    ensures forall i :: 0 <= i < n ==> r[i] == x
  {
    if n == 0 then [] else Repeat(x, n - 1) + [x]
  }

  /** The rows of a buffer, as the `Debug` dump groups them: row `r` is the
      `width` cells starting at offset `r * width`. */
  function Rows<T>(s: seq<T>, width: nat, height: nat): (rows: seq<seq<T>>)
    requires |s| == width * height
    ensures |rows| == height
    ensures forall r :: 0 <= r < height ==> rows[r] == RowSlice(s, width, height, r)
  {
    seq(height, r requires 0 <= r < height => RowSlice(s, width, height, r))
  }

  /** Row `r` of a shaped buffer. */
  function RowSlice<T>(s: seq<T>, width: nat, height: nat, r: nat): (row: seq<T>)
    requires |s| == width * height && r < height
    ensures |row| == width
    ensures forall c :: 0 <= c < width ==> Index(width, r, c) < |s| && row[c] == Cell(s, width, r, c)
  {
    MulMonotone(width, r + 1, height);
    assert (r + 1) * width == r * width + width;
    s[r * width..r * width + width]
  }

  /** Cell (row, column) of the rows view is the cell at its offset. */
  lemma RowsCell<T>(s: seq<T>, width: nat, height: nat, row: nat, column: nat)
    requires |s| == width * height && row < height && column < width
    ensures Index(width, row, column) < |s|
    ensures Rows(s, width, height)[row][column] == s[Index(width, row, column)]
  {
    assert RowSlice(s, width, height, row)[column] == Cell(s, width, row, column);
  }

  /** `s'` (a `W` x `H` grid) extends `s` (a `w` x `h` grid) filled with `d`:
      every cell of `s` is at the same (row, column) of `s'`, and every cell
      of `s'` outside the old extents is `d`. */
  ghost predicate Extends<T>(s': seq<T>, W: nat, H: nat, s: seq<T>, w: nat, h: nat, d: T)
    requires |s'| == W * H && |s| == w * h
  {
    w <= W && h <= H &&
    forall row, col :: 0 <= row < H && 0 <= col < W ==>
      Rows(s', W, H)[row][col] == if row < h && col < w then Rows(s, w, h)[row][col] else d
  }

  /** A range of offsets inside one row is a slice of that row. */
  lemma RangeWithinRow<T>(s: seq<T>, width: nat, height: nat, row: nat, c1: nat, c2: nat)
    requires |s| == width * height && row < height && c1 <= c2 <= width
    ensures Index(width, row, c1) <= Index(width, row, c2) <= |s|
    ensures s[Index(width, row, c1)..Index(width, row, c2)] == Rows(s, width, height)[row][c1..c2]
  {
    MulMonotone(width, row + 1, height);
    assert (row + 1) * width == row * width + width;
  }

  /** A range from (row, c1) to (row + 1, c2) is the end of row `row`
      followed by the start of the next row. */
  lemma RangeAcrossRowEnd<T>(s: seq<T>, width: nat, height: nat, row: nat, c1: nat, c2: nat)
    requires |s| == width * height && row + 1 < height && c1 <= width && c2 <= width
    ensures Index(width, row, c1) <= Index(width, row + 1, c2) <= |s|
    ensures s[Index(width, row, c1)..Index(width, row + 1, c2)] ==
            Rows(s, width, height)[row][c1..] + Rows(s, width, height)[row + 1][..c2]
  {
    RowEnd(width, row);
    RangeWithinRow(s, width, height, row, c1, width);
    RangeWithinRow(s, width, height, row + 1, 0, c2);
    var a, m, b := Index(width, row, c1), Index(width, row, width), Index(width, row + 1, c2);
    assert s[a..b] == s[a..m] + s[m..b];
  }

  /** The two facts `to_index` relies on: in-bounds coordinates stay inside a
      shaped buffer, and no two coordinates with an in-range column share an
      offset. */
  lemma IndexFacts(width: nat, height: nat, row: nat, column: nat)
    ensures row < height && column < width ==> Index(width, row, column) < width * height
    ensures forall r: nat, c: nat :: c < width && column < width && Index(width, r, c) == Index(width, row, column) ==>
              r == row && c == column
  {
    if row < height && column < width {
      IndexBound(width, height, row, column);
    }
    forall r: nat, c: nat | c < width && column < width && Index(width, r, c) == Index(width, row, column)
      ensures r == row && c == column
    {
      IndexInjective(width, r, c, row, column);
    }
  }

  /** What a slice between two offsets is, for a shaped buffer. */
  lemma RangeFacts<T>(s: seq<T>, width: nat, height: nat, from: (nat, nat), to: (nat, nat))
    requires Index(width, from.0, from.1) <= Index(width, to.0, to.1) <= |s|
    ensures var lo, hi := Index(width, from.0, from.1), Index(width, to.0, to.1);
            s == s[..lo] + s[lo..hi] + s[hi..]
    ensures |s| == width * height && from.0 == to.0 < height && from.1 <= to.1 <= width ==>
              s[Index(width, from.0, from.1)..Index(width, to.0, to.1)] == Rows(s, width, height)[from.0][from.1..to.1]
    ensures |s| == width * height && from.0 + 1 == to.0 < height && from.1 <= width && to.1 <= width ==>
              s[Index(width, from.0, from.1)..Index(width, to.0, to.1)] ==
              Rows(s, width, height)[from.0][from.1..] + Rows(s, width, height)[to.0][..to.1]
  {
    var lo, hi := Index(width, from.0, from.1), Index(width, to.0, to.1);
    assert s == s[..lo] + s[lo..hi] + s[hi..];
    if |s| == width * height && from.0 == to.0 < height && from.1 <= to.1 <= width {
      RangeWithinRow(s, width, height, from.0, from.1, to.1);
    }
    if |s| == width * height && from.0 + 1 == to.0 < height && from.1 <= width && to.1 <= width {
      RangeAcrossRowEnd(s, width, height, from.0, from.1, to.1);
    }
  }

  /** The buffer whose rows are `rows`, one after the other: the inverse of
      `Rows` (see `RowsFlatten` and `FlattenRows`). */
  function Flatten<T>(rows: seq<seq<T>>): (s: seq<T>)
    decreases |rows|
  {
    if rows == [] then [] else Flatten(rows[..|rows| - 1]) + rows[|rows| - 1]
  }

  lemma {:induction false} FlattenLength<T>(rows: seq<seq<T>>, width: nat)
    requires forall k :: 0 <= k < |rows| ==> |rows[k]| == width
    ensures |Flatten(rows)| == width * |rows|
    decreases |rows|
  {
    if rows != [] {
      var n := |rows|;
      FlattenLength(rows[..n - 1], width);
      assert width * n == width * (n - 1) + width;
    }
  }

  /** Cutting the concatenation of equally long rows back into rows gives
      the rows. */
  lemma {:induction false} RowsFlatten<T>(rows: seq<seq<T>>, width: nat)
    requires forall k :: 0 <= k < |rows| ==> |rows[k]| == width
    ensures |Flatten(rows)| == width * |rows|
    ensures Rows(Flatten(rows), width, |rows|) == rows
    decreases |rows|
  {
    FlattenLength(rows, width);
    if rows != [] {
      var n := |rows|;
      var front := rows[..n - 1];
      RowsFlatten(front, width);
      var f, F := Flatten(front), Flatten(rows);
      assert F == f + rows[n - 1];
      forall k | 0 <= k < n
        ensures Rows(F, width, n)[k] == rows[k]
      {
        RowOfAppend(f, rows[n - 1], width, n - 1, k);
        if k < n - 1 {
          assert Rows(f, width, n - 1)[k] == front[k];
        }
      }
    }
  }

  /** Appending one more row of `width` cells leaves the earlier rows alone
      and makes the appended cells the last row. */
  lemma RowOfAppend<T>(f: seq<T>, last: seq<T>, width: nat, m: nat, k: nat)
    requires |f| == width * m && |last| == width && k <= m
    ensures |f + last| == width * (m + 1)
    ensures k < m ==> RowSlice(f + last, width, m + 1, k) == RowSlice(f, width, m, k)
    ensures k == m ==> RowSlice(f + last, width, m + 1, k) == last
  {
    assert width * (m + 1) == width * m + width;
    assert (k + 1) * width == k * width + width;
    if k < m {
      MulMonotone(width, k + 1, m);
    } else {
      assert k * width == width * m;
    }
  }

  /** Two shaped buffers with the same rows are the same buffer. */
  lemma RowsInjective<T>(a: seq<T>, b: seq<T>, width: nat, height: nat)
    requires |a| == width * height && |b| == width * height
    requires Rows(a, width, height) == Rows(b, width, height)
    ensures a == b
  {
    forall r: nat, c: nat | r < height && c < width
      ensures Index(width, r, c) < |a| && a[Index(width, r, c)] == b[Index(width, r, c)]
    {
      RowsCell(a, width, height, r, c);
      RowsCell(b, width, height, r, c);
    }
    forall j | 0 <= j < |a|
      ensures a[j] == b[j]
    {
      SameAtOffset(a, b, width, height, j);
    }
  }

  /** Buffers that agree at every in-bounds coordinate agree at every
      offset. */
  lemma SameAtOffset<T>(a: seq<T>, b: seq<T>, width: nat, height: nat, j: nat)
    requires |a| == width * height && |b| == width * height && j < |a|
    requires forall r: nat, c: nat :: r < height && c < width ==>
               Index(width, r, c) < |a| && a[Index(width, r, c)] == b[Index(width, r, c)]
    ensures a[j] == b[j]
  {
    IndexOnto(width, height, j);
  }

  /** Concatenating the rows of a shaped buffer gives the buffer back. */
  lemma FlattenRows<T>(s: seq<T>, width: nat, height: nat)
    requires |s| == width * height
    ensures Flatten(Rows(s, width, height)) == s
  {
    var rows := Rows(s, width, height);
    RowsFlatten(rows, width);
    RowsInjective(Flatten(rows), s, width, height);
  }
}
