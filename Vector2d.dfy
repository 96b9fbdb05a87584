/** The non-growing grid of `src/vector_2d.rs`: the same flat row-major
    buffer as `src/vec2d.rs` (see the `RowMajor` module), with the same
    accessors and no `growing_at_mut`. */
module Vector2d {
  import opened RowMajor

  class Vec2D<T> {
    var inner: seq<T>
    var width: nat
    var height: nat

    /** `Default::default()` and `with_capacity`: size (0, 0), no cells. */
    constructor ()
      ensures inner == [] && width == 0 && height == 0
    {
      inner, width, height := [], 0, 0;
    }

    constructor WithCapacity(capacity: nat)
      ensures inner == [] && width == 0 && height == 0
    {
      inner, width, height := [], 0, 0;
    }

    /** `with_capacity_and_size`: the extents are recorded, the buffer is
        still empty. */
    constructor WithCapacityAndSize(capacity: nat, width: nat, height: nat)
      ensures inner == [] && this.width == width && this.height == height
    {
      inner, this.width, this.height := [], width, height;
    }

    /** `from`: data and extents are stored as given; nothing checks that
        `|data| == width * height`. */
    constructor From(data: seq<T>, width: nat, height: nat)
      ensures inner == data && this.width == width && this.height == height
    {
      inner, this.width, this.height := data, width, height;
    }

    /** `push`: one more cell at the end; the extents stay. */
    method Push(item: T)
      modifies this
      ensures inner == old(inner) + [item]
      ensures width == old(width) && height == old(height)
    {
      inner := inner + [item];
    }

    /** `extend`: the items, in iteration order, after the existing cells. */
    method Extend(items: seq<T>)
      modifies this
      ensures inner == old(inner) + items
      ensures width == old(width) && height == old(height)
    {
      inner := inner + items;
    }

    /** `set_size`: replaces the extents and leaves the buffer alone. */
    method SetSize(width: nat, height: nat)
      modifies this
      ensures inner == old(inner)
      ensures this.width == width && this.height == height
    {
      this.width, this.height := width, height;
    }

    /** `size`: the recorded (width, height); when the buffer is exactly
        `height` rows of `width` cells, it says how many cells there are. */
    function Size(): (size: (nat, nat))
      reads this
      ensures |inner| == width * height ==> |inner| == size.0 * size.1
      ensures size.0 == 0 || size.1 == 0 ==> |inner| == width * height ==> inner == []
    {
      (width, height)
    }

    /** `to_index`: the offset decodes back to (row, column) whenever the
        column is in range, and an in-bounds coordinate lands inside the
        `width * height` cells. */
    function ToIndex(row: nat, column: nat): (i: nat)
      reads this
      ensures column < width ==> i / width == row && i % width == column
      ensures row < height && column < width ==> i < width * height
    {
      IndexDecode(width, row, column);
      IndexFacts(width, height, row, column);
      Index(width, row, column)
    }

    /** `at`: panics unless the offset is inside the buffer; otherwise the
        cell of row `row` at `column` when the buffer is shaped. */
    function At(row: nat, column: nat): (x: T)
      reads this
      requires ToIndex(row, column) < |inner|
      ensures |inner| == width * height && row < height && column < width ==>
                x == Rows(inner, width, height)[row][column]
    {
      inner[ToIndex(row, column)]
    }

    /** The write made through the reference `at_mut` returns: that cell
        takes the value, and every other offset keeps its cell. */
    method AtMut(row: nat, column: nat, value: T)
      requires ToIndex(row, column) < |inner|
      modifies this
      ensures width == old(width) && height == old(height) && |inner| == |old(inner)|
      ensures inner[ToIndex(row, column)] == value
      ensures forall k :: 0 <= k < |inner| && k != ToIndex(row, column) ==> inner[k] == old(inner)[k]
    {
      inner := inner[ToIndex(row, column) := value];
    }

    /** `at_range`: the cells from offset `to_index(from)` up to, not
        including, `to_index(to)`, one after the other, running across row
        ends; slicing panics unless the offsets are ordered and in the
        buffer. */
    function AtRange(from: (nat, nat), to: (nat, nat)): (r: seq<T>)
      reads this
      requires ToIndex(from.0, from.1) <= ToIndex(to.0, to.1) <= |inner|
      ensures |r| == ToIndex(to.0, to.1) - ToIndex(from.0, from.1)
      ensures forall k :: 0 <= k < |r| ==> r[k] == inner[ToIndex(from.0, from.1) + k]
      ensures |inner| == width * height && from.0 + 1 == to.0 < height && from.1 <= width && to.1 <= width ==>
                r == Rows(inner, width, height)[from.0][from.1..] + Rows(inner, width, height)[to.0][..to.1]
    {
      RangeFacts(inner, width, height, from, to);
      inner[ToIndex(from.0, from.1)..ToIndex(to.0, to.1)]
    }
  }

  /** `indexing_works` (the unit test of `src/vector_2d.rs`). */
  method IndexingWorks() returns (size: (nat, nat), cells: seq<int>, range: seq<int>)
    ensures size == (3, 3)
    ensures cells == [1, 3, 4, 8]
    ensures range == [5, 6, 7]
  {
    var v := new Vec2D.From([1, 2, 3, 4, 5, 6, 7, 8, 9], 3, 3);
    size := v.Size();
    cells := [v.At(0, 0), v.At(0, 2), v.At(1, 0), v.At(2, 1)];
    range := v.AtRange((1, 1), (2, 1));
  }
}
