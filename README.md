# advent-of-code-helpers grid and search, in Dafny

This project models two grid containers and one shortest-path search from the
Rust crate `advent-of-code-helpers`, and proves properties of the model:

- `Vec2D` of `src/vec2d.rs`: a flat row-major buffer `inner` of
  `height` rows of `width` cells. It is addressed by unsigned
  (row, column) pairs through `to_index = row * width + column`, and
  `growing_at_mut` extends it to the right and downwards until a
  requested cell exists.
- `Vec2D` of `src/vector_2d.rs`: the same container without growth.
- `bfs` of `src/bfs.rs`: a breadth-first search over a grid. It uses a FIFO
  queue of (coordinate, path length) pairs, the four moves of
  `MOVE_DIRECTIONS` and a visited mask. A move is allowed only to a cell
  at most one higher than the current one.

Layout:

- `RowMajor.dfy`: the row-major arithmetic shared by both containers. It
  covers the offset of a cell, its bounds, injectivity and decoding, the rows
  view of a buffer, what a slice between two offsets is, and the predicate
  `Extends`. `Extends` says a bigger grid holds a smaller one at the same
  coordinates, with defaults everywhere else.
- `Vec2d.dfy`: the growable container as a class, with fields `inner: seq<T>`,
  `width` and `height`. The mutating operations are methods with loops that
  follow the source's loops. Each one is proved against a specification
  function:
  - `WidenAsWritten` is the width phase as the source writes it;
  - `Widened` is the width phase with each row's defaults appended at the
    row's end;
  - the height phase appends whole rows of defaults.
- `Vec2dExamples.dfy`: the unit tests of `src/vec2d.rs` as methods whose
  contracts state what each test checks. They are proved for both width
  phases.
- `Vector2d.dfy`: the non-growing container as its own class, with its own
  contracts.
- `Bfs.dfy`: the searched grid as a value (extents that may start below zero,
  plus a value function). The queue is a `seq`, the visited mask a
  `map<Coord, bool>`. The reference definition is `Within(g, start, n)`: the
  cells reachable in at most `n` admissible steps. `Search` is proved to
  answer the exact distance, or `None` exactly when no layer reaches the
  target.

The growable grid of `src/vec2d.rs` is unsigned and grows only to the right
and downwards. `bfs` (src/bfs.rs:16-22, 37-42) calls a signed grid API:
`new_sized_with`, `positive_width`/`negative_width`, a fallible `at`,
`at_unchecked`. That API is not in `src/vec2d.rs`, so the grid `bfs` searches
is modelled abstractly, as extents that may start below zero plus a value for
every cell.

## Model

| member | source | states |
|---|---|---|
| RowMajor.Index | src/vec2d.rs:123-125 | the offset of (row, column) in a row-major buffer of the given width, as `to_index` computes it (also src/vector_2d.rs:73-75); the lemmas below state its bound, injectivity, decoding and ontoness |
| RowMajor.IndexBound | src/vec2d.rs:122-125 | an in-bounds (row, column) has an offset below `width * height` |
| RowMajor.IndexInjective | src/vec2d.rs:122-125 | two coordinates with in-range columns and the same offset are the same coordinate |
| RowMajor.IndexDecode | src/vec2d.rs:122-125 | for an in-range column, dividing the offset by `width` gives back the row and the remainder the column |
| RowMajor.IndexOnto | src/vec2d.rs:122-125 | every offset below `width * height` is the offset of the in-bounds coordinate (offset / width, offset % width); with `IndexInjective`, that coordinate is the only one |
| RowMajor.IndexFacts | src/vec2d.rs:122-125 | the bound and the injectivity of `to_index` together |
| RowMajor.RowEnd | src/vec2d.rs:52-54 | the offset just past a row's last cell is the first cell of the next row, which is why `at_range` runs across row ends |
| RowMajor.Repeat | src/vec2d.rs:100-104 | `n` copies of the default: length `n` and every cell the default |
| RowMajor.Rows | src/vec2d.rs:4-8 | the rows view of a buffer has `height` rows, and row `r` is the `r`-th run of `width` cells |
| RowMajor.RowSlice | src/vec2d.rs:4-8 | row `r` has `width` cells, and its cell `c` is the buffer cell at offset `r * width + c` |
| RowMajor.RowsCell | src/vec2d.rs:42-44 | cell (row, column) of the rows view is the buffer cell at `to_index(row, column)` |
| RowMajor.RangeWithinRow | src/vec2d.rs:52-54 | a slice between two offsets of one row is that row's slice between the two columns |
| RowMajor.RangeAcrossRowEnd | src/vec2d.rs:52-54 | a slice from (row, c1) to (row + 1, c2) is the tail of row `row` followed by the head of row `row + 1` |
| RowMajor.RangeFacts | src/vec2d.rs:52-54 | the two slice facts together, with the offsets ordered and inside the buffer |
| RowMajor.Extends | src/vec2d.rs:200-203 | the growth relation the test's comment expects: the bigger grid holds every old cell at the same (row, column), and every cell outside the old extents is the default |
| RowMajor.FlattenLength | src/vec2d.rs:4-8 | concatenating `k` rows of `width` cells gives `width * k` cells |
| RowMajor.RowsFlatten | src/vec2d.rs:4-8 | cutting concatenated equal rows back into rows gives the rows again |
| RowMajor.FlattenRows | src/vec2d.rs:4-8 | concatenating the rows of a shaped buffer gives the buffer again, so rows and buffer determine each other |
| RowMajor.RowsInjective | src/vec2d.rs:4-8 | two shaped buffers with the same rows are equal |
| Vec2d.InsertRun | src/vec2d.rs:82-84 | `n` insertions of the default at one offset lengthen the buffer by `n` |
| Vec2d.InsertRunStep | src/vec2d.rs:82-84 | one more `insert` at the same offset puts one more default in front of the run |
| Vec2d.WidenAsWritten | src/vec2d.rs:80-85 | after `rows` iterations of the width loop as written, the buffer has grown by `rows * missing` cells |
| Vec2d.WidenAsWrittenMask | src/vec2d.rs:80-85 | the same insertions made on an all-true mask mark exactly the old cells: selecting them gives the old buffer, and every unmarked cell is the default |
| Vec2d.WidenAsWrittenInsertsOnly | src/vec2d.rs:80-85 | the width phase as written keeps every old cell in its old relative order and inserts only defaults |
| Vec2d.AppendInsertsOnly | src/vec2d.rs:100-104 | appending defaults (the height phase) keeps that property |
| Vec2d.WidenAsWrittenFrontIsDefault | src/vec2d.rs:83 | when at least one column is missing, the width phase as written puts a default at offset 0 |
| Vec2d.WidenAsWrittenMovesCorner | src/vec2d.rs:83 | when the old corner is not the default, it is no longer at (0, 0) after the width phase as written; the old cells do not keep their coordinates |
| Vec2d.CountingGridWidenedAsWritten | src/vec2d.rs:80-85 | the width phase as written widens the grid 1..9 by two columns to `[0,0,1,0,0,2,0,0,3,4,5,6,7,8,9]`: every run of defaults lands inside old row 0 |
| Vec2d.IdentityGridWidenedAsWritten | src/vec2d.rs:189-203 | widening the 3x3 identity grid to width 5 as written gives `[0,0,1,0,0, 0,0,0,0,0, 1,0,0,0,1]`; after writing 1 at (2, 4) it is not the grid the test comment expects |
| Vec2d.WidenedRows | src/vec2d.rs:71-92 | the intended widened rows: `height` rows of `width + missing` cells each |
| Vec2d.Widened | src/vec2d.rs:71-92 | the intended widened buffer has `(width + missing) * height` cells and extends the old grid: old cells keep their (row, column), new cells hold the default |
| Vec2d.WidenedExtends | src/vec2d.rs:71-92 | the concatenated widened rows extend the old grid |
| Vec2d.AppendRowsExtends | src/vec2d.rs:94-106 | appending `missing` rows of defaults gives a `width` x `(height + missing)` grid extending the old one |
| Vec2d.TailExtends | src/vec2d.rs:100-104 | a buffer that starts with the old buffer and continues with defaults extends the old grid with the same width |
| Vec2d.Vec2D.Shaped | src/vec2d.rs:4-8 | the shape invariant the fields stand for: the buffer holds exactly `height` rows of `width` cells. The source never checks it (`from`, `push`, `extend` and `set_size` can break it); the lookups promise their results under it, the growth methods keep it, and `growing_at_mut` also establishes it from an empty buffer |
| Vec2d.Vec2D.Grid | src/vec2d.rs:4-8 | the rows view of a shaped grid has `height` rows |
| Vec2d.Vec2D.constructor | src/vec2d.rs:3-8 | `Default`: an empty buffer of size (0, 0) |
| Vec2d.Vec2D.WithCapacity | src/vec2d.rs:11-13 | an empty buffer of size (0, 0); capacity does not change the contents |
| Vec2d.Vec2D.WithCapacityAndSize | src/vec2d.rs:15-21 | an empty buffer with the given extents |
| Vec2d.Vec2D.From | src/vec2d.rs:23-29 | the data and extents stored as given, without a length check |
| Vec2d.Vec2D.Push | src/vec2d.rs:31-33 | one item appended at the end; extents unchanged |
| Vec2d.Vec2D.Extend | src/vec2d.rs:35-40 | the items appended in order; extents unchanged |
| Vec2d.Vec2D.SetSize | src/vec2d.rs:113-116 | the extents replaced, the buffer unchanged |
| Vec2d.Vec2D.Size | src/vec2d.rs:118-120 | on a shaped grid, the product of the two extents is the cell count, and a non-empty grid has both extents positive |
| Vec2d.Vec2D.ToIndex | src/vec2d.rs:122-125 | an in-bounds coordinate maps inside the `width * height` cells, and no other coordinate with an in-range column shares its offset |
| Vec2d.Vec2D.At | src/vec2d.rs:42-44 | panics (precondition) unless the offset is in the buffer; on a shaped grid an in-bounds read returns cell (row, column) of the rows view |
| Vec2d.Vec2D.AtMut | src/vec2d.rs:46-50 | a write through the returned reference changes exactly the cell at `to_index(row, column)` |
| Vec2d.Vec2D.AtRange | src/vec2d.rs:52-54 | the cells between the two offsets, in order, with the length of their difference; within one row this is that row's slice, and across one row end it is a row tail plus the next row's head |
| Vec2d.Vec2D.InsertDefaults | src/vec2d.rs:82-84 | the innermost loop: `n` inserts at `pos` leave `n` defaults in front of the old `inner[pos]` |
| Vec2d.Vec2D.GrowWidthAsWritten | src/vec2d.rs:71-92 | the width phase as written: the shape is kept, the width grows by `missing`, and the buffer is `WidenAsWritten` of the old one |
| Vec2d.Vec2D.GrowWidth | src/vec2d.rs:71-92 | the width phase with defaults inserted at `(width + missing) * i + width`: the shape is kept, the width grows by `missing`, and the new grid extends the old one |
| Vec2d.Vec2D.GrowHeight | src/vec2d.rs:94-106 | the height phase: `missing * width` defaults appended, the height grows by `missing`, the old prefix is kept, and the new grid extends the old one |
| Vec2d.Vec2D.GrowingAtMut | src/vec2d.rs:63-111 | with the corrected width phase: an empty grid first becomes the 1x1 default grid; afterwards the coordinate is in bounds, the returned offset is its `to_index`, each extent grows to exactly the coordinate plus one when it was too small, the new grid extends the old one, and nothing changes when the coordinate already was in bounds |
| Vec2d.Vec2D.GrowingAtMutAsWritten | src/vec2d.rs:63-111 | as written: the same shape, bounds, extents and offset as above; the old cells survive only in their old relative order, among inserted defaults |
| Vec2d.GrownAsWritten | src/vec2d.rs:63-106 | the buffer growth as written leaves behind: the width phase as written when the column is out of range, then whole rows of defaults when the row is out of range |
| Vec2d.GrownAsWrittenInsertsOnly | src/vec2d.rs:63-111 | both phases of growth as written together only insert defaults |
| Vec2d.ExtendsTrans | src/vec2d.rs:63-111 | growing in two phases extends the original grid when each phase does |
| Vec2dExamples.IndexingWorks | src/vec2d.rs:153-173 | the 3x3 grid 1..9 has size (3, 3), cells 1, 3, 4, 8 at the tested coordinates, and range `[5, 6, 7]` from (1, 1) to (2, 1) |
| Vec2dExamples.GrowingWorks | src/vec2d.rs:175-186 | with the corrected growth, sizes (1, 1) then (3, 3), both written cells read back as 1, and the first write is still at (0, 0) |
| Vec2dExamples.GrowEmpty | src/vec2d.rs:179-181 | growing the empty grid at (0, 0) gives the 1x1 grid holding the default, at offset 0 |
| Vec2dExamples.GrowCorner | src/vec2d.rs:183-185 | with the corrected width phase, growing the 1x1 grid [1] at (2, 2) gives the 3x3 grid with the 1 at (0, 0) and defaults elsewhere, at offset 8 |
| Vec2dExamples.CornerGridGrown | src/vec2d.rs:183-185 | that 3x3 grid is the only one extending [1] with zeros |
| Vec2dExamples.GrowingWorksAsWritten | src/vec2d.rs:175-186 | with growth as written, the test's own checks hold (size (3, 3), 1 at (2, 2)), but the 1 first written at (0, 0) is at (0, 2) and (0, 0) holds 0 |
| Vec2dExamples.GrowEmptyAsWritten | src/vec2d.rs:179-181 | the first growth as written gives the same 1x1 default grid |
| Vec2dExamples.GrowCornerAsWritten | src/vec2d.rs:183-185 | the second growth as written gives `[0, 0, 1, 0, 0, 0, 0, 0, 0]` |
| Vec2dExamples.CornerGrownAsWritten | src/vec2d.rs:80-105 | growth as written of [1] to 3x3 puts the two row-0 defaults in front of the 1 |
| Vec2dExamples.GrowingWorks2 | src/vec2d.rs:188-203 | with the corrected growth, growing the 3x3 identity grid to reach (2, 4) and writing 1 there gives exactly the grid the test comment expects |
| Vec2dExamples.IdentityGridWidened | src/vec2d.rs:198-203 | the only 5x3 grid extending the identity grid with zeros |
| Vector2d.Vec2D.constructor | src/vector_2d.rs:3-8 | `Default`: an empty buffer of size (0, 0) |
| Vector2d.Vec2D.WithCapacity | src/vector_2d.rs:11-13 | size (0, 0), no cells |
| Vector2d.Vec2D.WithCapacityAndSize | src/vector_2d.rs:15-21 | an empty buffer with the given extents |
| Vector2d.Vec2D.From | src/vector_2d.rs:23-29 | the data and extents stored as given, without a length check |
| Vector2d.Vec2D.Push | src/vector_2d.rs:31-33 | one item appended at the end; extents unchanged |
| Vector2d.Vec2D.Extend | src/vector_2d.rs:35-40 | the items appended in order; extents unchanged |
| Vector2d.Vec2D.SetSize | src/vector_2d.rs:63-66 | the extents replaced, the buffer unchanged |
| Vector2d.Vec2D.Size | src/vector_2d.rs:68-70 | on a shaped grid the product of the extents is the cell count, and a zero extent means no cells |
| Vector2d.Vec2D.ToIndex | src/vector_2d.rs:72-75 | the offset decodes back to (row, column) for an in-range column, and is below `width * height` when in bounds |
| Vector2d.Vec2D.At | src/vector_2d.rs:42-44 | panics unless the offset is in the buffer; on a shaped grid an in-bounds read is cell (row, column) of the rows view |
| Vector2d.Vec2D.AtMut | src/vector_2d.rs:46-50 | a write through the reference sets that cell and keeps every other cell and the length |
| Vector2d.Vec2D.AtRange | src/vector_2d.rs:52-54 | the cells between the two offsets in order; across one row end, a row tail followed by the next row's head |
| Vector2d.IndexingWorks | src/vector_2d.rs:101-121 | size (3, 3), cells 1, 3, 4, 8 and range `[5, 6, 7]` on the grid 1..9 |
| Bfs.Move | src/bfs.rs:5 | each of the four moves is one unit step |
| Bfs.MovesDistinct | src/bfs.rs:5 | the four moves of `MOVE_DIRECTIONS` lead from any cell to four different cells |
| Bfs.Grid.Contains | src/bfs.rs:37 | the cells for which the fallible `at` yields a value: rows `top .. top + height` and columns `left .. left + width` |
| Bfs.Admissible | src/bfs.rs:37-40 | the step rule: both cells in the grid, and the target's value at most the source's value plus one |
| Bfs.Grid.Coords | src/bfs.rs:16-22 | the visited mask's keys are exactly the grid's coordinates |
| Bfs.Grid.At | src/bfs.rs:37 | the fallible lookup is `Some` exactly inside the grid, and then holds the cell's value |
| Bfs.Within | src/bfs.rs:27-48 | every layer holds `start` |
| Bfs.PathWithin | src/bfs.rs:27-48 | every walk of admissible steps ends in the layer of its length |
| Bfs.WithinPath | src/bfs.rs:27-48 | every cell of layer `n` ends a walk from `start` of at most `n` steps |
| Bfs.WithinMonotone | src/bfs.rs:27-48 | the layers only grow |
| Bfs.ClosedHoldsWithin | src/bfs.rs:27-48 | a set holding `start` and closed under admissible steps holds every layer |
| Bfs.WithinManhattan | src/bfs.rs:5 | no cell of layer `n` is more than `n` unit steps from `start` |
| Bfs.LayerStep | src/bfs.rs:34-44 | a cell new in a layer is one admissible step from the previous layer |
| Bfs.SuccAdjacent | src/bfs.rs:34-40 | a step is admissible and one unit long |
| Bfs.MoveWithin | src/bfs.rs:34-43 | an admissible move out of layer `n` lands in layer `n + 1` |
| Bfs.ExactIsShortest | src/bfs.rs:27-31 | an exact distance `n` is the length of a walk of `n` steps, and no walk from `start` to the cell is shorter |
| Bfs.UnreachableHasNoPath | src/bfs.rs:46-48 | when no layer holds a cell, no walk from `start` ends there |
| Bfs.NewNeighbourExact | src/bfs.rs:40-43 | a neighbour first reached from a cell at distance `l`, once everything within `l` steps has been seen, is at distance exactly `l + 1` |
| Bfs.Offer | src/bfs.rs:35-44 | one direction: the neighbour is queued at `l + 1` and marked exactly when the grid holds it, the step rule admits it and it is unmarked; otherwise nothing changes; afterwards that neighbour, when admissible, has been seen, and the search invariant is kept |
| Bfs.Fresh | src/bfs.rs:34-44 | the entries the inner loop queues over the first `k` directions, in the order of `MOVE_DIRECTIONS`: each admissible neighbour not marked when the expansion began, at distance `l + 1` |
| Bfs.FreshAvoids | src/bfs.rs:34-44 | the entries of the first `k` directions name none of the later directions' neighbours, so no neighbour is queued twice in one expansion |
| Bfs.FreshStep | src/bfs.rs:34-44 | one pass of the inner loop extends the queued entries and the marked cells by exactly direction `k`'s entry, if any |
| Bfs.Expand | src/bfs.rs:34-45 | all four directions: the new queue is the old queue followed by exactly the entries of `Fresh` (admissible, unmarked neighbours at `l + 1`, in the order down, up, right, left), and the mask grows by exactly their cells (the visited map follows the mask through the search invariant); every admissible neighbour of the popped cell has been seen, every cell is logged as queued at most once, and the search invariant is kept |
| Bfs.LogStart | src/bfs.rs:24-25 | before the loop, the queue is `[(start, 0)]`, nothing has been pushed after it and nothing is marked |
| Bfs.LogPop | src/bfs.rs:27 | popping the front keeps the queue what is left of `(start, 0)` followed by the pushed entries |
| Bfs.LogPush | src/bfs.rs:40-43 | pushing `(next, l + 1)` as `next` is marked keeps the queue a tail of the push history, keeps every cell pushed at most once, and keeps the pushed cells exactly the marked ones; `Expand` and `Search` carry this log as an invariant |
| Bfs.MarkingShrinks | src/bfs.rs:40-42 | marking one more grid cell leaves fewer unmarked cells, so the outer loop of `bfs` terminates |
| Bfs.SearchStarts | src/bfs.rs:16-25 | the initial state (an all-false mask over the grid, queue `[(start, 0)]`) satisfies the search invariant |
| Bfs.PopsEnd | src/bfs.rs:27-31 | popping `end` pops its exact distance |
| Bfs.PopsOther | src/bfs.rs:27-33 | popping any other cell sets up its expansion at the popped distance |
| Bfs.Advance | src/bfs.rs:27-46 | finishing an expansion restores the loop invariant: queued distances are sorted and span at most one, and every cell closer than the front has been seen |
| Bfs.AdvanceLevel | src/bfs.rs:27-46 | when the front's distance moves from `l` to `l + 1`, every cell within `l + 1` steps has been seen |
| Bfs.FrontAdvances | src/bfs.rs:27-46 | once every queued distance exceeds `l`, every cell within `l + 1` steps has been seen |
| Bfs.Exhausted | src/bfs.rs:46-48 | an empty queue means no layer reaches `end` |
| Bfs.Search | src/bfs.rs:7-49 | `start == end` answers `Some(0)`; `Some(n)` is the exact least number of admissible steps from `start` to `end`; `None` only when no number of steps reaches `end` |
| Bfs.FixtureGrid | src/bfs.rs:57-68 | the test grid is 6x6 with its corner at (0, 0) |
| Bfs.WalkWithin | src/bfs.rs:34-43 | a walk of admissible moves out of layer `n` ends in the layer as many moves further out |
| Bfs.FixtureWalk | src/bfs.rs:57-70 | on the test grid the moves down, down, down, right, down, down, right, right lead from (0, 0) to (5, 3) |
| Bfs.FixtureReachable | src/bfs.rs:57-70 | (5, 3) is within 8 steps of (0, 0) on the test grid |
| Bfs.FixtureDistance | src/bfs.rs:57-71 | the exact distance from (0, 0) to (5, 3) on the test grid is 8 and nothing else |
| Bfs.ShortestPathFixture | src/bfs.rs:56-74 | the search answers `Some(8)` on the test |

## Left out

- `Debug` implementations, `println!` and `dbg!` (src/vec2d.rs:72, 81, 108, 128-147; src/vector_2d.rs:78-95): console output only.
- `reserve` and `with_capacity`: they change allocation and not the contents, so the model takes the capacity argument and ignores it.
- `usize` arithmetic is modelled with unbounded `nat`. Overflow of `to_index` and of the extent arithmetic in growth is not modelled.
- Out-of-bounds indexing and slicing panic in the source. The model makes these preconditions on `At`, `AtMut` and `AtRange`.
- `at_mut` and `growing_at_mut` return a mutable reference. `AtMut` models the caller's write through it, and `GrowingAtMut` returns the offset the reference points at.
- Generic cell type: `Vec2D<T>` stays generic, and `T::default()` is passed in as a parameter. In `bfs`, the `PartialOrd` and `Add<i32>` bounds become `int` values.
- `at_range_mut` (src/vec2d.rs:56-61, src/vector_2d.rs:56-61) returns the same slice as `at_range`, through a mutable borrow. It is not modelled separately.
- src/parsing_line_iterator.rs is not part of this model. It wraps an iterator that is not among the files modelled here.
- The signed grid API that `bfs` calls (`new_sized_with`, `positive_width`/`negative_width`, a fallible `at`, `at_unchecked`, `at_mut_unchecked`) is not part of this model. The searched grid is a value: a signed rectangle plus a value function. The visited mask is a map over the same coordinates.
- Vec2d.Vec2D.GrowingAtMut: requires the buffer to be empty or shaped (`len == width * height`). A non-empty buffer of another length, which `from` can build, is not modelled; the source would index it inconsistently.
- Vec2d.Vec2D.GrowingAtMutAsWritten: the same precondition as `GrowingAtMut`, for the same reason.
- Bfs.Search: requires `start` to be in the grid unless it equals `end`. The source reads the start cell with `at_unchecked`, which has no defined result outside the grid.
- Bfs.Search: the answer is an unbounded `nat`. The source returns an `i32` path length, whose overflow is not modelled.

## Findings

| source | as written | input that shows it | evidently intended | confidence | as-written member | corrected member |
|---|---|---|---|---|---|---|
| src/vec2d.rs:83 | the width phase inserts row `i`'s missing defaults at offset `width * i`, using the old width. That is where row `i` starts in the old layout, but the earlier rows have already grown by `i * missing` cells, so from `i = 1` on the run lands among the cells of earlier rows (the grid 1..9 widened by 2 becomes `[0,0,1,0,0,2,0,0,3,4,5,6,7,8,9]`). The old cells keep their relative order but not their (row, column) | the 1x1 grid [1] grown at (2, 2) becomes `[0,0,1, 0,0,0, 0,0,0]`, with the 1 at (0, 2). The 3x3 identity grid grown at (2, 4) becomes `[0,0,1,0,0, 0,0,0,0,0, 1,0,0,0,1]` | each row's defaults appended after its old cells, at `(width + missing) * i + width`, so every old cell keeps its (row, column). This is what the comment at src/vec2d.rs:200-203 expects, and the TODO at src/vec2d.rs:70 flags the width phase | not executed | Vec2d.WidenAsWrittenMovesCorner, Vec2d.CountingGridWidenedAsWritten, Vec2dExamples.GrowingWorksAsWritten | Vec2d.Vec2D.GrowWidth, Vec2d.Vec2D.GrowingAtMut |
