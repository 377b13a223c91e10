# vec2d in Dafny

This project models `Vec2D<T>`, the rectangular grid of the `vec2d` crate.
The grid keeps its cells in one row-major buffer `cells` together with a `width`.
The height is never stored: it is always `|cells| / width`, and cell `(x, y)` lives at index `y * width + x`.

The files are:

- `wrappers.dfy` (module `Wrappers`): `Option` and `Result`, which stand for Rust's `Option` and `Result`.
- `row_major.dfy` (module `RowMajor`):
  - the two static helpers `create_index` and `create_coords`;
  - the arithmetic facts about row-major addressing;
  - `Chunks`, which splits a buffer into rows of `width` cells (what `chunks_exact` yields);
  - the lemmas on how `Chunks` behaves under append, splice, drain and truncation.
- `vec2d.dfy` (module `Vec2DGrid`): the grid as a class `Vec2D<T>`.
  - `Valid()` is the grid invariant `width > 0 && |cells| % width == 0`.
  - Every mutator is a method with `modifies this` that keeps `Valid()`, except `truncate_cols` with a width of 0 (see Findings).
  - Each mutator states its new buffer exactly. The row operations (extend, insert, discard, remove and both truncations) also state their new list of rows. For the cell writes and `map_in_place` the rows follow from the buffer and the unchanged width.
  - The pure accessors are functions with `reads this`.
  - The constructors are static methods returning `Result<Vec2D<T>, Vec2DErr>`.
- `examples_grid.dfy` (module `Vec2DExamples`):
  - the concrete grids of the crate's unit tests (`src/test.rs`), stated as lemmas and methods;
  - a counterexample for each finding below.

Some Rust features are modelled as follows:

- `T::default()` in `new` is passed in as the parameter `zero`.
- The closure of `new_with_constructor` is a function `factory: nat -> T`; the k-th call yields `factory(k)`.
- The closure of `map_in_place` is a function `f: T -> T`.
- Iterators (`iter_xy`, `iter_rows`, the neighbour iterators) are the sequences they would yield.

`Vec2DExamples` restates these unit tests of `src/test.rs`:

- `new_creates_correct_size` and `new_errors_on_zero_dimensions`, in `NewExamples`;
- `from_vec_valid` and `from_vec_invalid_width`, in `FromVecExamples`;
- `indexing_valid`, in `IndexingExample`;
- `get_works` and `get_mut_works`, in `GetMutExample`;
- `get_row_works`, in `RowsExample`, and `iter_rows_works`, in `IterRowsExample`;
- `extend_works`, in `ExtendExample`;
- `insert_row_works`, in `InsertRowExample`;
- `iter_xy_visits_all_cells`, in `IterXYExample`;
- `map_in_place_applies_to_all_cells`, in `MapInPlaceExample`;
- the four neighbour tests, in `VonNeumannCenterExample`, `VonNeumannCornerExample`, `MooreCenterExample` and `MooreCornerExample`.

The two `should_panic` indexing tests are `Index`'s precondition rather than examples.

These examples are our own, with no unit test behind them:

- the `WidthMismatch(2, 3)` case of `ExtendExample`;
- the `OutOfBounds` case of `InsertRowExample`;
- `RemoveRowExample`;
- `IntoCellsRoundTrip`;
- the counterexamples `CoordsCounterexample` and `TruncateColsToZeroExample`.

Examples asserted only inside a method body have no row in the table below.

## Model

| member | source | states |
|---|---|---|
| Vec2DGrid.Vec2D.constructor | src/lib.rs:141-144 | a grid built from a checked buffer and width holds exactly those and satisfies the invariant |
| Vec2DGrid.Vec2D.New | src/lib.rs:131-145 | width 0 gives ZeroWidth, checked before height 0 giving ZeroHeight; otherwise a valid grid of the requested width and height with width * height cells, all equal to the default |
| Vec2DGrid.Vec2D.NewWithDefault | src/lib.rs:152-166 | the same error order; otherwise width * height copies of the given value, with width() and height() the requested ones |
| Vec2DGrid.Vec2D.NewWithConstructor | src/lib.rs:173-189 | the same error order; otherwise width * height cells where cell k is the k-th factory result, in row-major order |
| Vec2DGrid.Vec2D.FromVec | src/lib.rs:201-212 | errors in the order ZeroWidth (even for an empty buffer), EmptySource, WidthMismatch(len, width); otherwise the buffer is kept unchanged and height * width == len |
| Vec2DExamples.IntoCellsRoundTrip | src/lib.rs:67-79 | converting a grid into its buffer and back with the same width gives the same cells and width, or EmptySource for a grid with no rows |
| Vec2DGrid.Vec2D.Cells | src/lib.rs:215-217 | the buffer holds exactly height * width cells |
| Vec2DGrid.Vec2D.Width | src/lib.rs:228-230 | the width is positive and divides the buffer length |
| Vec2DGrid.Vec2D.Height | src/lib.rs:233-235 | height * width is the buffer length |
| Vec2DGrid.Vec2D.IndexOf | src/lib.rs:240-246 | an index is returned exactly when x < width and y < height, and it lies inside the buffer |
| Vec2DGrid.Vec2D.IndexOfDecodes | src/lib.rs:240-246 | create_coords maps the index IndexOf gives for (x, y) back to (x, y) |
| RowMajor.CreateIndex | src/lib.rs:264-266 | for a column inside the width, the index divided by the width gives back the row and its remainder the column |
| RowMajor.CreateCoords | src/lib.rs:271-273 | the column is inside the width, and row * width + column is the index again |
| RowMajor.CoordsOfIndex | src/lib.rs:263-273 | create_coords(create_index(x, y, w), w) == (x, y) whenever x < w |
| RowMajor.IndexOfCoords | src/lib.rs:263-273 | create_index undoes create_coords for every index, and the column it yields is below the width |
| RowMajor.DivModUnique | src/lib.rs:270-273 | any split idx == y * w + x with x < w is the quotient and remainder create_coords computes |
| Vec2DGrid.Vec2D.Coords | src/lib.rs:251-259 | as written: present exactly when idx / width < width and idx % width < height, and then it is create_coords with its components exchanged |
| Vec2DGrid.Vec2D.CoordsOfIndexOf | src/lib.rs:251-259 | coords applied to the index of (x, y) gives the mirrored cell (y, x) or nothing, and gives back (x, y) only when x == y |
| Vec2DGrid.Vec2D.CoordsRowMajor | src/lib.rs:251-259 | corrected coords: present exactly when the index lies inside the buffer, and then IndexOf maps the result back to the index |
| Vec2DGrid.Vec2D.CoordsRowMajorOfIndexOf | src/lib.rs:251-259 | corrected coords undoes IndexOf on every cell of the grid |
| Vec2DExamples.CoordsCounterexample | src/lib.rs:251-259 | on a 3 x 2 grid, index 1 is cell (1, 0) for IndexOf and the corrected coords, but (0, 1) for coords as written |
| Vec2DGrid.Vec2D.Get | src/lib.rs:276-281 | a value is returned exactly when IndexOf finds the cell, and it is the cell at that index |
| Vec2DGrid.Vec2D.Index | src/lib.rs:28-44 | inside the grid, grid[(x, y)] is the value Get returns |
| Vec2DGrid.Vec2D.IndexSet | src/lib.rs:50-64 | grid[(x, y)] = v replaces exactly the cell at IndexOf(x, y); every other cell and the width are unchanged |
| Vec2DGrid.Vec2D.GetMutSet | src/lib.rs:285-291 | a write through get_mut succeeds exactly when IndexOf finds the cell; it then changes that cell only, and otherwise nothing changes |
| Vec2DGrid.Vec2D.GetRow | src/lib.rs:294-302 | a row is returned exactly when y < height; it has width cells, and cell x of it is Get(x, y) |
| Vec2DGrid.Vec2D.RowIsChunk | src/lib.rs:294-302 | row y is the y-th chunk of the buffer |
| Vec2DGrid.Vec2D.IterXY | src/lib.rs:438-444 | one entry per cell in buffer order; IndexOf maps entry i's coordinates to i, and its value is cell i |
| Vec2DGrid.Vec2D.IndicesDecode | src/lib.rs:438-444 | every buffer index decoded by create_coords is a cell IndexOf maps back to that index |
| Vec2DGrid.Vec2D.IterRows | src/lib.rs:456-458 | height rows; row y is GetRow(y), and the rows laid end to end are the buffer |
| RowMajor.ConcatChunks | src/lib.rs:456-458 | concatenating the chunks of a buffer gives the buffer back |
| RowMajor.ChunksConcat | src/lib.rs:456-458 | splitting the concatenation of rows of width w into chunks gives those rows back |
| RowMajor.ChunksRow | src/lib.rs:294-302 | chunk y is the slice from y * width to (y + 1) * width |
| Vec2DGrid.Vec2D.MapInPlace | src/lib.rs:466-473 | every cell becomes f of its old value, and the width and length are unchanged |
| Vec2DGrid.Vec2D.Extend | src/lib.rs:327-334 | a row whose length is not a multiple of the width gives WidthMismatch(len, width) and changes nothing; otherwise the row is appended, height grows by len / width and the new rows are added at the bottom |
| Vec2DGrid.Vec2D.ExtendCloned | src/lib.rs:350-360 | the same effect as Extend |
| RowMajor.ChunksAppend | src/lib.rs:327-334 | the rows of a + b are the rows of a followed by the rows of b |
| Vec2DGrid.Vec2D.InsertRow | src/lib.rs:371-382 | y >= height gives OutOfBounds before the length is checked, then WidthMismatch, each changing nothing; otherwise the row is spliced in at y * width, height grows by len / width, and the new rows sit before old row y |
| Vec2DGrid.Vec2D.InsertRowCloned | src/lib.rs:391-405 | the same effect as InsertRow |
| RowMajor.ChunksInsert | src/lib.rs:371-382 | splicing whole rows in at y * width inserts their chunks before row y |
| Vec2DGrid.Vec2D.DiscardRow | src/lib.rs:408-418 | y >= height gives OutOfBounds and changes nothing; otherwise the cells from y * width to (y + 1) * width are drained, height drops by 1 and exactly row y leaves the list of rows |
| Vec2DGrid.Vec2D.RemoveRow | src/lib.rs:423-435 | as DiscardRow, and the result is exactly the old row y, with width cells |
| RowMajor.ChunksDropRow | src/lib.rs:408-418 | dropping the first row of the part after row y drops exactly that chunk from the rows of the whole |
| RowMajor.ChunksRemove | src/lib.rs:408-418 | draining the cells of row y removes exactly chunk y |
| Vec2DGrid.Vec2D.TruncateRows | src/lib.rs:476-487 | more rows than the height gives OutOfBounds; the same height changes nothing; otherwise the buffer is cut to its first h * width cells, and the rows are the first h old rows |
| RowMajor.ChunksSplit | src/lib.rs:476-487 | the chunks of the first k rows of a buffer are its first k chunks, and the chunks of the rest are the remaining chunks |
| Vec2DGrid.Vec2D.TruncateCols | src/lib.rs:489-505 | as written: a wider width gives WidthMismatch(new, width) and the same width changes nothing; otherwise every row keeps its first new-width cells and the height is unchanged; a width of 0 leaves an empty buffer of width 0 that breaks the invariant |
| Vec2DGrid.Vec2D.DrainColumns | src/lib.rs:496-501 | the reverse loop over rows that drains each row's tail leaves the first n cells of every row, in order |
| Vec2DGrid.Vec2D.TruncateStep | src/lib.rs:496-501 | one pass of the loop, which drains one row's tail, extends the part already done by that row cut to n cells |
| Vec2DGrid.Vec2D.TruncatedGrid | src/lib.rs:489-505 | rows of width w cut to n > 0 cells form a buffer of width n with as many rows, and those rows are the cut rows |
| Vec2DGrid.Vec2D.TakeAllOfEach | src/lib.rs:492-494 | cutting rows to their full width keeps them, so the same width is a no-op |
| Vec2DGrid.Vec2D.TruncateColsChecked | src/lib.rs:489-505 | corrected: a width of 0 gives ZeroWidth and changes nothing; otherwise as truncate_cols, and the invariant always holds afterwards |
| Vec2DExamples.TruncateColsToZeroExample | src/lib.rs:489-505 | truncate_cols(0) on a 3 x 2 grid succeeds and leaves width 0 with no cells, which is not a valid grid |
| Vec2DGrid.Vec2D.InBounds | src/lib.rs:508-511 | signed coordinates are in bounds exactly when both are non-negative and IndexOf finds the cell |
| Vec2DGrid.Vec2D.NeighborsFrom | src/lib.rs:520-584 | at most one entry per offset, each carrying the value Get returns for its coordinates |
| Vec2DGrid.Vec2D.KeptFromExact | src/lib.rs:520-584 | the offset positions kept are increasing, and a position is kept exactly when its target passes in_bounds |
| Vec2DGrid.Vec2D.NeighborsFromKept | src/lib.rs:520-584 | entry i yielded is the target of the i-th kept offset, so the entries follow the table order |
| Vec2DGrid.Vec2D.NeighborsFromComplete | src/lib.rs:520-584 | every offset whose target passes in_bounds is yielded at some position |
| Vec2DGrid.Vec2D.NeighborsFromAllInside | src/lib.rs:520-584 | when every target is inside, one entry per offset is yielded, in table order |
| Vec2DGrid.Vec2D.NeighborsVonNeumann | src/lib.rs:520-541 | at most 4 entries; each is 4-adjacent to (x, y) and carries the value at its coordinates |
| Vec2DGrid.Vec2D.VonNeumannComplete | src/lib.rs:520-541 | each of the N, W, E, S neighbours that lies inside the grid is yielded |
| Vec2DGrid.Vec2D.VonNeumannInterior | src/lib.rs:520-541 | away from the border, exactly the 4 neighbours are yielded in the order N, W, E, S |
| Vec2DGrid.Vec2D.VonNeumannCorner | src/lib.rs:520-541 | at (0, 0) only the east and south neighbours are yielded, in that order |
| Vec2DGrid.Vec2D.NeighborsMoore | src/lib.rs:550-584 | at most 8 entries; each lies within one step in both directions and is never the centre, and carries the value at its coordinates |
| Vec2DGrid.Vec2D.MooreComplete | src/lib.rs:550-584 | each of the eight neighbours that lies inside the grid is yielded |
| Vec2DGrid.Vec2D.MooreInterior | src/lib.rs:550-584 | away from the border, exactly the 8 neighbours are yielded in the order NW, N, NE, W, E, SW, S, SE |
| Vec2DGrid.Vec2D.MooreCorner | src/lib.rs:550-584 | at (0, 0) only the east, south and south-east neighbours are yielded, in that order |
| Vec2DExamples.IndexingExample | src/test.rs:41-75 | the 3 x 3 grid of 0..8 indexes as indexing_valid expects; the out-of-grid reads of get_works are shown through Get on this grid, and the panicking reads are Index's precondition |
| Vec2DExamples.RowsExample | src/test.rs:88-95 | get_row on the 3 x 2 grid of 0..5 gives its two rows, and no row 2 |
| Vec2DExamples.IterRowsExample | src/test.rs:128-136 | iter_rows on the 3 x 2 grid of 0..5 yields exactly its two rows, top to bottom |
| Vec2DExamples.IterXYExample | src/test.rs:117-126 | the 2 x 2 grid is visited as (0,0), (1,0), (0,1), (1,1) |
| Vec2DExamples.VonNeumannCenterExample | src/test.rs:146-154 | the centre of the 3 x 3 grid has its four neighbours N, W, E, S |
| Vec2DExamples.VonNeumannCornerExample | src/test.rs:156-164 | the corner of the 3 x 3 grid has only its east and south neighbours |
| Vec2DExamples.MooreCenterExample | src/test.rs:166-186 | the centre of the 3 x 3 grid has all eight neighbours, row by row |
| Vec2DExamples.MooreCornerExample | src/test.rs:188-196 | the corner of the 3 x 3 grid has three neighbours |

## Left out

- The serde derive and the `Display` messages of `Vec2DErr`: these are formatting and glue to an external library.
- Borrowing and lifetimes: `get`, `get_row` and the iterators return copies of values rather than references.
- The mutable views `get_row_mut`, `iter_xy_mut`, `iter_rows_mut`, `AsMut` and `&mut` iteration: only the write through `get_mut` and `IndexMut` is modelled, by `GetMutSet` and `IndexSet`.
- `IntoIterator` and `AsRef`: these give the buffer, which `Cells` returns.
- `TryFrom<(Vec<T>, usize)>`: it is `from_vec` on the pair, which `FromVec` models.
- The laziness of the iterators: they are modelled as the finished sequences they yield.
- Index: the panic of the `Index` operator outside the grid is a precondition, not a process abort.
- IndexSet: the panic of the `IndexMut` operator outside the grid is a precondition, not a process abort.
- CreateCoords: the divide-by-zero panic of `create_coords` with a width of 0 is a precondition, not a process abort.
- `usize` arithmetic: integers are unbounded, so the overflow of `width * height` and of `y * width + x` is not modelled.
- InBounds: it takes `int` coordinates, so the `isize` to `usize` casts of the neighbour code do not wrap.
- NewWithConstructor: the closure is a function of the call number, so a constructor whose state changes in ways other than per call is not captured.
- MapInPlace: the closure is a pure `T -> T`, so a closure that carries its own state from cell to cell is not captured.
- DrainColumns: the loop works on a copy of the buffer, which `TruncateCols` then assigns, so the in-place moves of `Vec::drain` are not modelled.

## Findings

| source | as written | input that shows it | evidently intended | confidence | as-written member | corrected member |
|---|---|---|---|---|---|---|
| src/lib.rs:251-259 | `coords` returns `(idx / width, idx % width)`, which is row then column | width 3 with 6 cells and idx 1: `coords` gives (0, 1), but `index_of(1, 0)` is 1 | `(idx % width, idx / width)`, the inverse of `index_of` as `create_coords` computes it | high, not executed | Vec2DGrid.Vec2D.Coords | Vec2DGrid.Vec2D.CoordsRowMajor |
| src/lib.rs:489-505 | `truncate_cols` accepts a width of 0 | `truncate_cols(0)` on a 3 x 2 grid returns Ok and leaves width 0 with no cells, so `height()` then divides by zero | refuse a width of 0 with `ZeroWidth`, as the constructors do | high, not executed | Vec2DGrid.Vec2D.TruncateCols | Vec2DGrid.Vec2D.TruncateColsChecked |
