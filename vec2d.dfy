/**
 * The grid itself: a rectangular grid of cells kept as one row-major buffer
 * `cells` plus a `width`. The height is never stored; it is always
 * |cells| / width. Cell (x, y) lives at index y * width + x.
 */
module Vec2DGrid {
  import opened Wrappers
  import opened RowMajor

  /** The failures reported by the grid's fallible operations. */
  datatype Vec2DErr =
    | EmptySource
    | OutOfBounds
    | WidthMismatch(given: nat, expected: nat)
    | ZeroHeight
    | ZeroWidth

  /** A cell yielded together with its coordinates, the pair ((x, y), value). */
  datatype Located<T> = Located(x: nat, y: nat, value: T)

  /** Offsets of the von Neumann neighbourhood, in the order N, W, E, S. */
  const VonNeumannOffsets: seq<(int, int)> := [(0, -1), (-1, 0), (1, 0), (0, 1)]

  /** Offsets of the Moore neighbourhood, in the order NW, N, NE, W, E, SW, S, SE (no centre). */
  const MooreOffsets: seq<(int, int)> :=
    [(-1, -1), (0, -1), (1, -1), (-1, 0), (1, 0), (-1, 1), (0, 1), (1, 1)]

  class Vec2D<T> {
    var cells: seq<T>
    var width: nat

    /** The grid invariant: a positive width and a buffer made of whole rows. */
    predicate Valid()
      reads this
    {
      width > 0 && |cells| % width == 0
    }

    /** Assembles a grid from parts already checked by the caller. */
    constructor (cells: seq<T>, width: nat)
      requires width > 0 && |cells| % width == 0
      ensures Valid() && this.cells == cells && this.width == width
    {
      this.cells := cells;
      this.width := width;
    }

    // ---------------------------------------------------------------- construction

    /** A grid of width x height copies of `value`; zero dimensions are refused, width first. */
    static method NewWithDefault(width: nat, height: nat, value: T) returns (r: Result<Vec2D<T>, Vec2DErr>)
      ensures width == 0 ==> r == Err(ZeroWidth)
      ensures width > 0 && height == 0 ==> r == Err(ZeroHeight)
      ensures width > 0 && height > 0 ==>
        && r.Ok? && fresh(r.value) && r.value.Valid()
        && r.value.width == width && r.value.Height() == height
        && |r.value.cells| == width * height
        && forall i :: 0 <= i < |r.value.cells| ==> r.value.cells[i] == value
    {
      if width == 0 {
        return Err(ZeroWidth);
      } else if height == 0 {
        return Err(ZeroHeight);
      }
      RowsOfProduct(width, height);
      var g := new Vec2D(seq(width * height, _ => value), width);
      r := Ok(g);
    }

    /** A grid filled with the element type's default value, passed in as `zero`. */
    static method New(width: nat, height: nat, zero: T) returns (r: Result<Vec2D<T>, Vec2DErr>)
      ensures width == 0 ==> r == Err(ZeroWidth)
      ensures width > 0 && height == 0 ==> r == Err(ZeroHeight)
      ensures width > 0 && height > 0 ==>
        && r.Ok? && fresh(r.value) && r.value.Valid()
        && r.value.width == width && r.value.Height() == height
        && |r.value.cells| == width * height
        && forall i :: 0 <= i < |r.value.cells| ==> r.value.cells[i] == zero
    {
      r := NewWithDefault(width, height, zero);
    }

    /**
     * A grid whose cells come from calling a factory once per cell in
     * row-major order; the k-th call (counting from 0) yields factory(k).
     */
    static method NewWithConstructor(width: nat, height: nat, factory: nat -> T)
      returns (r: Result<Vec2D<T>, Vec2DErr>)
      ensures width == 0 ==> r == Err(ZeroWidth)
      ensures width > 0 && height == 0 ==> r == Err(ZeroHeight)
      ensures width > 0 && height > 0 ==>
        && r.Ok? && fresh(r.value) && r.value.Valid()
        && r.value.width == width && r.value.Height() == height
        && |r.value.cells| == width * height
        && forall i :: 0 <= i < |r.value.cells| ==> r.value.cells[i] == factory(i)
    {
      if width == 0 {
        return Err(ZeroWidth);
      } else if height == 0 {
        return Err(ZeroHeight);
      }
      var cells: seq<T> := [];
      for i := 0 to width * height
        invariant |cells| == i
        invariant forall k :: 0 <= k < i ==> cells[k] == factory(k)
      {
        cells := cells + [factory(i)];
      }
      RowsOfProduct(width, height);
      var g := new Vec2D(cells, width);
      r := Ok(g);
    }

    /**
     * Wraps an existing buffer. Checks, in this order: a zero width, an
     * empty buffer, a length that is not a multiple of the width.
     */
    static method FromVec(v: seq<T>, width: nat) returns (r: Result<Vec2D<T>, Vec2DErr>)
      ensures width == 0 ==> r == Err(ZeroWidth)
      ensures width > 0 && |v| == 0 ==> r == Err(EmptySource)
      ensures width > 0 && |v| > 0 && |v| % width != 0 ==> r == Err(WidthMismatch(|v|, width))
      ensures width > 0 && |v| > 0 && |v| % width == 0 ==>
        && r.Ok? && fresh(r.value) && r.value.Valid()
        && r.value.cells == v && r.value.width == width
        && r.value.Height() * width == |v|
    {
      if width == 0 {
        return Err(ZeroWidth);
      } else if |v| == 0 {
        return Err(EmptySource);
      }
      if |v| % width != 0 {
        return Err(WidthMismatch(|v|, width));
      }
      var g := new Vec2D(v, width);
      r := Ok(g);
    }

    // ---------------------------------------------------------------- accessors

    /** The whole buffer in row-major order: exactly width * height cells. */
    function Cells(): (c: seq<T>)
      reads this
      requires Valid()
      ensures |c| == Height() * Width()
    {
      cells
    }

    /** The width of the grid, which is never zero. */
    function Width(): (w: nat)
      reads this
      requires Valid()
      ensures w > 0 && |cells| % w == 0
    {
      width
    }

    /** The number of rows, derived from the buffer length. */
    function Height(): (h: nat)
      reads this
      requires Valid()
      ensures h * width == |cells|
    {
      |cells| / width
    }

    /** The index of (x, y), present exactly when the cell lies inside the grid. */
    function IndexOf(x: nat, y: nat): (r: Option<nat>)
      reads this
      requires Valid()
      ensures r.Some? <==> x < width && y < Height()
      ensures r.Some? ==> r.value < |cells|
    {
      if x < width && y < Height() then
        CellInside(x, y, width, Height());
        Some(y * width + x)
      else
        None
    }

    /**
     * The coordinates of an index as the library computes them:
     * (idx / width, idx % width), kept when the first is below the width
     * and the second below the height. This is create_coords with its
     * two components exchanged.
     */
    function Coords(idx: nat): (r: Option<(nat, nat)>)
      reads this
      requires Valid()
      ensures r.Some? <==> idx / width < width && idx % width < Height()
      ensures r.Some? ==> r.value == (CreateCoords(idx, width).1, CreateCoords(idx, width).0)
    {
      var (x, y) := (idx / width, idx % width);
      if x < width && y < Height() then Some((x, y)) else None
    }

    /** create_coords decodes the index IndexOf gives a cell back into that cell. */
    lemma IndexOfDecodes(x: nat, y: nat)
      requires Valid() && x < width && y < Height()
      ensures CreateCoords(IndexOf(x, y).value, width) == (x, y)
    {
      CoordsOfIndex(x, y, width);
    }

    /** Coords does not invert IndexOf: on a cell off the diagonal it answers the mirrored cell or nothing. */
    lemma CoordsOfIndexOf(x: nat, y: nat)
      requires Valid() && x < width && y < Height()
      ensures Coords(IndexOf(x, y).value) == if y < width && x < Height() then Some((y, x)) else None
      ensures Coords(IndexOf(x, y).value) == Some((x, y)) <==> x == y
    {
      CoordsOfIndex(x, y, width);
    }

    /** The row-major inverse of IndexOf: (idx % width, idx / width) for an index inside the buffer. */
    function CoordsRowMajor(idx: nat): (r: Option<(nat, nat)>)
      reads this
      requires Valid()
      ensures r.Some? <==> idx < |cells|
      ensures r.Some? ==> IndexOf(r.value.0, r.value.1) == Some(idx)
    {
      IndexInsideIff(idx, width, Height());
      IndexOfCoords(idx, width);
      var (x, y) := (idx % width, idx / width);
      if x < width && y < Height() then Some((x, y)) else None
    }

    /** CoordsRowMajor undoes IndexOf on every cell of the grid. */
    lemma CoordsRowMajorOfIndexOf(x: nat, y: nat)
      requires Valid() && x < width && y < Height()
      ensures CoordsRowMajor(IndexOf(x, y).value) == Some((x, y))
    {
      CoordsOfIndex(x, y, width);
    }

    /** The cell at (x, y), present exactly when IndexOf finds it. */
    function Get(x: nat, y: nat): (r: Option<T>)
      reads this
      requires Valid()
      ensures r.Some? <==> IndexOf(x, y).Some?
      ensures r.Some? ==> r.value == cells[IndexOf(x, y).value]
    {
      if x >= width || y >= Height() then
        None
      else
        CellInside(x, y, width, Height());
        Lookup(cells, y * width + x)
    }

    /** The read form of grid[(x, y)]; out of range it aborts, so it is only defined inside the grid. */
    function Index(x: nat, y: nat): (v: T)
      reads this
      requires Valid() && x < width && y < Height()
      ensures Get(x, y) == Some(v)
    {
      CellInside(x, y, width, Height());
      cells[y * width + x]
    }

    /** Row y as a slice of exactly width cells, present exactly when y is below the height. */
    function GetRow(y: nat): (r: Option<seq<T>>)
      reads this
      requires Valid()
      ensures r.Some? <==> y < Height()
      ensures r.Some? ==> |r.value| == width && forall x :: 0 <= x < width ==> Get(x, y) == Some(r.value[x])
    {
      if y >= |cells| / width then
        None
      else
        RowInside(y, width, Height());
        Some(cells[y * width .. (y + 1) * width])
    }

    /** Row y of the grid is the y-th chunk of its buffer. */
    lemma RowIsChunk(y: nat)
      requires Valid() && y < Height()
      ensures |Chunks(cells, width)| == Height()
      ensures GetRow(y) == Some(Chunks(cells, width)[y])
    {
      ChunksRow(cells, width, y);
    }

    /** Every cell with its coordinates, in row-major order. */
    function IterXY(): (r: seq<Located<T>>)
      reads this
      requires Valid()
      ensures |r| == |cells|
      ensures forall i :: 0 <= i < |r| ==> IndexOf(r[i].x, r[i].y) == Some(i) && r[i].value == cells[i]
    {
      IndicesDecode();
      var c, w := cells, width;
      seq(|c|, i requires 0 <= i < |c| => Located(CreateCoords(i, w).0, CreateCoords(i, w).1, c[i]))
    }

    /** Every index of the buffer decodes to the cell IndexOf maps back to it. */
    lemma IndicesDecode()
      requires Valid()
      ensures forall i :: 0 <= i < |cells| ==>
        IndexOf(CreateCoords(i, width).0, CreateCoords(i, width).1) == Some(i)
    {
      forall i | 0 <= i < |cells|
        ensures IndexOf(CreateCoords(i, width).0, CreateCoords(i, width).1) == Some(i)
      {
        RowOfIndex(i, width, Height());
        IndexOfCoords(i, width);
      }
    }

    /** The rows of the grid, top to bottom; laid end to end they are the buffer. */
    function IterRows(): (r: seq<seq<T>>)
      reads this
      requires Valid()
      ensures |r| == Height()
      ensures forall y :: 0 <= y < |r| ==> GetRow(y) == Some(r[y])
      ensures Concat(r) == cells
    {
      ConcatChunks(cells, width);
      forall y | 0 <= y < Height() ensures GetRow(y) == Some(Chunks(cells, width)[y]) {
        RowIsChunk(y);
      }
      Chunks(cells, width)
    }

    // ---------------------------------------------------------------- cell writes

    /** The write form of grid[(x, y)] = v: only cell (x, y) changes. */
    method IndexSet(x: nat, y: nat, v: T)
      requires Valid() && x < width && y < Height()
      modifies this
      ensures Valid() && width == old(width) && |cells| == |old(cells)|
      ensures cells == old(cells)[old(IndexOf(x, y)).value := v]
      ensures Get(x, y) == Some(v)
      ensures forall x', y' :: x' != x || y' != y ==> Get(x', y') == old(Get(x', y'))
    {
      CellInside(x, y, width, Height());
      cells := cells[y * width + x := v];
      forall x': nat, y': nat | x' != x || y' != y
        ensures Get(x', y') == old(Get(x', y'))
      {
        if x' < width && y' < Height() {
          DistinctIndices(x, y, x', y', width);
        }
      }
    }

    /** get_mut(x, y) followed by a write: writes and answers true inside the grid, answers false outside. */
    method GetMutSet(x: nat, y: nat, v: T) returns (found: bool)
      requires Valid()
      modifies this
      ensures Valid() && width == old(width) && |cells| == |old(cells)|
      ensures found <==> old(IndexOf(x, y)).Some?
      ensures found ==> Get(x, y) == Some(v)
      ensures !found ==> cells == old(cells)
      ensures forall x', y' :: x' != x || y' != y ==> Get(x', y') == old(Get(x', y'))
    {
      found := x < width && y < Height();
      if found {
        IndexSet(x, y, v);
      }
    }

    /** Applies f to every cell, in row-major order, in place. */
    method MapInPlace(f: T -> T)
      requires Valid()
      modifies this
      ensures Valid() && width == old(width) && |cells| == |old(cells)|
      ensures forall i :: 0 <= i < |cells| ==> cells[i] == f(old(cells)[i])
    {
      for i := 0 to |cells|
        invariant width == old(width) && |cells| == |old(cells)|
        invariant forall k :: 0 <= k < i ==> cells[k] == f(old(cells)[k])
        invariant forall k :: i <= k < |cells| ==> cells[k] == old(cells)[k]
      {
        cells := cells[i := f(cells[i])];
      }
    }

    // ---------------------------------------------------------------- row edits

    /** Appends one or more whole rows at the bottom; a partial row is refused and nothing changes. */
    method Extend(row: seq<T>) returns (r: Result<(), Vec2DErr>)
      requires Valid()
      modifies this
      ensures Valid() && width == old(width)
      ensures |row| % width != 0 ==> r == Err(WidthMismatch(|row|, width)) && cells == old(cells)
      ensures |row| % width == 0 ==>
        && r == Ok(()) && cells == old(cells) + row && Height() == old(Height()) + |row| / width
        && IterRows() == old(IterRows()) + Chunks(row, width)
    {
      if |row| % width != 0 {
        return Err(WidthMismatch(|row|, width));
      }
      AppendRows(|cells|, |row|, width);
      ChunksAppend(cells, row, width);
      cells := cells + row;
      r := Ok(());
    }

    /** Extend for a borrowed row: the same effect on the grid. */
    method ExtendCloned(row: seq<T>) returns (r: Result<(), Vec2DErr>)
      requires Valid()
      modifies this
      ensures Valid() && width == old(width)
      ensures |row| % width != 0 ==> r == Err(WidthMismatch(|row|, width)) && cells == old(cells)
      ensures |row| % width == 0 ==>
        && r == Ok(()) && cells == old(cells) + row && Height() == old(Height()) + |row| / width
        && IterRows() == old(IterRows()) + Chunks(row, width)
    {
      r := Extend(row);
    }

    /**
     * Splices one or more whole rows in before row y. A row index at or past
     * the height is refused before the length is looked at.
     */
    method InsertRow(y: nat, row: seq<T>) returns (r: Result<(), Vec2DErr>)
      requires Valid()
      modifies this
      ensures Valid() && width == old(width)
      ensures y >= old(Height()) ==> r == Err(OutOfBounds) && cells == old(cells)
      ensures y < old(Height()) && |row| % width != 0 ==>
        r == Err(WidthMismatch(|row|, width)) && cells == old(cells)
      ensures y < old(Height()) && |row| % width == 0 ==>
        && r == Ok(()) && y * width <= |old(cells)|
        && cells == old(cells)[..y * width] + row + old(cells)[y * width..]
        && Height() == old(Height()) + |row| / width
        && IterRows() == old(IterRows())[..y] + Chunks(row, width) + old(IterRows())[y..]
    {
      if y >= Height() {
        return Err(OutOfBounds);
      }
      if |row| % width != 0 {
        return Err(WidthMismatch(|row|, width));
      }
      var idx := y * width;
      var spliced := cells[..idx] + row + cells[idx..];
      assert |spliced| % width == 0 && |spliced| / width == Height() + |row| / width by {
        AppendRows(|cells|, |row|, width);
      }
      assert Chunks(spliced, width) == IterRows()[..y] + Chunks(row, width) + IterRows()[y..] by {
        ChunksInsert(cells, row, y, width);
      }
      cells := spliced;
      r := Ok(());
    }

    /** InsertRow for a borrowed row: the same effect on the grid. */
    method InsertRowCloned(y: nat, row: seq<T>) returns (r: Result<(), Vec2DErr>)
      requires Valid()
      modifies this
      ensures Valid() && width == old(width)
      ensures y >= old(Height()) ==> r == Err(OutOfBounds) && cells == old(cells)
      ensures y < old(Height()) && |row| % width != 0 ==>
        r == Err(WidthMismatch(|row|, width)) && cells == old(cells)
      ensures y < old(Height()) && |row| % width == 0 ==>
        && r == Ok(()) && y * width <= |old(cells)|
        && cells == old(cells)[..y * width] + row + old(cells)[y * width..]
        && Height() == old(Height()) + |row| / width
        && IterRows() == old(IterRows())[..y] + Chunks(row, width) + old(IterRows())[y..]
    {
      r := InsertRow(y, row);
    }

    /** Takes row y out of the grid; the rows below move up by one. */
    method DiscardRow(y: nat) returns (r: Result<(), Vec2DErr>)
      requires Valid()
      modifies this
      ensures Valid() && width == old(width)
      ensures y >= old(Height()) ==> r == Err(OutOfBounds) && cells == old(cells)
      ensures y < old(Height()) ==>
        && r == Ok(()) && (y + 1) * width <= |old(cells)|
        && cells == old(cells)[..y * width] + old(cells)[(y + 1) * width..]
        && Height() == old(Height()) - 1
        && IterRows() == old(IterRows())[..y] + old(IterRows())[y + 1..]
    {
      if y >= Height() {
        return Err(OutOfBounds);
      }
      RowInside(y, width, Height());
      FirstRow(|cells|, width);
      ChunksRemove(cells, y, y * width, width);
      var start := y * width;
      var end := start + width;
      cells := cells[..start] + cells[end..];
      r := Ok(());
    }

    /** Takes row y out of the grid and hands back its cells. */
    method RemoveRow(y: nat) returns (r: Result<seq<T>, Vec2DErr>)
      requires Valid()
      modifies this
      ensures Valid() && width == old(width)
      ensures y >= old(Height()) ==> r == Err(OutOfBounds) && cells == old(cells)
      ensures y < old(Height()) ==>
        && r.Ok? && Some(r.value) == old(GetRow(y)) && |r.value| == width
        && (y + 1) * width <= |old(cells)|
        && cells == old(cells)[..y * width] + old(cells)[(y + 1) * width..]
        && Height() == old(Height()) - 1
        && IterRows() == old(IterRows())[..y] + old(IterRows())[y + 1..]
    {
      if y >= Height() {
        return Err(OutOfBounds);
      }
      RowInside(y, width, Height());
      FirstRow(|cells|, width);
      ChunksRemove(cells, y, y * width, width);
      var start := y * width;
      var end := start + width;
      var removed := cells[start..end];
      cells := cells[..start] + cells[end..];
      r := Ok(removed);
    }

    /** Keeps the first newHeight rows; asking for more rows than there are is refused. */
    method TruncateRows(newHeight: nat) returns (r: Result<(), Vec2DErr>)
      requires Valid()
      modifies this
      ensures Valid() && width == old(width)
      ensures newHeight > old(Height()) ==> r == Err(OutOfBounds) && cells == old(cells)
      ensures newHeight == old(Height()) ==> r == Ok(()) && cells == old(cells)
      ensures newHeight <= old(Height()) ==>
        && r == Ok(()) && newHeight * width <= |old(cells)|
        && cells == old(cells)[..newHeight * width] && Height() == newHeight
        && IterRows() == old(IterRows())[..newHeight]
    {
      if newHeight > Height() {
        return Err(OutOfBounds);
      } else if newHeight == Height() {
        return Ok(());
      }
      MulMono(newHeight, Height(), width);
      RowsOfProduct(width, newHeight);
      ChunksSplit(cells, newHeight, width);
      var start := newHeight * width;
      cells := cells[..start];
      r := Ok(());
    }

    /**
     * Keeps the first newWidth cells of every row, visiting the rows from the
     * last to the first so that the offsets still to be visited do not move.
     * A width of zero is accepted and leaves a grid of width zero, which
     * breaks the grid invariant (see TruncateColsChecked).
     */
    method TruncateCols(newWidth: nat) returns (r: Result<(), Vec2DErr>)
      requires Valid()
      modifies this
      ensures newWidth > old(width) ==>
        r == Err(WidthMismatch(newWidth, old(width))) && cells == old(cells) && width == old(width)
      ensures newWidth == old(width) ==> r == Ok(()) && cells == old(cells) && width == old(width)
      ensures newWidth <= old(width) ==>
        && r == Ok(()) && width == newWidth
        && cells == Concat(TakeEach(Chunks(old(cells), old(width)), newWidth))
      ensures newWidth > 0 ==> Valid() && Height() == old(Height())
      ensures 0 < newWidth <= old(width) ==> IterRows() == TakeEach(old(IterRows()), newWidth)
      ensures newWidth == 0 ==> cells == [] && width == 0 && !Valid()
    {
      var w := width;
      if newWidth > w {
        return Err(WidthMismatch(newWidth, w));
      } else if newWidth == w {
        assert TakeEach(Chunks(cells, w), w) == Chunks(cells, w) by {
          TakeAllOfEach(Chunks(cells, w), w);
        }
        ConcatChunks(cells, w);
        return Ok(());
      }
      cells := DrainColumns(cells, w, newWidth);
      width := newWidth;
      r := Ok(());
      TruncatedGrid(old(cells), w, newWidth);
    }

    /**
     * The loop of TruncateCols on the buffer s of width w: from the last row
     * to the first, the cells of the row past column n are drained.
     */
    static method DrainColumns(s: seq<T>, w: nat, n: nat) returns (c: seq<T>)
      requires w > 0 && |s| % w == 0 && n < w
      ensures c == Concat(TakeEach(Chunks(s, w), n))
    {
      ghost var rows := Chunks(s, w);
      c := s;
      var h := |s| / w;
      var row := h;
      while row > 0
        invariant 0 <= row <= h == |rows|
        invariant row * w <= |s|
        invariant c == s[..row * w] + Concat(TakeEach(rows[row..], n))
      {
        row := row - 1;
        var start := row * w + n;
        var end := row * w + w;
        assert 0 <= row * w && end == (row + 1) * w <= |s| && rows[row] == s[row * w .. end] by {
          MulMono(0, row, w);
          RowBounds(|s|, row, w);
          ChunksRow(s, w, row);
        }
        TruncateStep(s, w, n, rows, row, row * w, c);
        c := c[..start] + c[end..];
      }
      assert row == 0 && s[..row * w] == [] && rows[row..] == rows;
    }

    /** Cutting every row of a buffer of width w to n cells leaves a buffer of width n with as many rows. */
    static lemma TruncatedGrid(s: seq<T>, w: nat, n: nat)
      requires w > 0 && |s| % w == 0 && n <= w
      ensures n == 0 ==> Concat(TakeEach(Chunks(s, w), n)) == []
      ensures n > 0 ==>
        && |Concat(TakeEach(Chunks(s, w), n))| % n == 0
        && |Concat(TakeEach(Chunks(s, w), n))| / n == |s| / w
        && Chunks(Concat(TakeEach(Chunks(s, w), n)), n) == TakeEach(Chunks(s, w), n)
    {
      var kept := TakeEach(Chunks(s, w), n);
      ConcatLength(kept, n);
      if n > 0 {
        ChunksConcat(kept, n);
      }
    }

    /** One pass of the TruncateCols loop: cutting the row that starts at `a` to n cells extends the finished part by that row. */
    static lemma TruncateStep(s: seq<T>, w: nat, n: nat, rows: seq<seq<T>>, row: nat, a: nat, cur: seq<T>)
      requires n < w && row < |rows|
      requires forall i :: 0 <= i < |rows| ==> |rows[i]| == w
      requires a + w <= |s| && rows[row] == s[a .. a + w]
      requires cur == s[..a + w] + Concat(TakeEach(rows[row + 1..], n))
      ensures cur[..a + n] + cur[a + w..] == s[..a] + Concat(TakeEach(rows[row..], n))
    {
      var tail := Concat(TakeEach(rows[row + 1..], n));
      assert TakeEach(rows[row..], n) == [rows[row][..n]] + TakeEach(rows[row + 1..], n);
      assert Concat(TakeEach(rows[row..], n)) == rows[row][..n] + tail;
      var head := s[..a + w];
      assert cur[a + w..] == tail;
      assert cur[..a + n] == head[..a + n] == s[..a + n];
      assert s[..a + n] == s[..a] + s[a .. a + n];
      assert rows[row][..n] == s[a .. a + n];
    }

    /** Taking all w cells of rows of length w keeps every row. */
    static lemma TakeAllOfEach(rows: seq<seq<T>>, w: nat)
      requires forall i :: 0 <= i < |rows| ==> |rows[i]| == w
      ensures TakeEach(rows, w) == rows
    {
      assert forall i :: 0 <= i < |rows| ==> rows[i][..w] == rows[i];
    }

    /** TruncateCols with a zero width refused, so the grid invariant always survives. */
    method TruncateColsChecked(newWidth: nat) returns (r: Result<(), Vec2DErr>)
      requires Valid()
      modifies this
      ensures Valid()
      ensures newWidth == 0 ==> r == Err(ZeroWidth) && cells == old(cells) && width == old(width)
      ensures newWidth > old(width) ==>
        r == Err(WidthMismatch(newWidth, old(width))) && cells == old(cells) && width == old(width)
      ensures 0 < newWidth <= old(width) ==>
        && r == Ok(()) && width == newWidth && Height() == old(Height())
        && cells == Concat(TakeEach(Chunks(old(cells), old(width)), newWidth))
        && IterRows() == TakeEach(old(IterRows()), newWidth)
    {
      if newWidth == 0 {
        return Err(ZeroWidth);
      }
      r := TruncateCols(newWidth);
    }

    // ---------------------------------------------------------------- neighbourhoods

    /** Whether signed coordinates name a cell of the grid. */
    function InBounds(x: int, y: int): (b: bool)
      reads this
      requires Valid()
      ensures b <==> x >= 0 && y >= 0 && IndexOf(x as nat, y as nat).Some?
    {
      x >= 0 && y >= 0 && x < width && y < Height()
    }

    /**
     * The cells reached from (x, y) by offsets[k..], in the order of the
     * table, skipping the ones outside the grid.
     */
    function NeighborsFrom(x: nat, y: nat, offsets: seq<(int, int)>, k: nat): (r: seq<Located<T>>)
      reads this
      requires Valid() && k <= |offsets|
      ensures |r| <= |offsets| - k
      ensures forall i :: 0 <= i < |r| ==> Get(r[i].x, r[i].y) == Some(r[i].value)
      decreases |offsets| - k
    {
      if k == |offsets| then
        []
      else
        var nx, ny := x + offsets[k].0, y + offsets[k].1;
        var rest := NeighborsFrom(x, y, offsets, k + 1);
        if InBounds(nx, ny) then [Located(nx, ny, Index(nx, ny))] + rest else rest
    }

    /** The positions in the offset table, from k on, whose target lies inside the grid. */
    ghost function KeptFrom(x: nat, y: nat, offsets: seq<(int, int)>, k: nat): (kept: seq<nat>)
      reads this
      requires Valid() && k <= |offsets|
      ensures forall i :: 0 <= i < |kept| ==> k <= kept[i] < |offsets|
      decreases |offsets| - k
    {
      if k == |offsets| then
        []
      else
        var rest := KeptFrom(x, y, offsets, k + 1);
        if InBounds(x + offsets[k].0, y + offsets[k].1) then [k] + rest else rest
    }

    /**
     * The kept positions of the table increase, and a position is kept
     * exactly when its target is inside.
     */
    lemma {:induction false} KeptFromExact(x: nat, y: nat, offsets: seq<(int, int)>, k: nat)
      requires Valid() && k <= |offsets|
      ensures forall i, j :: 0 <= i < j < |KeptFrom(x, y, offsets, k)| ==>
        KeptFrom(x, y, offsets, k)[i] < KeptFrom(x, y, offsets, k)[j]
      ensures forall j :: k <= j < |offsets| ==>
        (InBounds(x + offsets[j].0, y + offsets[j].1) <==> j in KeptFrom(x, y, offsets, k))
      decreases |offsets| - k
    {
      if k < |offsets| {
        KeptFromExact(x, y, offsets, k + 1);
      }
    }

    /** Entry i of NeighborsFrom is the target of table position KeptFrom[i]. */
    lemma {:induction false} NeighborsFromKept(x: nat, y: nat, offsets: seq<(int, int)>, k: nat)
      requires Valid() && k <= |offsets|
      ensures |KeptFrom(x, y, offsets, k)| == |NeighborsFrom(x, y, offsets, k)|
      ensures forall i :: 0 <= i < |KeptFrom(x, y, offsets, k)| ==>
        && NeighborsFrom(x, y, offsets, k)[i].x == x + offsets[KeptFrom(x, y, offsets, k)[i]].0
        && NeighborsFrom(x, y, offsets, k)[i].y == y + offsets[KeptFrom(x, y, offsets, k)[i]].1
      decreases |offsets| - k
    {
      if k < |offsets| {
        NeighborsFromKept(x, y, offsets, k + 1);
        var kept, rest := KeptFrom(x, y, offsets, k), KeptFrom(x, y, offsets, k + 1);
        var r, tail := NeighborsFrom(x, y, offsets, k), NeighborsFrom(x, y, offsets, k + 1);
        var nx, ny := x + offsets[k].0, y + offsets[k].1;
        if InBounds(nx, ny) {
          assert kept == [k] + rest;
          assert r == [Located(nx, ny, Index(nx, ny))] + tail;
        } else {
          assert kept == rest && r == tail;
        }
      }
    }

    /** The 4-connected neighbours of (x, y) inside the grid, in the order N, W, E, S. */
    function NeighborsVonNeumann(x: nat, y: nat): (r: seq<Located<T>>)
      reads this
      requires Valid()
      ensures |r| <= 4
      ensures forall i :: 0 <= i < |r| ==> Get(r[i].x, r[i].y) == Some(r[i].value)
      ensures forall i :: 0 <= i < |r| ==>
        || (r[i].x == x && (r[i].y + 1 == y || r[i].y == y + 1))
        || (r[i].y == y && (r[i].x + 1 == x || r[i].x == x + 1))
    {
      NeighborsFromKept(x, y, VonNeumannOffsets, 0);
      NeighborsFrom(x, y, VonNeumannOffsets, 0)
    }

    /** The 8-connected neighbours of (x, y) inside the grid, in the order NW, N, NE, W, E, SW, S, SE. */
    function NeighborsMoore(x: nat, y: nat): (r: seq<Located<T>>)
      reads this
      requires Valid()
      ensures |r| <= 8
      ensures forall i :: 0 <= i < |r| ==> Get(r[i].x, r[i].y) == Some(r[i].value)
      ensures forall i :: 0 <= i < |r| ==>
        && r[i].x <= x + 1 && x <= r[i].x + 1 && r[i].y <= y + 1 && y <= r[i].y + 1
        && (r[i].x != x || r[i].y != y)
    {
      NeighborsFromKept(x, y, MooreOffsets, 0);
      NeighborsFrom(x, y, MooreOffsets, 0)
    }

    /** Every table position whose target lies inside the grid is yielded, at some entry i. */
    lemma NeighborsFromComplete(x: nat, y: nat, offsets: seq<(int, int)>, j: nat) returns (i: nat)
      requires Valid() && j < |offsets| && InBounds(x + offsets[j].0, y + offsets[j].1)
      ensures i < |NeighborsFrom(x, y, offsets, 0)|
      ensures NeighborsFrom(x, y, offsets, 0)[i].x == x + offsets[j].0
      ensures NeighborsFrom(x, y, offsets, 0)[i].y == y + offsets[j].1
    {
      KeptFromExact(x, y, offsets, 0);
      NeighborsFromKept(x, y, offsets, 0);
      var kept := KeptFrom(x, y, offsets, 0);
      i :| 0 <= i < |kept| && kept[i] == j;
    }

    /** Each of the four neighbours of (x, y) that lies inside the grid is yielded. */
    lemma VonNeumannComplete(x: nat, y: nat, j: nat)
      requires Valid() && j < 4 && InBounds(x + VonNeumannOffsets[j].0, y + VonNeumannOffsets[j].1)
      ensures exists i :: (0 <= i < |NeighborsVonNeumann(x, y)|
        && NeighborsVonNeumann(x, y)[i].x == x + VonNeumannOffsets[j].0
        && NeighborsVonNeumann(x, y)[i].y == y + VonNeumannOffsets[j].1)
    {
      var i := NeighborsFromComplete(x, y, VonNeumannOffsets, j);
      assert NeighborsVonNeumann(x, y)[i] == NeighborsFrom(x, y, VonNeumannOffsets, 0)[i];
    }

    /** Each of the eight neighbours of (x, y) that lies inside the grid is yielded. */
    lemma MooreComplete(x: nat, y: nat, j: nat)
      requires Valid() && j < 8 && InBounds(x + MooreOffsets[j].0, y + MooreOffsets[j].1)
      ensures exists i :: (0 <= i < |NeighborsMoore(x, y)|
        && NeighborsMoore(x, y)[i].x == x + MooreOffsets[j].0
        && NeighborsMoore(x, y)[i].y == y + MooreOffsets[j].1)
    {
      var i := NeighborsFromComplete(x, y, MooreOffsets, j);
      assert NeighborsMoore(x, y)[i] == NeighborsFrom(x, y, MooreOffsets, 0)[i];
    }

    /** When every target of offsets[k..] lies inside the grid, NeighborsFrom yields all of them, in table order. */
    lemma {:induction false} NeighborsFromAllInside(x: nat, y: nat, offsets: seq<(int, int)>, k: nat)
      requires Valid() && k <= |offsets|
      requires forall j :: k <= j < |offsets| ==> InBounds(x + offsets[j].0, y + offsets[j].1)
      ensures |NeighborsFrom(x, y, offsets, k)| == |offsets| - k
      ensures forall i :: 0 <= i < |offsets| - k ==>
        && NeighborsFrom(x, y, offsets, k)[i].x == x + offsets[k + i].0
        && NeighborsFrom(x, y, offsets, k)[i].y == y + offsets[k + i].1
      decreases |offsets| - k
    {
      if k < |offsets| {
        NeighborsFromAllInside(x, y, offsets, k + 1);
      }
    }

    /** Away from the border all four neighbours are yielded, in the order N, W, E, S. */
    lemma VonNeumannInterior(x: nat, y: nat)
      requires Valid() && 0 < x < width - 1 && 0 < y < Height() - 1
      ensures |NeighborsVonNeumann(x, y)| == 4
      ensures forall i :: 0 <= i < 4 ==>
        && NeighborsVonNeumann(x, y)[i].x == x + VonNeumannOffsets[i].0
        && NeighborsVonNeumann(x, y)[i].y == y + VonNeumannOffsets[i].1
    {
      NeighborsFromAllInside(x, y, VonNeumannOffsets, 0);
    }

    /** Away from the border all eight neighbours are yielded, in the order NW, N, NE, W, E, SW, S, SE. */
    lemma MooreInterior(x: nat, y: nat)
      requires Valid() && 0 < x < width - 1 && 0 < y < Height() - 1
      ensures |NeighborsMoore(x, y)| == 8
      ensures forall i :: 0 <= i < 8 ==>
        && NeighborsMoore(x, y)[i].x == x + MooreOffsets[i].0
        && NeighborsMoore(x, y)[i].y == y + MooreOffsets[i].1
    {
      NeighborsFromAllInside(x, y, MooreOffsets, 0);
    }

    /** At the top-left corner only the east and south neighbours exist. */
    lemma VonNeumannCorner()
      requires Valid() && width >= 2 && Height() >= 2
      ensures NeighborsVonNeumann(0, 0) == [Located(1, 0, Index(1, 0)), Located(0, 1, Index(0, 1))]
    {
      var offs := VonNeumannOffsets;
      assert NeighborsFrom(0, 0, offs, 4) == [];
      assert NeighborsFrom(0, 0, offs, 3) == [Located(0, 1, Index(0, 1))];
      assert NeighborsFrom(0, 0, offs, 2) == [Located(1, 0, Index(1, 0))] + NeighborsFrom(0, 0, offs, 3);
      assert NeighborsFrom(0, 0, offs, 1) == NeighborsFrom(0, 0, offs, 2);
    }

    /** At the top-left corner only the east, south and south-east neighbours exist. */
    lemma MooreCorner()
      requires Valid() && width >= 2 && Height() >= 2
      ensures NeighborsMoore(0, 0) ==
        [Located(1, 0, Index(1, 0)), Located(0, 1, Index(0, 1)), Located(1, 1, Index(1, 1))]
    {
      var offs := MooreOffsets;
      assert NeighborsFrom(0, 0, offs, 8) == [];
      assert NeighborsFrom(0, 0, offs, 7) == [Located(1, 1, Index(1, 1))];
      assert NeighborsFrom(0, 0, offs, 6) == [Located(0, 1, Index(0, 1))] + NeighborsFrom(0, 0, offs, 7);
      assert NeighborsFrom(0, 0, offs, 5) == NeighborsFrom(0, 0, offs, 6);
      assert NeighborsFrom(0, 0, offs, 4) == [Located(1, 0, Index(1, 0))] + NeighborsFrom(0, 0, offs, 5);
      assert NeighborsFrom(0, 0, offs, 3) == NeighborsFrom(0, 0, offs, 4);
      assert NeighborsFrom(0, 0, offs, 2) == NeighborsFrom(0, 0, offs, 3);
      assert NeighborsFrom(0, 0, offs, 1) == NeighborsFrom(0, 0, offs, 2);
    }
  }
}
