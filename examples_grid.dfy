/**
 * Concrete grids from the library's unit tests, a few examples of our own
 * (the error cases of extend and insert_row, remove_row, the round trip
 * through the raw buffer), and the two places where the library departs
 * from its addressing and from its width invariant.
 */
module Vec2DExamples {
  import opened Wrappers
  import opened RowMajor
  import opened Vec2DGrid

  /**
   * Turning a grid into its buffer and back through FromVec with the same
   * width gives an equal grid, except for a grid whose rows were all removed:
   * FromVec refuses its empty buffer.
   */
  method IntoCellsRoundTrip<T>(g: Vec2D<T>) returns (r: Result<Vec2D<T>, Vec2DErr>)
    requires g.Valid()
    ensures g.Height() > 0 ==> r.Ok? && r.value.cells == g.cells && r.value.width == g.width
    ensures g.Height() == 0 ==> r == Err(EmptySource)
  {
    r := Vec2D.FromVec(g.Cells(), g.Width());
  }

  /** New(4, 3) gives a 4 x 3 grid of 12 cells; a zero width or height is refused. */
  method NewExamples()
  {
    var made := Vec2D.New(4, 3, 0);
    assert made.Ok?;
    var g := made.value;
    assert g.Width() == 4 && g.Height() == 3 && |g.Cells()| == 12;
    var zero := Vec2D.New(0, 5, 0);
    assert zero == Err(ZeroWidth);
    var flat := Vec2D.New(5, 0, 0);
    assert flat == Err(ZeroHeight);
  }

  /** FromVec on 5 cells of width 3 is refused; on 6 cells it gives a 3 x 2 grid. */
  method FromVecExamples()
  {
    var bad := Vec2D.FromVec([1, 2, 3, 4, 5], 3);
    assert bad == Err(WidthMismatch(5, 3));
    var good := Vec2D.FromVec([1, 2, 3, 4, 5, 6], 3);
    assert good.Ok? && good.value.cells == [1, 2, 3, 4, 5, 6];
    assert good.value.Width() == 3 && good.value.Height() == 2;
  }

  /** The 3 x 3 grid holding 0..8: direct indexing, and Get outside the grid. */
  lemma IndexingExample(g: Vec2D<int>)
    requires g.width == 3 && g.cells == [0, 1, 2, 3, 4, 5, 6, 7, 8]
    ensures g.Valid() && g.Height() == 3
    ensures g.Index(0, 0) == 0 && g.Index(1, 0) == 1 && g.Index(2, 1) == 5 && g.Index(2, 2) == 8
    ensures g.Get(3, 0) == None && g.Get(0, 3) == None && g.Get(3, 3) == None
  {
  }

  /** The 3 x 2 grid holding 0..5: its rows, and no row 2. */
  lemma RowsExample(g: Vec2D<int>)
    requires g.width == 3 && g.cells == [0, 1, 2, 3, 4, 5]
    ensures g.Valid()
    ensures g.GetRow(0) == Some([0, 1, 2]) && g.GetRow(1) == Some([3, 4, 5]) && g.GetRow(2) == None
  {
    assert g.GetRow(0).value == [0, 1, 2];
    assert g.GetRow(1).value == [3, 4, 5];
  }

  /** The 3 x 2 grid holding 0..5 yields its two rows, top to bottom. */
  lemma IterRowsExample(g: Vec2D<int>)
    requires g.width == 3 && g.cells == [0, 1, 2, 3, 4, 5]
    ensures g.Valid()
    ensures g.IterRows() == [[0, 1, 2], [3, 4, 5]]
  {
    RowsExample(g);
    assert g.IterRows()[0] == [0, 1, 2];
    assert g.IterRows()[1] == [3, 4, 5];
  }

  /** The 2 x 2 grid holding 0..3 is visited as (0,0), (1,0), (0,1), (1,1). */
  lemma IterXYExample(g: Vec2D<int>)
    requires g.width == 2 && g.cells == [0, 1, 2, 3]
    ensures g.Valid()
    ensures g.IterXY() == [Located(0, 0, 0), Located(1, 0, 1), Located(0, 1, 2), Located(1, 1, 3)]
  {
  }

  /** The coordinates of yielded cells, dropping the values. */
  function Positions<T>(r: seq<Located<T>>): (p: seq<(nat, nat)>)
    ensures |p| == |r| && forall i :: 0 <= i < |r| ==> p[i] == (r[i].x, r[i].y)
  {
    seq(|r|, i requires 0 <= i < |r| => (r[i].x, r[i].y))
  }

  /** The centre of the 3 x 3 grid holding 0..8 has its four von Neumann neighbours, N, W, E, S. */
  lemma VonNeumannCenterExample(g: Vec2D<int>)
    requires g.width == 3 && g.cells == [0, 1, 2, 3, 4, 5, 6, 7, 8]
    ensures g.Valid()
    ensures Positions(g.NeighborsVonNeumann(1, 1)) == [(1, 0), (0, 1), (2, 1), (1, 2)]
  {
    g.VonNeumannInterior(1, 1);
  }

  /** The top-left corner of the 3 x 3 grid holding 0..8 has only its east and south neighbours. */
  lemma VonNeumannCornerExample(g: Vec2D<int>)
    requires g.width == 3 && g.cells == [0, 1, 2, 3, 4, 5, 6, 7, 8]
    ensures g.Valid()
    ensures g.NeighborsVonNeumann(0, 0) == [Located(1, 0, 1), Located(0, 1, 3)]
  {
    g.VonNeumannCorner();
  }

  /** The centre of the 3 x 3 grid holding 0..8 has all eight Moore neighbours, row by row. */
  lemma MooreCenterExample(g: Vec2D<int>)
    requires g.width == 3 && g.cells == [0, 1, 2, 3, 4, 5, 6, 7, 8]
    ensures g.Valid()
    ensures Positions(g.NeighborsMoore(1, 1)) ==
      [(0, 0), (1, 0), (2, 0), (0, 1), (2, 1), (0, 2), (1, 2), (2, 2)]
  {
    g.MooreInterior(1, 1);
  }

  /** The top-left corner of the 3 x 3 grid holding 0..8 has three Moore neighbours. */
  lemma MooreCornerExample(g: Vec2D<int>)
    requires g.width == 3 && g.cells == [0, 1, 2, 3, 4, 5, 6, 7, 8]
    ensures g.Valid()
    ensures g.NeighborsMoore(0, 0) == [Located(1, 0, 1), Located(0, 1, 3), Located(1, 1, 4)]
  {
    g.MooreCorner();
  }

  /**
   * Reading a 3 x 3 grid of ones, inside and outside the grid, then writing
   * 42 through get_mut at (0, 0); (3, 0) is not found.
   */
  method GetMutExample()
  {
    var made := Vec2D.NewWithDefault(3, 3, 1);
    var g := made.value;
    assert g.Get(0, 0) == Some(1);
    assert g.Get(3, 0) == None && g.Get(0, 3) == None && g.Get(3, 3) == None;
    var found := g.GetMutSet(0, 0, 42);
    assert found && g.Get(0, 0) == Some(42);
    found := g.GetMutSet(3, 0, 7);
    assert !found;
  }

  /** Doubling every cell of a 2 x 2 grid of ones. */
  method MapInPlaceExample()
  {
    var made := Vec2D.NewWithDefault(2, 2, 1);
    var g := made.value;
    g.MapInPlace(v => v * 2);
    assert g.cells == [2, 2, 2, 2];
  }

  /** Extending the 3 x 2 grid holding 0..5 by the row [6, 7, 8]. */
  method ExtendExample()
  {
    var made := Vec2D.FromVec([0, 1, 2, 3, 4, 5], 3);
    var g := made.value;
    var r := g.Extend([6, 7, 8]);
    assert r == Ok(()) && g.cells == [0, 1, 2, 3, 4, 5, 6, 7, 8];
    r := g.Extend([9, 10]);
    assert r == Err(WidthMismatch(2, 3));
  }

  /** Inserting the row [3, 4, 5] before row 1 of [0, 1, 2, 6, 7, 8]; row 2 is past the end. */
  method InsertRowExample()
  {
    var made := Vec2D.FromVec([0, 1, 2, 6, 7, 8], 3);
    var g := made.value;
    var r := g.InsertRow(1, [3, 4, 5]);
    assert r == Ok(()) && g.cells == [0, 1, 2, 3, 4, 5, 6, 7, 8];
    r := g.InsertRow(3, [9, 10, 11]);
    assert r == Err(OutOfBounds);
  }

  /** Removing row 0 of the 3 x 2 grid holding 0..5 hands back [0, 1, 2]. */
  method RemoveRowExample()
  {
    var made := Vec2D.FromVec([0, 1, 2, 3, 4, 5], 3);
    var g := made.value;
    assert g.GetRow(0).value == [0, 1, 2];
    var removed := g.RemoveRow(0);
    assert removed == Ok([0, 1, 2]) && g.cells == [3, 4, 5];
  }

  /**
   * The library's coords answers (0, 1) for index 1 of a 3 x 2 grid, which
   * IndexOf assigns to cell (1, 0).
   */
  lemma CoordsCounterexample(g: Vec2D<int>)
    requires g.width == 3 && |g.cells| == 6
    ensures g.Valid() && g.IndexOf(1, 0) == Some(1)
    ensures g.Coords(1) == Some((0, 1)) && g.CoordsRowMajor(1) == Some((1, 0))
  {
  }

  /**
   * The library's truncate_cols accepts a width of 0: a 3 x 2 grid becomes a
   * grid of width 0 with no cells, which breaks the grid invariant.
   */
  method TruncateColsToZeroExample() returns (g: Vec2D<int>)
    ensures g.width == 0 && g.cells == [] && !g.Valid()
  {
    var made := Vec2D.FromVec([0, 1, 2, 3, 4, 5], 3);
    g := made.value;
    var r := g.TruncateCols(0);
    assert r == Ok(());
  }
}
