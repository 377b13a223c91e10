/**
 * Row-major addressing of a flat buffer: the index of cell (x, y) in a grid
 * of a given width is y * width + x. This module holds the two static helpers
 * of the grid (create_index and create_coords), the arithmetic facts every
 * other operation leans on, and the split of a buffer into its rows.
 */
module RowMajor {
  import opened Wrappers

  /**
   * The linear index of (x, y) in a grid of width `width`. For a column
   * inside the width, the column is the remainder and the row the quotient
   * of the index by the width.
   */
  function CreateIndex(x: nat, y: nat, width: nat): (idx: nat)
    ensures x < width ==> idx % width == x && idx / width == y
  {
    if x < width then
      DivModUnique(y * width + x, width, x, y);
      y * width + x
    else
      y * width + x
  }

  /** The (x, y) coordinates of linear index `idx` in a grid of width `width`: a column inside the width, and row * width + column == idx. */
  function CreateCoords(idx: nat, width: nat): (c: (nat, nat))
    requires width > 0
    ensures c.0 < width && c.1 * width + c.0 == idx
  {
    (idx % width, idx / width)
  }

  /** Checked lookup in a buffer: the element at i, or None past the end. */
  function Lookup<T>(s: seq<T>, i: nat): (r: Option<T>)
    ensures r.Some? <==> i < |s|
    ensures r.Some? ==> r.value == s[i]
  {
    if i < |s| then Some(s[i]) else None
  }

  /** Multiplying by a natural number keeps the order. */
  lemma {:induction false} MulMono(a: int, b: int, w: nat)
    ensures a <= b ==> a * w <= b * w
  {
    if w > 0 {
      MulMono(a, b, w - 1);
      assert a * w == a * (w - 1) + a;
      assert b * w == b * (w - 1) + b;
    }
  }

  /** The only multiple of w strictly between -w and w is zero. */
  lemma SmallMultipleIsZero(d: int, w: int)
    requires w > 0 && -w < d * w < w
    ensures d == 0
  {
    MulMono(1, d, w);
    MulMono(d, -1, w);
  }

  /** Division and remainder are determined by any decomposition idx == y * w + x with x < w. */
  lemma DivModUnique(idx: int, w: int, x: int, y: int)
    requires w > 0 && 0 <= x < w && idx == y * w + x
    ensures idx / w == y && idx % w == x
  {
    var q, r := idx / w, idx % w;
    assert idx == q * w + r;
    assert (q - y) * w == x - r;
    SmallMultipleIsZero(q - y, w);
  }

  /** create_coords undoes create_index for every column inside the width. */
  lemma CoordsOfIndex(x: nat, y: nat, width: nat)
    requires x < width
    ensures CreateCoords(CreateIndex(x, y, width), width) == (x, y)
  {
    DivModUnique(CreateIndex(x, y, width), width, x, y);
  }

  /** create_index undoes create_coords for every index. */
  lemma IndexOfCoords(idx: nat, width: nat)
    requires width > 0
    ensures CreateCoords(idx, width).0 < width
    ensures CreateIndex(CreateCoords(idx, width).0, CreateCoords(idx, width).1, width) == idx
  {
  }

  /** Row y of a grid with `height` rows of `width` cells ends inside the buffer. */
  lemma RowInside(y: nat, width: nat, height: nat)
    requires y < height
    ensures y * width + width == (y + 1) * width <= height * width
  {
    MulMono(y + 1, height, width);
  }

  /** A cell inside the width and the height has an index inside the buffer. */
  lemma CellInside(x: nat, y: nat, width: nat, height: nat)
    requires x < width && y < height
    ensures CreateIndex(x, y, width) < height * width
  {
    RowInside(y, width, height);
  }

  /** A buffer of `height` rows of `width` cells has exactly `height` rows. */
  lemma RowsOfProduct(width: nat, height: nat)
    requires width > 0
    ensures (height * width) % width == 0 && (height * width) / width == height
  {
    DivModUnique(height * width, width, 0, height);
  }

  /** Appending a whole number of rows adds their count to the height. */
  lemma AppendRows(a: nat, b: nat, width: nat)
    requires width > 0 && a % width == 0 && b % width == 0
    ensures (a + b) % width == 0 && (a + b) / width == a / width + b / width
  {
    DivModUnique(a + b, width, 0, a / width + b / width);
  }

  /** An index lies below height * width exactly when its row lies below height. */
  lemma IndexInsideIff(idx: nat, width: nat, height: nat)
    requires width > 0
    ensures idx < height * width <==> idx / width < height
  {
    MulMono(height, idx / width, width);
    MulMono(idx / width + 1, height, width);
  }

  /** Two different cells inside the width have different indices. */
  lemma DistinctIndices(x: nat, y: nat, x': nat, y': nat, width: nat)
    requires x < width && x' < width && (x != x' || y != y')
    ensures CreateIndex(x, y, width) != CreateIndex(x', y', width)
  {
    CoordsOfIndex(x, y, width);
    CoordsOfIndex(x', y', width);
  }

  /** An index below height * width lies in a row below height. */
  lemma RowOfIndex(idx: nat, width: nat, height: nat)
    requires width > 0 && idx < height * width
    ensures idx / width < height
  {
    MulMono(height, idx / width, width);
  }

  /** A non-empty buffer of whole rows starts with a whole row, and what follows is whole rows. */
  lemma FirstRow(n: nat, width: nat)
    requires width > 0 && n % width == 0 && n > 0
    ensures width <= n && (n - width) % width == 0 && (n - width) / width == n / width - 1
  {
    MulMono(n / width, 0, width);
    DivModUnique(n - width, width, 0, n / width - 1);
  }

  /** The rows of a row-major buffer, top to bottom, each `width` cells long. */
  function Chunks<T>(s: seq<T>, width: nat): (rows: seq<seq<T>>)
    requires width > 0 && |s| % width == 0
    ensures |rows| == |s| / width
    ensures forall i :: 0 <= i < |rows| ==> |rows[i]| == width
    decreases |s|
  {
    if |s| == 0 then []
    else
      FirstRow(|s|, width);
      [s[..width]] + Chunks(s[width..], width)
  }

  /** The buffer made of the given rows laid end to end. */
  function Concat<T>(rows: seq<seq<T>>): seq<T>
  {
    if rows == [] then [] else rows[0] + Concat(rows[1..])
  }

  /** The first n cells of every row. */
  function TakeEach<T>(rows: seq<seq<T>>, n: nat): (r: seq<seq<T>>)
    requires forall i :: 0 <= i < |rows| ==> n <= |rows[i]|
  {
    seq(|rows|, i requires 0 <= i < |rows| => rows[i][..n])
  }

  /** Row y of Chunks(s, width) is the slice s[y * width .. (y + 1) * width]. */
  lemma {:induction false} ChunksRow<T>(s: seq<T>, width: nat, y: nat)
    requires width > 0 && |s| % width == 0 && y < |s| / width
    ensures (y + 1) * width <= |s| && Chunks(s, width)[y] == s[y * width .. (y + 1) * width]
    decreases |s|
  {
    RowInside(y, width, |s| / width);
    FirstRow(|s|, width);
    if y > 0 {
      ChunksRow(s[width..], width, y - 1);
      assert (y - 1) * width + width == y * width;
      assert s[width..][(y - 1) * width .. y * width] == s[y * width .. (y + 1) * width];
    }
  }

  /** Laying the rows of a buffer end to end gives the buffer back. */
  lemma {:induction false} ConcatChunks<T>(s: seq<T>, width: nat)
    requires width > 0 && |s| % width == 0
    ensures Concat(Chunks(s, width)) == s
    decreases |s|
  {
    if |s| > 0 {
      FirstRow(|s|, width);
      ConcatChunks(s[width..], width);
      assert Chunks(s, width)[1..] == Chunks(s[width..], width);
    }
  }

  /** Splitting rows of equal length laid end to end gives the rows back. */
  lemma {:induction false} ChunksConcat<T>(rows: seq<seq<T>>, width: nat)
    requires width > 0 && forall i :: 0 <= i < |rows| ==> |rows[i]| == width
    ensures |Concat(rows)| % width == 0 && Chunks(Concat(rows), width) == rows
  {
    ConcatLength(rows, width);
    if rows != [] {
      var s, rest := Concat(rows), Concat(rows[1..]);
      ChunksConcat(rows[1..], width);
      assert s[..width] == rows[0];
      assert s[width..] == rest;
      assert Chunks(s, width) == [rows[0]] + Chunks(rest, width);
      assert [rows[0]] + rows[1..] == rows;
    }
  }

  /** Rows of equal length laid end to end fill rows * width cells. */
  lemma {:induction false} ConcatLength<T>(rows: seq<seq<T>>, width: nat)
    requires forall i :: 0 <= i < |rows| ==> |rows[i]| == width
    ensures |Concat(rows)| == |rows| * width
    ensures width > 0 ==> |Concat(rows)| % width == 0 && |Concat(rows)| / width == |rows|
  {
    if rows != [] {
      ConcatLength(rows[1..], width);
      assert |rows| * width == (|rows| - 1) * width + width;
    }
    if width > 0 {
      RowsOfProduct(width, |rows|);
    }
  }

  /** The rows of two buffers of whole rows laid end to end are the rows of the first, then of the second. */
  lemma {:induction false} ChunksAppend<T>(a: seq<T>, b: seq<T>, width: nat)
    requires width > 0 && |a| % width == 0 && |b| % width == 0
    ensures |a + b| % width == 0 && Chunks(a + b, width) == Chunks(a, width) + Chunks(b, width)
    decreases |a|
  {
    AppendRows(|a|, |b|, width);
    if |a| == 0 {
      assert a + b == b;
    } else {
      FirstRow(|a|, width);
      FirstRow(|a + b|, width);
      ChunksAppend(a[width..], b, width);
      assert (a + b)[..width] == a[..width];
      assert (a + b)[width..] == a[width..] + b;
    }
  }

  /** Cutting a buffer of whole rows after k rows leaves whole rows on both sides. */
  lemma SplitRows(n: nat, k: nat, width: nat)
    requires width > 0 && n % width == 0 && k <= n / width
    ensures k * width <= n && (k * width) % width == 0 && (k * width) / width == k
    ensures (n - k * width) % width == 0
  {
    var h := n / width;
    RowsOfProduct(width, k);
    MulMono(k, h, width);
    assert n == h * width;
    assert n - k * width == (h - k) * width;
    DivModUnique(n - k * width, width, 0, h - k);
  }

  /** Cutting a buffer after k whole rows cuts its list of rows after k rows. */
  lemma ChunksSplit<T>(s: seq<T>, k: nat, width: nat)
    requires width > 0 && |s| % width == 0 && k <= |s| / width
    ensures k * width <= |s| && (k * width) % width == 0 && (|s| - k * width) % width == 0
    ensures Chunks(s[..k * width], width) == Chunks(s, width)[..k]
    ensures Chunks(s[k * width..], width) == Chunks(s, width)[k..]
  {
    SplitRows(|s|, k, width);
    var i := k * width;
    var pre, post := s[..i], s[i..];
    assert |pre| == i && |post| == |s| - i;
    assert pre + post == s;
    ChunksAppend(pre, post, width);
    var a, b := Chunks(pre, width), Chunks(post, width);
    assert |a| == k;
    assert Chunks(s, width) == a + b;
    assert Chunks(s, width)[..k] == a;
    assert Chunks(s, width)[k..] == b;
  }

  /** ChunksAppend for three buffers of whole rows. */
  lemma ChunksAppend3<T>(a: seq<T>, b: seq<T>, c: seq<T>, width: nat)
    requires width > 0 && |a| % width == 0 && |b| % width == 0 && |c| % width == 0
    ensures |a + b + c| % width == 0
    ensures Chunks(a + b + c, width) == Chunks(a, width) + Chunks(b, width) + Chunks(c, width)
  {
    ChunksAppend(b, c, width);
    ChunksAppend(a, b + c, width);
    assert a + b + c == a + (b + c);
  }

  /** Splicing whole rows in before row y splices their rows in before row y. */
  lemma ChunksInsert<T>(s: seq<T>, row: seq<T>, y: nat, width: nat)
    requires width > 0 && |s| % width == 0 && |row| % width == 0 && y <= |s| / width
    ensures y * width <= |s| && |s[..y * width] + row + s[y * width..]| % width == 0
    ensures Chunks(s[..y * width] + row + s[y * width..], width) ==
      Chunks(s, width)[..y] + Chunks(row, width) + Chunks(s, width)[y..]
  {
    ChunksSplit(s, y, width);
    ChunksAppend3(s[..y * width], row, s[y * width..], width);
  }

  /** Row y of a buffer of whole rows starts and ends inside it, and whole rows lie on either side. */
  lemma RowBounds(n: nat, y: nat, width: nat)
    requires width > 0 && n % width == 0 && y < n / width
    ensures y * width + width == (y + 1) * width <= n
    ensures (y * width) % width == 0 && (n - (y + 1) * width) % width == 0
  {
    SplitRows(n, y, width);
    SplitRows(n, y + 1, width);
  }

  /** Dropping the first row of a non-empty buffer of whole rows drops its first row. */
  lemma ChunksTail<T>(s: seq<T>, width: nat)
    requires width > 0 && |s| % width == 0 && |s| > 0
    ensures width <= |s| && (|s| - width) % width == 0
    ensures Chunks(s[width..], width) == Chunks(s, width)[1..]
  {
    FirstRow(|s|, width);
  }

  /** Dropping the first row of the second of two buffers of whole rows drops that row from the rows of their concatenation. */
  lemma ChunksDropRow<T>(pre: seq<T>, rest: seq<T>, width: nat)
    requires width > 0 && |pre| % width == 0 && |rest| % width == 0 && |rest| > 0
    ensures width <= |rest| && (|rest| - width) % width == 0 && |pre + rest[width..]| % width == 0
    ensures Chunks(pre + rest[width..], width) == Chunks(pre, width) + Chunks(rest, width)[1..]
  {
    ChunksTail(rest, width);
    ChunksAppend(pre, rest[width..], width);
  }

  /** Cutting out the cells of row y, which start at i, cuts row y out of the list of rows. */
  lemma ChunksRemove<T>(s: seq<T>, y: nat, i: nat, width: nat)
    requires width > 0 && |s| % width == 0 && y < |s| / width && i == y * width
    ensures i + width <= |s| && (|s| - width) % width == 0
    ensures Chunks(s[..i] + s[i + width..], width) == Chunks(s, width)[..y] + Chunks(s, width)[y + 1..]
  {
    assert i + width <= |s| && (|s| - width) % width == 0 && i % width == 0 && (|s| - i) % width == 0 by {
      RowBounds(|s|, y, width);
      SplitRows(|s|, y, width);
      FirstRow(|s|, width);
    }
    var pre, rest := s[..i], s[i..];
    assert Chunks(pre, width) == Chunks(s, width)[..y] && Chunks(rest, width) == Chunks(s, width)[y..] by {
      ChunksSplit(s, y, width);
    }
    ChunksDropRow(pre, rest, width);
    assert s[..i] + s[i + width..] == pre + rest[width..];
  }
}
