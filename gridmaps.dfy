/** Maps over a grid: every cell, or the cells at a list of positions.
    Each comes with the step lemmas that the in-place loops of the widget
    and of the check and reveal commands are proved against. */
module GridMaps {
  import opened Base
  import opened Krossword
  import opened Geometry

  // ---------------------------------------------------------------
  // Grid-wide maps, done row by row and cell by cell in place
  // ---------------------------------------------------------------

  /** Every cell replaced by its image under f. */
  function MapCells(g: Grid, f: Cell -> Cell): (r: Grid)
    ensures |r| == |g| && forall i :: 0 <= i < |g| ==> |r[i]| == |g[i]|
    ensures forall i, j :: 0 <= i < |g| && 0 <= j < |g[i]| ==> r[i][j] == f(g[i][j])
  {
    seq(|g|, i requires 0 <= i < |g| => MapRow(g[i], f))
  }

  function MapRow(row: seq<Cell>, f: Cell -> Cell): (r: seq<Cell>)
    ensures |r| == |row| && forall j :: 0 <= j < |row| ==> r[j] == f(row[j])
  {
    seq(|row|, j requires 0 <= j < |row| => f(row[j]))
  }

  /** A row whose first j cells have been mapped. */
  function MapFirst(row: seq<Cell>, f: Cell -> Cell, j: int): (r: seq<Cell>)
    ensures |r| == |row|
  {
    seq(|row|, c requires 0 <= c < |row| => if c < j then f(row[c]) else row[c])
  }

  /** A grid whose first i rows have been mapped. */
  function MapRows(g: Grid, f: Cell -> Cell, i: int): (r: Grid)
    ensures |r| == |g|
  {
    seq(|g|, k requires 0 <= k < |g| => if k < i then MapRow(g[k], f) else g[k])
  }

  /** Mapping the next cell of a row; no cell mapped is the row itself and
      all cells mapped is the mapped row. */
  lemma MapFirstStep(row: seq<Cell>, f: Cell -> Cell, j: int)
    requires 0 <= j < |row|
    ensures MapFirst(row, f, j)[j] == row[j]
    ensures MapFirst(row, f, j + 1) == MapFirst(row, f, j)[j := f(row[j])]
  {
  }

  lemma MapFirstEnds(row: seq<Cell>, f: Cell -> Cell)
    ensures MapFirst(row, f, 0) == row && MapFirst(row, f, |row|) == MapRow(row, f)
  {
  }

  /** Mapping the next row; no row mapped is the grid itself and all rows
      mapped is the mapped grid. */
  lemma MapRowsStep(g: Grid, f: Cell -> Cell, i: int)
    requires 0 <= i < |g|
    ensures MapRows(g, f, i)[i] == g[i]
    ensures MapRows(g, f, i + 1) == MapRows(g, f, i)[i := MapRow(g[i], f)]
  {
  }

  lemma MapRowsEnds(g: Grid, f: Cell -> Cell)
    ensures MapRows(g, f, 0) == g && MapRows(g, f, |g|) == MapCells(g, f)
  {
  }

  /** The cells at the positions of ps replaced by their images under f;
      every other cell kept. */
  function MapAt(g: Grid, ps: seq<Pos>, f: Cell -> Cell): (r: Grid)
    ensures |r| == |g| && forall i :: 0 <= i < |g| ==> |r[i]| == |g[i]|
  {
    seq(|g|, i requires 0 <= i < |g| =>
      seq(|g[i]|, j requires 0 <= j < |g[i]| => if Pos(i, j) in ps then f(g[i][j]) else g[i][j]))
  }

  lemma MapAtCell(g: Grid, ps: seq<Pos>, f: Cell -> Cell, i: int, j: int)
    requires 0 <= i < |g| && 0 <= j < |g[i]|
    ensures MapAt(g, ps, f)[i][j] == if Pos(i, j) in ps then f(g[i][j]) else g[i][j]
  {
  }

  lemma MapAtNone(g: Grid, f: Cell -> Cell)
    ensures MapAt(g, [], f) == g
  {
    var r := MapAt(g, [], f);
    forall i | 0 <= i < |g|
      ensures r[i] == g[i]
    {
    }
  }

  /** One more position is one more in-place update; when f is idempotent
      on the cell, a position listed twice is updated once. */
  lemma MapAtSnoc(g: Grid, ps: seq<Pos>, q: Pos, f: Cell -> Cell)
    requires 0 <= q.row < |g| && 0 <= q.col < |g[q.row]|
    requires f(f(At(g, q))) == f(At(g, q))
    ensures var c := MapAt(g, ps, f);
            MapAt(g, ps + [q], f) == c[q.row := c[q.row][q.col := f(c[q.row][q.col])]]
  {
    var c := MapAt(g, ps, f);
    var r := MapAt(g, ps + [q], f);
    var u := c[q.row := c[q.row][q.col := f(c[q.row][q.col])]];
    assert |r| == |u|;
    forall i | 0 <= i < |r|
      ensures r[i] == u[i]
    {
      assert |r[i]| == |u[i]|;
      forall j | 0 <= j < |r[i]|
        ensures r[i][j] == u[i][j]
      {
        MapAtCell(g, ps, f, i, j);
        MapAtCell(g, ps + [q], f, i, j);
        assert Pos(i, j) in ps + [q] <==> Pos(i, j) in ps || Pos(i, j) == q;
      }
    }
  }

  /** A map that keeps black cells black and open cells open keeps the
      open count. */
  lemma {:induction false} CountOpenMap(g: Grid, f: Cell -> Cell)
    requires forall c :: f(c).isBlack == c.isBlack
    ensures CountOpen(MapCells(g, f)) == CountOpen(g)
    decreases |g|
  {
    if g != [] {
      var n := |g| - 1;
      CountOpenMap(g[..n], f);
      assert MapCells(g, f)[..n] == MapCells(g[..n], f);
      CountOpenRowMap(g[n], f);
    }
  }

  lemma {:induction false} CountOpenRowMap(row: seq<Cell>, f: Cell -> Cell)
    requires forall c :: f(c).isBlack == c.isBlack
    ensures CountOpenRow(MapRow(row, f)) == CountOpenRow(row)
    decreases |row|
  {
    if row != [] {
      var n := |row| - 1;
      CountOpenRowMap(row[..n], f);
      assert MapRow(row, f)[..n] == MapRow(row[..n], f);
    }
  }
}
