/** Counting the filled cells of a grid: the quantity the widget's fill
    counter (cells_filled in src/ui/crossword_widget.py) stands for, and
    the one check_filled_puzzle compares with the puzzle's fillable count. */
module FillCount {
  import opened Base
  import opened Krossword
  import opened Geometry

  /** An open cell holding some input. */
  predicate Filled(c: Cell) { !c.isBlack && c.userInput != "" }

  function Indicator(c: Cell): (n: nat)
    ensures n == 1 <==> Filled(c)
    ensures n <= 1
  {
    if Filled(c) then 1 else 0
  }

  function CountFilledRow(row: seq<Cell>): (n: nat)
    ensures n <= CountOpenRow(row)
  {
    if row == [] then 0
    else CountFilledRow(row[..|row| - 1]) + Indicator(row[|row| - 1])
  }

  /** The number of open cells with input; never more than the open cells. */
  function CountFilled(g: Grid): (n: nat)
    ensures n <= CountOpen(g)
  {
    if g == [] then 0 else CountFilled(g[..|g| - 1]) + CountFilledRow(g[|g| - 1])
  }

  /** Replacing one cell moves the row's count by the difference of the two
      cells' indicators. */
  lemma {:induction false} CountFilledRowUpdate(row: seq<Cell>, j: int, x: Cell)
    requires 0 <= j < |row|
    ensures CountFilledRow(row[j := x]) == CountFilledRow(row) - Indicator(row[j]) + Indicator(x)
    decreases |row|
  {
    var n := |row| - 1;
    var r2 := row[j := x];
    if j < n {
      assert r2[..n] == row[..n][j := x];
      CountFilledRowUpdate(row[..n], j, x);
    } else {
      assert r2[..n] == row[..n];
    }
  }

  /** Replacing one cell moves the grid's count the same way. */
  lemma {:induction false} CountFilledUpdate(g: Grid, p: Pos, x: Cell)
    requires 0 <= p.row < |g| && 0 <= p.col < |g[p.row]|
    ensures CountFilled(g[p.row := g[p.row][p.col := x]]) == CountFilled(g) - Indicator(At(g, p)) + Indicator(x)
    decreases |g|
  {
    var n := |g| - 1;
    var g2 := g[p.row := g[p.row][p.col := x]];
    if p.row < n {
      assert g2[..n] == g[..n][p.row := g[p.row][p.col := x]];
      CountFilledUpdate(g[..n], p, x);
    } else {
      assert g2[..n] == g[..n];
      CountFilledRowUpdate(g[n], p.col, x);
    }
  }

  /** A row has as many filled cells as open cells exactly when each of its
      open cells holds input. */
  lemma {:induction false} FullRow(row: seq<Cell>)
    ensures CountFilledRow(row) == CountOpenRow(row) <==>
            forall j :: 0 <= j < |row| && !row[j].isBlack ==> row[j].userInput != ""
    decreases |row|
  {
    if row != [] {
      var n := |row| - 1;
      FullRow(row[..n]);
      assert forall j :: 0 <= j < n ==> row[..n][j] == row[j];
    }
  }

  /** The counts meet exactly when every open cell of the grid holds input:
      the moment check_filled_puzzle acts on, once the counter tracks
      CountFilled and the fillable count is CountOpen. */
  lemma {:induction false} FullGrid(g: Grid)
    ensures CountFilled(g) == CountOpen(g) <==>
            forall i, j :: 0 <= i < |g| && 0 <= j < |g[i]| && !g[i][j].isBlack ==> g[i][j].userInput != ""
    decreases |g|
  {
    if g != [] {
      var n := |g| - 1;
      FullGrid(g[..n]);
      FullRow(g[n]);
      assert forall i :: 0 <= i < n ==> g[..n][i] == g[i];
    }
  }
}
