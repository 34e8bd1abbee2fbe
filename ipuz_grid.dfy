/** The grid passes of the ipuz parser (src/parsers/ipuz_parser.py):
    _parse_grid (lines 87-127), which classifies cells from the "puzzle"
    and "solution" arrays, and _load_saved (lines 78-85), which overlays
    the "saved" inputs. Each pass is a specification function on grids,
    with the per-cell lemmas that say which cells it touches and how, and
    a method with the source's nested loops proved equal to it. */
module IpuzGrid {
  import opened Base
  import opened Krossword
  import opened Json

  // ---------------------------------------------------------------
  // How far a loop with a length-checked break runs
  // ---------------------------------------------------------------

  /** The `for i in range(bound): if i >= len(a) or i >= len(b): break`
      loop: how many passes run. len(a) is asked on the first pass, and
      len(b) only when len(a) did not already stop the loop. */
  function Limit(bound: int, a: Json, b: Json): (r: Outcome<nat>)
    ensures r.Ok? ==> r.value <= Max0(bound)
    ensures r.Err? ==> r.error == Raises
  {
    if bound <= 0 then Ok(0)
    else
      var la :- Len(a);
      if la == 0 then Ok(0)
      else
        var lb :- Len(b);
        Ok(Min(bound, Min(la, lb)))
  }

  /** The loop runs while the index is below the bound and both lengths,
      and stops at the first of them; it fails only when a length it asks
      for cannot be taken. */
  lemma LimitMeaning(bound: int, a: Json, b: Json)
    ensures var r := Limit(bound, a, b);
            (r.Ok? && r.value > 0 ==> Len(a).Ok? && Len(b).Ok? && r.value <= Len(a).value && r.value <= Len(b).value) &&
            (r.Ok? && r.value < Max0(bound) ==>
               Len(a).Ok? && (r.value == Len(a).value || (Len(b).Ok? && r.value == Len(b).value))) &&
            (r.Err? <==> bound > 0 && (Len(a).Err? || (Len(a).value > 0 && Len(b).Err?)))
  {
  }

  /** A pass of the loop that found both lengths large enough runs. */
  lemma LimitRuns(bound: int, a: Json, b: Json, j: nat)
    requires j < bound && (j == 0 || (Limit(bound, a, b).Ok? && j <= Limit(bound, a, b).value))
    requires Len(a).Ok? && j < Len(a).value && Len(b).Ok? && j < Len(b).value
    ensures Limit(bound, a, b).Ok? && j < Limit(bound, a, b).value
  {
  }

  /** A pass of the loop that found a length too small is the last one. */
  lemma LimitStops(bound: int, a: Json, b: Json, j: nat)
    requires j < bound && (j == 0 || (Limit(bound, a, b).Ok? && j <= Limit(bound, a, b).value))
    requires Len(a).Ok? && (j >= Len(a).value || (Len(b).Ok? && j >= Len(b).value))
    ensures Limit(bound, a, b) == Ok(j)
  {
  }

  /** A length that cannot be taken fails the loop on its first pass. */
  lemma LimitFails(bound: int, a: Json, b: Json, j: nat)
    requires j < bound && (j == 0 || (Limit(bound, a, b).Ok? && j <= Limit(bound, a, b).value))
    requires Len(a).Err? || (Len(a).Ok? && j < Len(a).value && Len(b).Err?)
    ensures Limit(bound, a, b) == Err(Raises)
  {
  }

  /** The same loop with a single length check. */
  function Limit1(bound: int, a: Json): (r: Outcome<nat>)
    ensures r.Ok? ==> r.value <= Max0(bound)
    ensures r.Err? ==> r.error == Raises
  {
    if bound <= 0 then Ok(0)
    else
      var la :- Len(a);
      Ok(Min(bound, la))
  }

  lemma Limit1Meaning(bound: int, a: Json)
    ensures var r := Limit1(bound, a);
            (r.Ok? && r.value > 0 ==> Len(a).Ok? && r.value <= Len(a).value) &&
            (r.Ok? && r.value < Max0(bound) ==> Len(a).Ok? && r.value == Len(a).value) &&
            (r.Err? <==> bound > 0 && Len(a).Err?)
  {
  }

  lemma Limit1Runs(bound: int, a: Json, j: nat)
    requires j < bound && (j == 0 || (Limit1(bound, a).Ok? && j <= Limit1(bound, a).value))
    requires Len(a).Ok? && j < Len(a).value
    ensures Limit1(bound, a).Ok? && j < Limit1(bound, a).value
  {
  }

  lemma Limit1Stops(bound: int, a: Json, j: nat)
    requires j < bound && (j == 0 || (Limit1(bound, a).Ok? && j <= Limit1(bound, a).value))
    requires Len(a).Ok? && j >= Len(a).value
    ensures Limit1(bound, a) == Ok(j)
  {
  }

  lemma Limit1Fails(bound: int, a: Json, j: nat)
    requires j < bound && (j == 0 || (Limit1(bound, a).Ok? && j <= Limit1(bound, a).value))
    requires Len(a).Err?
    ensures Limit1(bound, a) == Err(Raises)
  {
  }

  // ---------------------------------------------------------------
  // The classification of one cell by _parse_grid
  // ---------------------------------------------------------------

  predicate HasCell(pc: Json) { pc.JObj? && "cell" in pc.fields }

  /** The style of a puzzle cell: a truthy "highlight" shades it, a
      "shapebg" of "circle" circles it; a style that is not a dictionary
      does nothing. Neither mark is ever cleared. */
  function Styled(c: Cell, pc: Json): (r: Cell)
    requires pc.JObj?
    ensures r == c.(isShaded := r.isShaded, isCircled := r.isCircled)
    ensures c.isShaded ==> r.isShaded
    ensures c.isCircled ==> r.isCircled
  {
    var style := Lookup(pc.fields, "style", JNull);
    if !style.JObj? then c
    else
      c.(isShaded := c.isShaded || Truthy(Lookup(style.fields, "highlight", JNull)),
         isCircled := c.isCircled || Lookup(style.fields, "shapebg", JNull) == JStr("circle"))
  }

  /** The clue number of a puzzle cell: a positive number opens the cell
      and numbers it; 0 opens it with an empty solution; a negative number
      leaves it alone; a value that does not compare with 0 raises. */
  function Numbered(c: Cell, v: Json): (r: Outcome<Cell>)
    ensures r.Ok? <==> IntOf(v).Some?
    ensures r.Err? ==> r.error == Raises
    ensures r.Ok? && IntOf(v).value > 0 ==> r.value == c.(isBlack := false, clueNumber := IntOf(v))
    ensures r.Ok? && IntOf(v).value == 0 ==> r.value == c.(isBlack := false, solution := "")
    ensures r.Ok? && IntOf(v).value < 0 ==> r.value == c
  {
    match IntOf(v)
    case None => Err(Raises)
    case Some(n) =>
      Ok(if n > 0 then c.(isBlack := false, clueNumber := Some(n))
         else if n == 0 then c.(isBlack := false, solution := "")
         else c)
  }

  /** One cell of _parse_grid: a dictionary with a "cell" entry is styled
      and classified by its number; any other entry leaves the cell as it
      is. Then a one-character string in the solution grid, upper-cased,
      becomes the solution. */
  function Classify(c: Cell, pc: Json, sc: Json): (r: Outcome<Cell>)
    ensures r.Err? ==> r.error == Raises
  {
    var c1 :- if HasCell(pc) then Numbered(Styled(c, pc), pc.fields["cell"]) else Ok(c);
    Ok(if sc.JStr? && |sc.s| == 1 then c1.(solution := Upper(sc.s)) else c1)
  }

  /** Classify fails only on a "cell" value that does not compare with 0. */
  lemma ClassifyFails(c: Cell, pc: Json, sc: Json)
    ensures Classify(c, pc, sc).Err? <==> HasCell(pc) && IntOf(pc.fields["cell"]).None?
  {
  }

  /** What a player has done to a cell: the input and the solve flags. */
  function SolveState(c: Cell): (string, bool, bool, bool, bool) {
    (c.userInput, c.revealed, c.corrected, c.incorrect, c.pencilled)
  }

  /** Classify leaves the input and the solve flags of a cell alone. */
  lemma ClassifyKeeps(c: Cell, pc: Json, sc: Json)
    ensures var r := Classify(c, pc, sc);
            r.Ok? ==> SolveState(r.value) == SolveState(c)
  {
    if HasCell(pc) && IntOf(pc.fields["cell"]).Some? {
      var c1 := Numbered(Styled(c, pc), pc.fields["cell"]).value;
      assert SolveState(c1) == SolveState(c);
    }
  }

  /** An entry without "cell" changes nothing but the solution. */
  lemma ClassifyUntouched(c: Cell, pc: Json, sc: Json)
    requires !HasCell(pc)
    ensures Classify(c, pc, sc) == Ok(c.(solution := Classify(c, pc, sc).value.solution))
  {
  }

  /** A cell ends up open exactly when it was open or its "cell" value is
      at least 0. */
  lemma ClassifyOpens(c: Cell, pc: Json, sc: Json)
    ensures var r := Classify(c, pc, sc);
            r.Ok? ==> (r.value.isBlack <==> c.isBlack && !(HasCell(pc) && IntOf(pc.fields["cell"]).value >= 0))
  {
  }

  /** A one-character solution entry wins; otherwise a "cell" of 0 clears
      the solution and anything else keeps it. */
  lemma ClassifySolution(c: Cell, pc: Json, sc: Json)
    ensures var r := Classify(c, pc, sc);
            (r.Ok? && sc.JStr? && |sc.s| == 1 ==> r.value.solution == Upper(sc.s)) &&
            (r.Ok? && !(sc.JStr? && |sc.s| == 1) ==>
               r.value.solution == if HasCell(pc) && IntOf(pc.fields["cell"]).value == 0 then "" else c.solution)
  {
  }

  // ---------------------------------------------------------------
  // A loop that replaces items one index at a time
  // ---------------------------------------------------------------

  /** xs with its first k items replaced, in order, by the outcomes of
      `steps`; the first step that fails is the outcome of the whole. */
  function UpTo<T>(xs: seq<T>, steps: seq<Outcome<T>>, k: nat): (r: Outcome<seq<T>>)
    requires k <= |xs| == |steps|
    ensures r.Ok? ==> |r.value| == |xs|
    decreases k
  {
    if k == 0 then Ok(xs)
    else
      var prev :- UpTo(xs, steps, k - 1);
      var x :- steps[k - 1];
      Ok(prev[k - 1 := x])
  }

  /** Item i after k steps: the outcome of step i when i < k, else the
      item as it was. */
  lemma {:induction false} UpToAt<T>(xs: seq<T>, steps: seq<Outcome<T>>, k: nat, i: nat)
    requires k <= |xs| == |steps| && UpTo(xs, steps, k).Ok? && i < |xs|
    ensures i < k ==> steps[i].Ok? && UpTo(xs, steps, k).value[i] == steps[i].value
    ensures i >= k ==> UpTo(xs, steps, k).value[i] == xs[i]
    decreases k
  {
    if k > 0 {
      var prev := UpTo(xs, steps, k - 1);
      assert prev.Ok? && steps[k - 1].Ok?;
      UpToAt(xs, steps, k - 1, i);
    }
  }

  /** Once a step fails, the later steps do not run: the failure stands. */
  lemma {:induction false} UpToFails<T>(xs: seq<T>, steps: seq<Outcome<T>>, k: nat, k2: nat)
    requires k <= k2 <= |xs| == |steps| && UpTo(xs, steps, k).Err?
    ensures UpTo(xs, steps, k2) == UpTo(xs, steps, k)
    decreases k2
  {
    if k2 > k {
      UpToFails(xs, steps, k, k2 - 1);
    }
  }

  /** A failed loop failed with the error of one of its steps. */
  lemma {:induction false} UpToError<T>(xs: seq<T>, steps: seq<Outcome<T>>, k: nat)
    requires k <= |xs| == |steps|
    ensures UpTo(xs, steps, k).Err? ==>
              exists i :: 0 <= i < k && steps[i].Err? && steps[i].error == UpTo(xs, steps, k).error
    decreases k
  {
    if k > 0 {
      UpToError(xs, steps, k - 1);
    }
  }

  /** A step that succeeds replaces its item. */
  lemma UpToNext<T>(xs: seq<T>, steps: seq<Outcome<T>>, k: nat, cur: seq<T>)
    requires k < |xs| == |steps| && UpTo(xs, steps, k) == Ok(cur) && steps[k].Ok?
    ensures UpTo(xs, steps, k + 1) == Ok(cur[k := steps[k].value])
  {
  }

  /** A step that fails ends the loop with its error. */
  lemma UpToStop<T>(xs: seq<T>, steps: seq<Outcome<T>>, k: nat, k2: nat)
    requires k < k2 <= |xs| == |steps| && UpTo(xs, steps, k).Ok? && steps[k].Err?
    ensures UpTo(xs, steps, k2) == Err(steps[k].error)
  {
    UpToFails(xs, steps, k + 1, k2);
  }

  // ---------------------------------------------------------------
  // The loops of _parse_grid
  // ---------------------------------------------------------------

  /** Column k of a row: its puzzle and solution entries, classified. */
  function RowStep(row: seq<Cell>, pr: Json, sr: Json, k: nat): Outcome<Cell>
    requires k < |row|
  {
    var pc :- Index(pr, k);
    var sc :- Index(sr, k);
    Classify(row[k], pc, sc)
  }

  function RowSteps(row: seq<Cell>, pr: Json, sr: Json): (r: seq<Outcome<Cell>>)
    ensures |r| == |row|
  {
    seq(|row|, k requires 0 <= k < |row| => RowStep(row, pr, sr, k))
  }

  /** The inner loop of _parse_grid over one row of w cells. */
  function ParseRow(row: seq<Cell>, pr: Json, sr: Json): (r: Outcome<seq<Cell>>)
    ensures r.Ok? ==> |r.value| == |row|
  {
    var n :- Limit(|row|, pr, sr);
    UpTo(row, RowSteps(row, pr, sr), n)
  }

  /** Row k of a grid: its puzzle and solution rows, parsed. */
  function GridStep(g: Grid, gd: Json, sd: Json, k: nat): (r: Outcome<seq<Cell>>)
    requires k < |g|
    ensures r.Ok? ==> |r.value| == |g[k]|
  {
    var pr :- Index(gd, k);
    var sr :- Index(sd, k);
    ParseRow(g[k], pr, sr)
  }

  function GridSteps(g: Grid, gd: Json, sd: Json): (r: seq<Outcome<seq<Cell>>>)
    ensures |r| == |g|
  {
    seq(|g|, k requires 0 <= k < |g| => GridStep(g, gd, sd, k))
  }

  /** The outer loop of _parse_grid, given the "solution" array. */
  function GridPasses(g: Grid, gd: Json, sd: Json): (r: Outcome<Grid>)
    ensures r.Ok? ==> |r.value| == |g|
  {
    var n :- Limit(|g|, gd, sd);
    UpTo(g, GridSteps(g, gd, sd), n)
  }

  /** _parse_grid on the cells of a puzzle, given the "puzzle" value and
      the document the "solution" value is read from. */
  function ParseGrid(g: Grid, gd: Json, data: Json): (r: Outcome<Grid>)
    ensures r.Ok? ==> |r.value| == |g|
  {
    var sd :- Get(data, "solution", JArr([]));
    GridPasses(g, gd, sd)
  }

  /** _parse_grid raises only the errors Python raises on a malformed
      value, never a rejection of its own. */
  lemma ParseRowRaises(row: seq<Cell>, pr: Json, sr: Json)
    ensures ParseRow(row, pr, sr).Err? ==> ParseRow(row, pr, sr).error == Raises
  {
    var n := Limit(|row|, pr, sr);
    if n.Ok? {
      UpToError(row, RowSteps(row, pr, sr), n.value);
    }
  }

  lemma ParseGridRaises(g: Grid, gd: Json, data: Json)
    ensures ParseGrid(g, gd, data).Err? ==> ParseGrid(g, gd, data).error == Raises
  {
    var sd := Get(data, "solution", JArr([]));
    if sd.Ok? {
      var n := Limit(|g|, gd, sd.value);
      if n.Ok? {
        var steps := GridSteps(g, gd, sd.value);
        forall i | 0 <= i < |g|
          ensures steps[i].Err? ==> steps[i].error == Raises
        {
          var pr, sr := Index(gd, i), Index(sd.value, i);
          if pr.Ok? && sr.Ok? {
            ParseRowRaises(g[i], pr.value, sr.value);
          }
        }
        UpToError(g, steps, n.value);
      }
    }
  }

  /** Which cells _parse_grid reaches: rows below the number of rows of
      the grid and of both arrays, and in each such row the columns below
      the width and the lengths of both row entries. */
  predicate Touched(g: Grid, gd: Json, sd: Json, i: nat, j: nat) {
    var rows := Limit(|g|, gd, sd);
    rows.Ok? && i < rows.value && i < |g| &&
    Index(gd, i).Ok? && Index(sd, i).Ok? &&
    var cols := Limit(|g[i]|, Index(gd, i).value, Index(sd, i).value);
    cols.Ok? && j < cols.value
  }

  /** What _parse_grid does to each cell: a reached cell is the
      classification of its puzzle and solution entries, any other cell is
      left as it was; every row keeps its length. */
  lemma ParseGridCell(g: Grid, gd: Json, data: Json, i: nat, j: nat)
    requires ParseGrid(g, gd, data).Ok? && i < |g| && j < |g[i]|
    ensures var sd := Get(data, "solution", JArr([])).value;
            var r := ParseGrid(g, gd, data).value;
            |r[i]| == |g[i]| &&
            if Touched(g, gd, sd, i, j) then
              var c := RowStep(g[i], Index(gd, i).value, Index(sd, i).value, j);
              c.Ok? && r[i][j] == c.value
            else r[i][j] == g[i][j]
  {
    var sd := Get(data, "solution", JArr([])).value;
    var n := Limit(|g|, gd, sd).value;
    UpToAt(g, GridSteps(g, gd, sd), n, i);
    if i < n {
      var pr, sr := Index(gd, i).value, Index(sd, i).value;
      var m := Limit(|g[i]|, pr, sr).value;
      UpToAt(g[i], RowSteps(g[i], pr, sr), m, j);
    }
  }

  /** _parse_grid keeps the shape of the grid. */
  lemma ParseGridRect(g: Grid, gd: Json, data: Json, w: int, h: int)
    requires Rect(g, w, h) && ParseGrid(g, gd, data).Ok?
    ensures Rect(ParseGrid(g, gd, data).value, w, h)
  {
    var sd := Get(data, "solution", JArr([])).value;
    var n := Limit(|g|, gd, sd).value;
    var r := ParseGrid(g, gd, data).value;
    forall i | 0 <= i < |r|
      ensures |r[i]| == w
    {
      UpToAt(g, GridSteps(g, gd, sd), n, i);
    }
  }

  /** What one pass of a loop body decides: go on with the updated cells,
      or stop with the loop's outcome. */
  datatype Pass<T> = Next(cells: T) | Stop(out: Outcome<T>)

  /** The state of the inner loop of _parse_grid before column j: no
      earlier pass stopped it, and the first j cells are classified. */
  ghost predicate RowAt(row: seq<Cell>, pr: Json, sr: Json, j: nat, cells: seq<Cell>) {
    j <= |row| && (j == 0 || (Limit(|row|, pr, sr).Ok? && j <= Limit(|row|, pr, sr).value)) &&
    UpTo(row, RowSteps(row, pr, sr), j) == Ok(cells)
  }

  /** One pass of the inner loop of _parse_grid, at column j. */
  method RowPass(row: seq<Cell>, pr: Json, sr: Json, j: nat, cells: seq<Cell>) returns (p: Pass<seq<Cell>>)
    requires j < |row| && RowAt(row, pr, sr, j, cells)
    ensures p.Next? ==> RowAt(row, pr, sr, j + 1, p.cells)
    ensures p.Stop? ==> p.out == ParseRow(row, pr, sr)
  {
    var lp := Len(pr);
    var ls := if lp.Ok? && j < lp.value then Len(sr) else Ok(0);
    if lp.Err? || ls.Err? {
      LimitFails(|row|, pr, sr, j);
      return Stop(Err(Raises));
    }
    if j >= lp.value || j >= ls.value {
      LimitStops(|row|, pr, sr, j);
      return Stop(Ok(cells));
    }
    LimitRuns(|row|, pr, sr, j);
    var cell := RowStep(row, pr, sr, j);
    assert RowSteps(row, pr, sr)[j] == cell;
    if cell.Err? {
      UpToStop(row, RowSteps(row, pr, sr), j, Limit(|row|, pr, sr).value);
      return Stop(Err(cell.error));
    }
    UpToNext(row, RowSteps(row, pr, sr), j, cells);
    return Next(cells[j := cell.value]);
  }

  /** The inner loop of _parse_grid over one row. */
  method ParseRowCells(row: seq<Cell>, pr: Json, sr: Json) returns (out: Outcome<seq<Cell>>)
    ensures out == ParseRow(row, pr, sr)
  {
    var cells := row;
    var j := 0;
    while j < |row|
      invariant RowAt(row, pr, sr, j, cells)
    {
      var p := RowPass(row, pr, sr, j, cells);
      if p.Stop? {
        return p.out;
      }
      cells := p.cells;
      j := j + 1;
    }
    return Ok(cells);
  }

  /** The state of the outer loop of _parse_grid before row i. */
  ghost predicate GridAt(g: Grid, gd: Json, sd: Json, i: nat, cells: Grid) {
    i <= |g| && (i == 0 || (Limit(|g|, gd, sd).Ok? && i <= Limit(|g|, gd, sd).value)) &&
    UpTo(g, GridSteps(g, gd, sd), i) == Ok(cells)
  }

  /** Row i of the grid parsed, as GridStep gives it. */
  method GridRow(g: Grid, gd: Json, sd: Json, i: nat) returns (row: Outcome<seq<Cell>>)
    requires i < |g|
    ensures row == GridStep(g, gd, sd, i)
  {
    var pr := Index(gd, i);
    var sr := Index(sd, i);
    if pr.Err? || sr.Err? {
      return Err(Raises);
    }
    row := ParseRowCells(g[i], pr.value, sr.value);
  }

  /** One pass of the outer loop of _parse_grid, at row i. */
  method GridPass(g: Grid, gd: Json, sd: Json, i: nat, cells: Grid) returns (p: Pass<Grid>)
    requires i < |g| && GridAt(g, gd, sd, i, cells)
    ensures p.Next? ==> GridAt(g, gd, sd, i + 1, p.cells)
    ensures p.Stop? ==> p.out == GridPasses(g, gd, sd)
  {
    var lp := Len(gd);
    var ls := if lp.Ok? && i < lp.value then Len(sd) else Ok(0);
    if lp.Err? || ls.Err? {
      LimitFails(|g|, gd, sd, i);
      return Stop(Err(Raises));
    }
    if i >= lp.value || i >= ls.value {
      LimitStops(|g|, gd, sd, i);
      return Stop(Ok(cells));
    }
    LimitRuns(|g|, gd, sd, i);
    var row := GridRow(g, gd, sd, i);
    assert GridSteps(g, gd, sd)[i] == row;
    if row.Err? {
      UpToStop(g, GridSteps(g, gd, sd), i, Limit(|g|, gd, sd).value);
      return Stop(Err(row.error));
    }
    UpToNext(g, GridSteps(g, gd, sd), i, cells);
    return Next(cells[i := row.value]);
  }

  /** The loops of _parse_grid over the rows, given the solution array. */
  method ParseGridCells(g: Grid, gd: Json, sd: Json) returns (out: Outcome<Grid>)
    ensures out == GridPasses(g, gd, sd)
  {
    var cells := g;
    var i := 0;
    while i < |g|
      invariant GridAt(g, gd, sd, i, cells)
    {
      var p := GridPass(g, gd, sd, i, cells);
      if p.Stop? {
        return p.out;
      }
      cells := p.cells;
      i := i + 1;
    }
    return Ok(cells);
  }

  // ---------------------------------------------------------------
  // _load_saved
  // ---------------------------------------------------------------

  /** Column k of a saved row: the string stored there. */
  function SavedStep(sr: Json, k: nat): (r: Outcome<string>)
    ensures r.Ok? ==> Index(sr, k).Ok? && Index(sr, k).value.JStr? && r.value == Index(sr, k).value.s
  {
    var e :- Index(sr, k);
    Text(e)
  }

  /** Cell k of a row with the saved string as its input. */
  function SavedCell(row: seq<Cell>, sr: Json, k: nat): Outcome<Cell>
    requires k < |row|
  {
    var t :- SavedStep(sr, k);
    Ok(row[k].(userInput := t))
  }

  function SavedCells(row: seq<Cell>, sr: Json): (r: seq<Outcome<Cell>>)
    ensures |r| == |row|
  {
    seq(|row|, k requires 0 <= k < |row| => SavedCell(row, sr, k))
  }

  /** The inner loop of _load_saved over row i: saved[i] is looked up on
      each pass, so not at all when the row has no cells. */
  function SavedRow(row: seq<Cell>, saved: Json, i: nat): (r: Outcome<seq<Cell>>)
    ensures r.Ok? ==> |r.value| == |row|
  {
    if row == [] then Ok(row)
    else
      var sr :- Index(saved, i);
      var n :- Limit1(|row|, sr);
      UpTo(row, SavedCells(row, sr), n)
  }

  function SavedRows(g: Grid, saved: Json): (r: seq<Outcome<seq<Cell>>>)
    ensures |r| == |g|
  {
    seq(|g|, i requires 0 <= i < |g| => SavedRow(g[i], saved, i))
  }

  /** _load_saved on the cells of a puzzle. */
  function LoadSaved(g: Grid, saved: Json): (r: Outcome<Grid>)
    ensures r.Ok? ==> |r.value| == |g|
  {
    var n :- Limit1(|g|, saved);
    UpTo(g, SavedRows(g, saved), n)
  }

  /** _load_saved fails only on a malformed value. */
  lemma LoadSavedErrors(g: Grid, saved: Json)
    ensures LoadSaved(g, saved).Err? ==> !Rejection(LoadSaved(g, saved).error)
  {
    var n := Limit1(|g|, saved);
    if n.Ok? {
      var rows := SavedRows(g, saved);
      forall i | 0 <= i < |g|
        ensures rows[i].Err? ==> !Rejection(rows[i].error)
      {
        var sr := Index(saved, i);
        if g[i] != [] && sr.Ok? {
          var m := Limit1(|g[i]|, sr.value);
          if m.Ok? {
            UpToError(g[i], SavedCells(g[i], sr.value), m.value);
          }
        }
      }
      UpToError(g, rows, n.value);
    }
  }

  /** Which cells _load_saved reaches: rows below the number of saved
      rows, and in each the columns below the length of the saved row. */
  predicate SavedTouched(g: Grid, saved: Json, i: nat, j: nat) {
    var rows := Limit1(|g|, saved);
    rows.Ok? && i < rows.value && i < |g| && Index(saved, i).Ok? &&
    var cols := Limit1(|g[i]|, Index(saved, i).value);
    cols.Ok? && j < cols.value
  }

  /** What _load_saved does to each cell: a reached cell takes the saved
      string as its input and keeps everything else; any other cell is left
      as it was; every row keeps its length. */
  lemma LoadSavedCell(g: Grid, saved: Json, i: nat, j: nat)
    requires LoadSaved(g, saved).Ok? && i < |g| && j < |g[i]|
    ensures var r := LoadSaved(g, saved).value;
            |r[i]| == |g[i]| &&
            if SavedTouched(g, saved, i, j) then
              var e := Index(Index(saved, i).value, j);
              e.Ok? && e.value.JStr? && r[i][j] == g[i][j].(userInput := e.value.s)
            else r[i][j] == g[i][j]
  {
    var n := Limit1(|g|, saved).value;
    UpToAt(g, SavedRows(g, saved), n, i);
    if i < n {
      var sr := Index(saved, i).value;
      var m := Limit1(|g[i]|, sr).value;
      UpToAt(g[i], SavedCells(g[i], sr), m, j);
    }
  }

  /** _load_saved keeps the shape of the grid. */
  lemma LoadSavedRect(g: Grid, saved: Json, w: int, h: int)
    requires Rect(g, w, h) && LoadSaved(g, saved).Ok?
    ensures Rect(LoadSaved(g, saved).value, w, h)
  {
    var n := Limit1(|g|, saved).value;
    var r := LoadSaved(g, saved).value;
    forall i | 0 <= i < |r|
      ensures |r[i]| == w
    {
      UpToAt(g, SavedRows(g, saved), n, i);
    }
  }

  /** The inner loop of _load_saved over one row. */
  method SavedRowCells(row: seq<Cell>, saved: Json, i: nat) returns (out: Outcome<seq<Cell>>)
    ensures out == SavedRow(row, saved, i)
  {
    if row == [] {
      return Ok(row);
    }
    var sr := Index(saved, i);
    if sr.Err? {
      return Err(Raises);
    }
    ghost var steps := SavedCells(row, sr.value);
    var cells := row;
    var j := 0;
    while j < |row|
      invariant 0 <= j <= |row|
      invariant j == 0 || (Limit1(|row|, sr.value).Ok? && j <= Limit1(|row|, sr.value).value)
      invariant UpTo(row, steps, j) == Ok(cells)
    {
      var ls := Len(sr.value);
      if ls.Err? {
        Limit1Fails(|row|, sr.value, j);
        return Err(Raises);
      }
      if j >= ls.value {
        Limit1Stops(|row|, sr.value, j);
        return Ok(cells);
      }
      Limit1Runs(|row|, sr.value, j);
      var t := SavedStep(sr.value, j);
      assert steps[j] == if t.Err? then Err(t.error) else Ok(row[j].(userInput := t.value));
      if t.Err? {
        UpToStop(row, steps, j, Limit1(|row|, sr.value).value);
        return Err(t.error);
      }
      UpToNext(row, steps, j, cells);
      cells := cells[j := row[j].(userInput := t.value)];
      j := j + 1;
    }
    return Ok(cells);
  }

  /** The outer loop of _load_saved. */
  method LoadSavedCells(g: Grid, saved: Json) returns (out: Outcome<Grid>)
    ensures out == LoadSaved(g, saved)
  {
    ghost var steps := SavedRows(g, saved);
    var cells := g;
    var i := 0;
    while i < |g|
      invariant 0 <= i <= |g|
      invariant i == 0 || (Limit1(|g|, saved).Ok? && i <= Limit1(|g|, saved).value)
      invariant UpTo(g, steps, i) == Ok(cells)
    {
      var ls := Len(saved);
      if ls.Err? {
        Limit1Fails(|g|, saved, i);
        return Err(Raises);
      }
      if i >= ls.value {
        Limit1Stops(|g|, saved, i);
        return Ok(cells);
      }
      Limit1Runs(|g|, saved, i);
      var row := SavedRowCells(g[i], saved, i);
      assert steps[i] == row;
      if row.Err? {
        UpToStop(g, steps, i, Limit1(|g|, saved).value);
        return Err(row.error);
      }
      UpToNext(g, steps, i, cells);
      cells := cells[i := row.value];
      i := i + 1;
    }
    return Ok(cells);
  }
}
