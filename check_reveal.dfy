/** The check and reveal commands (class Check_and_Reveal in
    src/ui/check_and_reveal.py), each proved equal to its transition in
    CheckRevealSpec. The object holds the widget and the puzzle the window
    created it with, which is the puzzle the widget shows. Warnings and
    repaints are left out. */
module CheckReveal {
  import opened Base
  import opened Krossword
  import opened Geometry
  import opened EditSpec
  import opened CheckRevealSpec
  import opened GridMaps
  import opened Widget

  class CheckAndReveal {
    var widget: KrossWordWidget
    var currentPuzzle: Puzzle?

    constructor (w: KrossWordWidget, p: Puzzle?)
      ensures widget == w && currentPuzzle == p
    {
      widget := w;
      currentPuzzle := p;
    }

    /** The widget shows the puzzle this object was created with. */
    predicate Linked()
      reads this, widget
    {
      widget.puzzle == currentPuzzle
    }

    /** The reveal of one open cell shared by reveal_current_letter and
        the loop of reveal_current_word: the cell takes its solution, is
        counted in if it was blank, and the completion check runs. */
    method RevealCell(p: Pos)
      requires widget.Valid() && InGrid(widget.puzzle.width, widget.puzzle.height, p)
      modifies widget, widget.puzzle
      ensures widget.puzzle == old(widget.puzzle)
      ensures widget.Snap() == RevealAt(old(widget.Snap()), p)
    {
      var cell := widget.puzzle.cells[p.row][p.col];
      if cell.isBlack {
        return;
      }
      if cell.userInput == "" {
        widget.WriteCell(p, cell.Reveal());
        widget.FillCellSignals(false);
      } else {
        widget.WriteCell(p, cell.Reveal());
      }
      widget.CheckFilledPuzzle();
    }

    /** reveal_current_letter: nothing without a puzzle or on a black cell;
        otherwise the reveal of the cell under the cursor. */
    method RevealCurrentLetter()
      requires Linked() && (currentPuzzle != null ==> widget.Valid())
      modifies widget, currentPuzzle
      ensures Linked()
      ensures currentPuzzle == null ==> unchanged(widget)
      ensures currentPuzzle != null ==> widget.Snap() == RevealAt(old(widget.Snap()), old(widget.Snap()).Cur())
    {
      if currentPuzzle == null {
        return;
      }
      var cell := widget.GetCurrentCell();
      if cell.None? || cell.value.isBlack {
        return;
      }
      RevealCell(Pos(widget.selectedRow, widget.selectedCol));
    }

    /** The loop of reveal_current_word: the listed positions revealed one
        after another. */
    method RevealPositions(cells: seq<Pos>)
      requires widget.Valid() && AllInGrid(widget.Snap(), cells)
      modifies widget, widget.puzzle
      ensures widget.puzzle == old(widget.puzzle)
      ensures widget.Snap() == RevealSeq(old(widget.Snap()), cells)
    {
      ghost var s0 := widget.Snap();
      assert cells[..0] == [];
      var k := 0;
      while k < |cells|
        invariant 0 <= k <= |cells|
        invariant widget.puzzle == old(widget.puzzle)
        invariant AllInGrid(s0, cells[..k])
        invariant widget.Snap() == RevealSeq(s0, cells[..k])
      {
        var p := cells[k];
        assert cells[..k + 1] == cells[..k] + [p];
        RevealSeqSnoc(s0, cells[..k], p);
        RevealCell(p);
        k := k + 1;
      }
      assert cells[..k] == cells;
    }

    /** reveal_current_word: each open cell of the word under the cursor in
        turn, with the completion check after each. */
    method RevealCurrentWord()
      requires Linked() && (currentPuzzle != null ==> widget.Valid())
      modifies widget, currentPuzzle
      ensures Linked()
      ensures currentPuzzle == null ==> unchanged(widget)
      ensures currentPuzzle != null ==> widget.Snap() == RevealWord(old(widget.Snap()))
    {
      var position := widget.GetCurrentPosition();
      if position.None? {
        return;
      }
      var cells := widget.GetCurrentWordCoordinates();
      WordCellsInGrid(widget.Snap());
      RevealPositions(cells);
    }

    /** reveal_answers: every open cell with a solution shows it, then the
        clues are greyed, the fillable count is announced, and the solved
        message goes out. The count is stored in `filled_cells`, which
        nothing reads, so the widget's counter keeps its old value. Without
        a puzzle, the first line raises AttributeError before anything has
        changed. */
    method RevealAnswers()
      requires Linked()
      modifies widget, currentPuzzle
      ensures Linked()
      ensures currentPuzzle == null ==> unchanged(widget)
      ensures currentPuzzle != null ==> widget.Snap() == RevealAnswersAsWritten(old(widget.Snap()))
    {
      if currentPuzzle == null {
        return;
      }
      ghost var g0 := currentPuzzle.cells;
      MapRowsEnds(g0, RevealSolvable);
      var i := 0;
      while i < |currentPuzzle.cells|
        modifies (if currentPuzzle == null then {} else {currentPuzzle})`cells
        invariant 0 <= i <= |g0|
        invariant currentPuzzle.cells == MapRows(g0, RevealSolvable, i)
      {
        MapRowsStep(g0, RevealSolvable, i);
        var row := currentPuzzle.cells[i];
        MapFirstEnds(row, RevealSolvable);
        var j := 0;
        while j < |row|
          modifies {}
          invariant 0 <= j <= |row| == |g0[i]|
          invariant row == MapFirst(g0[i], RevealSolvable, j)
        {
          MapFirstStep(g0[i], RevealSolvable, j);
          var cell := row[j];
          if !cell.isBlack && cell.solution != "" {
            row := row[j := cell.Reveal()];
          } else {
            assert row[j := cell] == row;
          }
          j := j + 1;
        }
        currentPuzzle.cells := currentPuzzle.cells[i := row];
        i := i + 1;
      }
      widget.events := widget.events + [GreyAllClues];
      widget.events := widget.events + [CellCountChanged(currentPuzzle.fillableCellCount)];
      widget.events := widget.events + [DisplayMessage(true)];
    }

    /** check_current_letter: the verdict on the cell under the cursor;
        nothing without a puzzle or off the grid. */
    method CheckCurrentLetter()
      requires widget.puzzle != null ==> widget.HasGrid()
      modifies (if widget.puzzle == null then {} else {widget.puzzle})`cells
      ensures widget.puzzle != null ==>
        unchanged(widget.puzzle`width, widget.puzzle`height, widget.puzzle`acrossClues,
                  widget.puzzle`downClues, widget.puzzle`fillableCellCount)
      ensures widget.puzzle != null && InBounds(widget.puzzle.width, widget.puzzle.height, widget.selectedRow, widget.selectedCol) ==>
        var g := old(widget.puzzle.cells);
        widget.puzzle.cells == g[widget.selectedRow := g[widget.selectedRow][widget.selectedCol :=
                                 Checked(g[widget.selectedRow][widget.selectedCol])]]
      ensures widget.puzzle != null && !InBounds(widget.puzzle.width, widget.puzzle.height, widget.selectedRow, widget.selectedCol) ==>
        widget.puzzle.cells == old(widget.puzzle.cells)
    {
      var cell := widget.GetCurrentCell();
      if cell.None? {
        return;
      }
      var r, c := widget.selectedRow, widget.selectedCol;
      if cell.value.isBlack || cell.value.userInput == "" {
        assert widget.puzzle.cells[r][c := cell.value] == widget.puzzle.cells[r];
        return;
      }
      if cell.value.IsCorrect() {
        widget.puzzle.cells := widget.puzzle.cells[r := widget.puzzle.cells[r][c := cell.value.(corrected := true)]];
      } else {
        widget.puzzle.cells := widget.puzzle.cells[r := widget.puzzle.cells[r][c := cell.value.(incorrect := true)]];
      }
    }

    /** check_current_word: the verdict on each cell of the word under the
        cursor; nothing without a puzzle. */
    method CheckCurrentWord()
      requires Linked() && (currentPuzzle != null ==> widget.Valid())
      modifies (if currentPuzzle == null then {} else {currentPuzzle})`cells
      ensures currentPuzzle != null ==> widget.Snap() == CheckWord(old(widget.Snap()))
    {
      if currentPuzzle == null {
        return;
      }
      var position := widget.GetCurrentPosition();
      var cells := widget.GetCurrentWordCoordinates();
      WordCellsOpen(widget.Snap());
      currentPuzzle.cells := CheckCells(currentPuzzle.cells, cells);
    }

    /** check_answers: the verdict on every cell of the grid; nothing
        without a puzzle. */
    method CheckAnswers()
      modifies (if currentPuzzle == null then {} else {currentPuzzle})`cells
      ensures currentPuzzle != null ==> currentPuzzle.cells == CheckAll(old(currentPuzzle.cells))
      ensures currentPuzzle != null ==>
        unchanged(currentPuzzle`width, currentPuzzle`height, currentPuzzle`acrossClues,
                  currentPuzzle`downClues, currentPuzzle`fillableCellCount)
    {
      if currentPuzzle == null {
        return;
      }
      ghost var g0 := currentPuzzle.cells;
      MapRowsEnds(g0, Checked);
      var i := 0;
      while i < |currentPuzzle.cells|
        modifies (if currentPuzzle == null then {} else {currentPuzzle})`cells
        invariant 0 <= i <= |g0|
        invariant currentPuzzle.cells == MapRows(g0, Checked, i)
      {
        MapRowsStep(g0, Checked, i);
        var row := currentPuzzle.cells[i];
        MapFirstEnds(row, Checked);
        var j := 0;
        while j < |row|
          modifies {}
          invariant 0 <= j <= |row| == |g0[i]|
          invariant row == MapFirst(g0[i], Checked, j)
        {
          MapFirstStep(g0[i], Checked, j);
          var cell := row[j];
          if cell.isBlack || cell.userInput == "" {
            assert row[j := cell] == row;
          } else if cell.IsCorrect() {
            row := row[j := cell.(corrected := true)];
          } else {
            row := row[j := cell.(incorrect := true)];
          }
          j := j + 1;
        }
        currentPuzzle.cells := currentPuzzle.cells[i := row];
        i := i + 1;
      }
    }
  }

  /** The loop of check_current_word: the verdict on each listed cell in
      turn, black and blank cells passed over. */
  method CheckCells(g: Grid, ps: seq<Pos>) returns (r: Grid)
    requires forall i :: 0 <= i < |ps| ==> 0 <= ps[i].row < |g| && 0 <= ps[i].col < |g[ps[i].row]|
    ensures r == MapAt(g, ps, Checked)
  {
    r := g;
    MapAtNone(g, Checked);
    assert ps[..0] == [];
    var k := 0;
    while k < |ps|
      invariant 0 <= k <= |ps|
      invariant r == MapAt(g, ps[..k], Checked)
    {
      var p := ps[k];
      assert ps[..k + 1] == ps[..k] + [p];
      CheckedIdempotent(At(g, p));
      MapAtSnoc(g, ps[..k], p, Checked);
      var cell := r[p.row][p.col];
      if cell.isBlack || cell.userInput == "" {
        assert r[p.row][p.col := cell] == r[p.row];
      } else if cell.IsCorrect() {
        r := r[p.row := r[p.row][p.col := cell.(corrected := true)]];
      } else {
        r := r[p.row := r[p.row][p.col := cell.(incorrect := true)]];
      }
      k := k + 1;
    }
    assert ps[..k] == ps;
  }
}
