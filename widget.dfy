/** The crossword widget (class KrossWordWidget in
    src/ui/crossword_widget.py) without painting: its cursor, mode and
    counters over a puzzle it edits in place. Every method is proved equal, on
    the snapshot Snap(), to the transition of EditSpec or TabSpec it
    implements. Qt signals become appended entries of `events`. */
module Widget {
  import opened Base
  import opened Krossword
  import opened Geometry
  import opened EditSpec
  import opened TabSpec

  class KrossWordWidget {
    var puzzle: Puzzle?
    var selectedRow: int
    var selectedCol: int
    var highlightMode: Direction
    var pencilMode: bool
    var cellsFilled: int
    var puzzleSolved: bool
    var dirty: bool
    /** The notifications emitted so far, oldest first. */
    var events: seq<Event>

    /** The widget and its puzzle as one value. */
    function Snap(): Session
      requires puzzle != null
      reads this, puzzle
    {
      Session(puzzle.cells, puzzle.width, puzzle.height, puzzle.acrossClues, puzzle.downClues,
              puzzle.fillableCellCount, selectedRow, selectedCol, highlightMode, pencilMode,
              cellsFilled, puzzleSolved, dirty, events)
    }

    /** A puzzle is loaded, its grid is rectangular, and the cursor is on it. */
    predicate Valid()
      reads this, puzzle
    {
      puzzle != null && Good(Snap())
    }

    /** A puzzle with a rectangular grid is loaded. */
    predicate HasGrid()
      reads this, puzzle
    {
      puzzle != null && Rect(puzzle.cells, puzzle.width, puzzle.height)
    }

    constructor ()
      ensures puzzle == null && selectedRow == 0 && selectedCol == 0 && highlightMode == Across
      ensures !pencilMode && cellsFilled == 0 && !puzzleSolved && !dirty && events == []
    {
      puzzle := null;
      selectedRow, selectedCol := 0, 0;
      highlightMode := Across;
      pencilMode := false;
      cellsFilled := 0;
      puzzleSolved := false;
      dirty := false;
      events := [];
    }

    /** Replaces one cell of the puzzle's grid. */
    method WriteCell(p: Pos, x: Cell)
      requires Valid() && InGrid(puzzle.width, puzzle.height, p)
      modifies puzzle`cells
      ensures Snap() == PutCell(old(Snap()), p, x)
    {
      puzzle.cells := puzzle.cells[p.row := puzzle.cells[p.row][p.col := x]];
    }

    // ---------------------------------------------------------------
    // Loading a puzzle
    // ---------------------------------------------------------------

    /** select_first_square: the first open cell in row-major order. It
        returns false where the source raises because every cell is black;
        the cursor then stays where it was. */
    method SelectFirstSquare() returns (ok: bool)
      requires HasGrid()
      modifies this`selectedRow, this`selectedCol
      ensures ok <==> FirstSquare(puzzle.cells, puzzle.width, puzzle.height).Some?
      ensures ok ==> Snap() == MoveTo(old(Snap()), FirstSquare(puzzle.cells, puzzle.width, puzzle.height).value)
      ensures !ok ==> Snap() == old(Snap())
    {
      var p := FirstOpenSquare(puzzle.cells, puzzle.width, puzzle.height);
      if p.Some? {
        selectedRow, selectedCol := p.value.row, p.value.col;
      }
      return p.Some?;
    }

    /** set_puzzle: across mode, cursor reset, then the first open square. */
    method SetPuzzle(p: Puzzle) returns (ok: bool)
      requires Rect(p.cells, p.width, p.height)
      modifies this
      ensures puzzle == p && highlightMode == Across
      ensures ok <==> FirstSquare(p.cells, p.width, p.height).Some?
      ensures ok ==> Pos(selectedRow, selectedCol) == FirstSquare(p.cells, p.width, p.height).value
      ensures !ok ==> selectedRow == 0 && selectedCol == 0
      ensures pencilMode == old(pencilMode) && cellsFilled == old(cellsFilled)
      ensures puzzleSolved == old(puzzleSolved) && dirty == old(dirty) && events == old(events)
      ensures ok && p.WellFormed() ==> Valid()
    {
      highlightMode := Across;
      selectedRow, selectedCol := 0, 0;
      puzzle := p;
      ok := SelectFirstSquare();
    }

    // ---------------------------------------------------------------
    // Queries
    // ---------------------------------------------------------------

    function GetCurrentCell(): (c: Option<Cell>)
      requires puzzle != null ==> Rect(puzzle.cells, puzzle.width, puzzle.height)
      reads this, puzzle
      ensures c.Some? <==> puzzle != null && InBounds(puzzle.width, puzzle.height, selectedRow, selectedCol)
      ensures c.Some? ==> c.value == At(puzzle.cells, Pos(selectedRow, selectedCol))
    {
      if puzzle != null && 0 <= selectedRow < puzzle.height && 0 <= selectedCol < puzzle.width then
        Some(puzzle.cells[selectedRow][selectedCol])
      else None
    }

    function GetCurrentPosition(): (p: Option<Pos>)
      reads this
      ensures p.Some? <==> puzzle != null
      ensures p.Some? ==> p.value == Pos(selectedRow, selectedCol)
    {
      if puzzle == null then None else Some(Pos(selectedRow, selectedCol))
    }

    /** _get_word_bounds: the first and last cell of the word through
        (row, col), None without a puzzle. The walk back is the loop of
        find_word_start. */
    method GetWordBounds(row: int, col: int, d: Direction) returns (b: Option<(Pos, Pos)>)
      requires puzzle != null ==> HasGrid() && InBounds(puzzle.width, puzzle.height, row, col)
      ensures puzzle == null ==> b.None?
      ensures puzzle != null ==>
        b == Some(WordBounds(puzzle.cells, puzzle.width, puzzle.height, d, Pos(row, col)))
    {
      if puzzle == null {
        return None;
      }
      var start := FindWordStart(row, col, d);
      var end := FindWordEnd(row, col, d);
      return Some((start, end));
    }

    /** find_word_start (and its copies _get_word_start and
        _find_word_start_in_widget): the first cell of the word through
        (row, col). */
    method FindWordStart(row: int, col: int, d: Direction) returns (st: Pos)
      requires HasGrid() && InBounds(puzzle.width, puzzle.height, row, col)
      ensures st == WordStart(puzzle.cells, puzzle.width, puzzle.height, d, Pos(row, col))
    {
      WordBoundsOnLine(puzzle.cells, puzzle.width, puzzle.height, d, Pos(row, col));
      if d == Across {
        var sc := WalkLeft(puzzle.cells, puzzle.width, puzzle.height, row, col);
        st := Pos(row, sc);
      } else {
        var sr := WalkUp(puzzle.cells, puzzle.width, puzzle.height, row, col);
        st := Pos(sr, col);
      }
    }

    /** The second half of _get_word_bounds: the last cell of the word
        through (row, col). */
    method FindWordEnd(row: int, col: int, d: Direction) returns (en: Pos)
      requires HasGrid() && InBounds(puzzle.width, puzzle.height, row, col)
      ensures en == WordBounds(puzzle.cells, puzzle.width, puzzle.height, d, Pos(row, col)).1
    {
      WordBoundsOnLine(puzzle.cells, puzzle.width, puzzle.height, d, Pos(row, col));
      if d == Across {
        var ec := WalkRight(puzzle.cells, puzzle.width, puzzle.height, row, col);
        en := Pos(row, ec);
      } else {
        var er := WalkDown(puzzle.cells, puzzle.width, puzzle.height, row, col);
        en := Pos(er, col);
      }
    }

    /** find_clue_for_cell: the clue numbered by the word's first cell. */
    method FindClueForCell(row: int, col: int, d: Direction) returns (r: Option<Clue>)
      requires Valid() && InBounds(puzzle.width, puzzle.height, row, col)
      ensures r == ClueForCell(Snap(), Pos(row, col), d)
    {
      var st := FindWordStart(row, col, d);
      var n := puzzle.cells[st.row][st.col].clueNumber;
      if n.Some? && n.value != 0 {
        return puzzle.GetClue(n.value, d);
      }
      return None;
    }

    /** word_filled (start column first, as in the source): no open cell from
        the start on, up to a black cell or the edge, lacks input. Without a
        direction the current mode is used. */
    method WordFilledAt(startCol: int, startRow: int, dir: Option<Direction>) returns (filled: bool)
      requires HasGrid() && InBounds(puzzle.width, puzzle.height, startRow, startCol)
      ensures filled == WordFilled(puzzle.cells, puzzle.width, puzzle.height, dir.GetOr(highlightMode),
                                   Pos(startRow, startCol))
    {
      var d := dir.GetOr(highlightMode);
      filled := RunFilledOnGrid(puzzle.cells, puzzle.width, puzzle.height, d, Pos(startRow, startCol));
    }

    /** get_current_word_coordinates: the cells of the word under the
        cursor, in order; none without a puzzle. */
    method GetCurrentWordCoordinates() returns (ps: seq<Pos>)
      requires puzzle != null ==> Valid()
      ensures puzzle == null ==> ps == []
      ensures puzzle != null ==> ps == WordCells(Snap())
    {
      if puzzle == null {
        return [];
      }
      var b := GetWordBounds(selectedRow, selectedCol, highlightMode);
      ps := Coordinates(highlightMode, b.value.0, b.value.1);
    }

    /** _is_cell_empty. */
    predicate IsCellEmpty(row: int, col: int)
      reads this, puzzle
      requires HasGrid()
    {
      EditSpec.IsCellEmpty(Snap(), row, col)
    }

    // ---------------------------------------------------------------
    // Cursor moves
    // ---------------------------------------------------------------

    /** _handle_directional_move (and the _move_left/right/up/down wrappers
        that call it with a unit step). */
    method HandleDirectionalMove(dr: int, dc: int)
      requires Valid()
      requires (dr == 0 && (dc == 1 || dc == -1)) || (dc == 0 && (dr == 1 || dr == -1))
      modifies this`selectedRow, this`selectedCol
      ensures Valid()
      ensures Snap() == Step(old(Snap()), if dr == 0 then Across else Down, dr + dc > 0)
    {
      var q := StepOnGrid(puzzle.cells, puzzle.width, puzzle.height, if dr == 0 then Across else Down,
                          Pos(selectedRow, selectedCol), dr + dc > 0);
      if q.Some? {
        selectedRow, selectedCol := q.value.row, q.value.col;
      }
    }

    /** _skip_black_cells: forward in row-major order until an open cell; past
        the last cell the cursor goes to (0, 0). */
    method SkipBlackCells()
      requires Valid()
      modifies this`selectedRow, this`selectedCol
      ensures Snap() == SkipBlack(old(Snap()))
    {
      selectedRow, selectedCol := SkipForward(puzzle.cells, puzzle.width, puzzle.height, selectedRow, selectedCol);
    }

    /** _skip_black_cells_reverse: backward in row-major order until an open
        cell; before the first cell the cursor goes to the last one. */
    method SkipBlackCellsReverse()
      requires Valid()
      modifies this`selectedRow, this`selectedCol
      ensures Snap() == SkipBlackReverse(old(Snap()))
    {
      selectedRow, selectedCol := SkipBackward(puzzle.cells, puzzle.width, puzzle.height, selectedRow, selectedCol);
    }

    /** _skip_black_cells_up: backward in column-major order until an open
        cell; before the first cell the cursor goes to the last one. */
    method SkipBlackCellsUp()
      requires Valid()
      modifies this`selectedRow, this`selectedCol
      ensures Snap() == SkipBlackUp(old(Snap()))
    {
      selectedRow, selectedCol := SkipUpward(puzzle.cells, puzzle.width, puzzle.height, selectedRow, selectedCol);
    }

    /** move_right: one column right, then skip black cells, unless already
        on the last column. */
    method MoveRight()
      requires Valid()
      modifies this`selectedRow, this`selectedCol
      ensures Snap() == EditSpec.MoveRight(old(Snap()))
    {
      if selectedCol < puzzle.width - 1 {
        selectedCol := selectedCol + 1;
        SkipBlackCells();
      }
    }

    /** move_down: one row down, then skip black cells, unless already on the
        last row. */
    method MoveDown()
      requires Valid()
      modifies this`selectedRow, this`selectedCol
      ensures Snap() == EditSpec.MoveDown(old(Snap()))
    {
      if selectedRow < puzzle.height - 1 {
        selectedRow := selectedRow + 1;
        SkipBlackCells();
      }
    }

    /** _move_to_next_empty_cell_across / _down: the next open cell without
        input further along the line in d. */
    method MoveToNextEmptyCell(d: Direction)
      requires Valid()
      modifies this`selectedRow, this`selectedCol
      ensures Snap() == NextEmptyCell(old(Snap()), d)
    {
      var p := Pos(selectedRow, selectedCol);
      var j := NextBlankOnGrid(puzzle.cells, puzzle.width, puzzle.height, d, Fixed(d, p), Idx(d, p));
      if j.Some? {
        var q := PosAt(d, Fixed(d, p), j.value);
        selectedRow, selectedCol := q.row, q.col;
      }
    }

    /** move_to_next_cell: the search above in the current mode. */
    method MoveToNextCell()
      requires Valid()
      modifies this`selectedRow, this`selectedCol
      ensures Snap() == NextEmptyCell(old(Snap()), old(highlightMode))
    {
      MoveToNextEmptyCell(highlightMode);
    }

    /** _move_to_previous_cell: the previous open cell on the line through
        the cursor, else the last open cell of the previous row (across) or
        column (down), else no move. */
    method MoveToPreviousCell()
      requires Valid()
      modifies this`selectedRow, this`selectedCol
      ensures Snap() == PrevCell(old(Snap()))
    {
      var q := PrevOnGrid(puzzle.cells, puzzle.width, puzzle.height, highlightMode, Pos(selectedRow, selectedCol));
      if q.Some? {
        selectedRow, selectedCol := q.value.row, q.value.col;
      }
      // otherwise the cursor is restored to where it was
    }

    /** _toggle_highlight_mode. */
    method ToggleHighlightMode()
      requires Valid()
      modifies this`highlightMode
      ensures Snap() == ToggleMode(old(Snap()))
    {
      highlightMode := if highlightMode == Across then Down else Across;
    }

    /** set_pencil_mode: flips pencil mode, marks the puzzle modified and
        returns the new mode. */
    method SetPencilMode() returns (p: bool)
      modifies this`pencilMode, this`dirty
      ensures pencilMode == !old(pencilMode) && dirty && p == pencilMode
    {
      pencilMode := !pencilMode;
      dirty := true;
      return pencilMode;
    }

    /** mousePressEvent on the cell (row, col): ignored without a puzzle,
        off the grid or on a black cell; otherwise the selected cell toggles
        the mode and another cell is selected, in the same mode. */
    method Click(row: int, col: int)
      requires puzzle != null ==> Valid()
      modifies this`selectedRow, this`selectedCol, this`highlightMode, this`dirty
      ensures puzzle == null ==> unchanged(this)
      ensures puzzle != null ==> Valid() && Snap() == EditSpec.Click(old(Snap()), row, col)
    {
      if puzzle == null {
        return;
      }
      if 0 <= row < puzzle.height && 0 <= col < puzzle.width {
        if !puzzle.cells[row][col].isBlack {
          if row == selectedRow && col == selectedCol {
            highlightMode := if highlightMode == Across then Down else Across;
          } else {
            selectedRow, selectedCol := row, col;
          }
          dirty := true;
        }
      }
    }

    // ---------------------------------------------------------------
    // Fill signals and completion
    // ---------------------------------------------------------------

    /** check_filled_word: a greyout notification for each word through the
        cursor that is filled. */
    method CheckFilledWord()
      requires Valid()
      modifies this`events
      ensures Valid()
      ensures Snap() == old(Snap()).(events := old(events) + GreyEvents(puzzle.cells, puzzle.width,
                                      puzzle.height, Pos(selectedRow, selectedCol), true))
    {
      var e := GreyPasses(puzzle.cells, puzzle.width, puzzle.height, Pos(selectedRow, selectedCol), true);
      events := events + e;
    }

    /** ungrey_text: an ungrey notification for both words through the
        cursor. */
    method UngreyText()
      requires Valid()
      modifies this`events
      ensures Valid()
      ensures Snap() == old(Snap()).(events := old(events) + GreyEvents(puzzle.cells, puzzle.width,
                                      puzzle.height, Pos(selectedRow, selectedCol), false))
    {
      var e := GreyPasses(puzzle.cells, puzzle.width, puzzle.height, Pos(selectedRow, selectedCol), false);
      events := events + e;
    }

    /** fill_cell_signals: count the cell in (or out), re-grey (or ungrey)
        both words through the cursor, announce the new count. */
    method FillCellSignals(minus: bool)
      requires Valid()
      modifies this`cellsFilled, this`events
      ensures Snap() == FillSignals(old(Snap()), minus)
    {
      if minus {
        CountOut();
      } else {
        CountIn();
      }
    }

    /** The minus branch of fill_cell_signals. */
    method CountOut()
      requires Valid()
      modifies this`cellsFilled, this`events
      ensures Snap() == FillSignals(old(Snap()), true)
    {
      cellsFilled := cellsFilled - 1;
      var e := GreyPasses(puzzle.cells, puzzle.width, puzzle.height, Pos(selectedRow, selectedCol), false);
      events := events + e + [CellCountChanged(cellsFilled)];
    }

    /** The other branch of fill_cell_signals. */
    method CountIn()
      requires Valid()
      modifies this`cellsFilled, this`events
      ensures Snap() == FillSignals(old(Snap()), false)
    {
      cellsFilled := cellsFilled + 1;
      var e := GreyPasses(puzzle.cells, puzzle.width, puzzle.height, Pos(selectedRow, selectedCol), true);
      events := events + e + [CellCountChanged(cellsFilled)];
    }

    /** check_filled_puzzle. */
    method CheckFilledPuzzle()
      requires Valid()
      modifies this`puzzleSolved, this`events
      ensures Snap() == EditSpec.CheckFilledPuzzle(old(Snap()))
    {
      if cellsFilled == puzzle.fillableCellCount {
        var ok := AllCorrectOnGrid(puzzle.cells);
        if !ok {
          events := events + [DisplayMessage(false)];
          return;
        }
        puzzleSolved := true;
        events := events + [DisplayMessage(true)];
      }
    }

    // ---------------------------------------------------------------
    // Editing
    // ---------------------------------------------------------------

    /** _loop_to_empty_in_entry. */
    method LoopToEmptyInEntry(isLast: bool, next: bool)
      requires Valid()
      modifies this`selectedRow, this`selectedCol
      ensures Snap() == LoopToEmpty(old(Snap()), isLast, next)
    {
      var q := EmptyInWordOnGrid(puzzle.cells, puzzle.width, puzzle.height, highlightMode,
                                 Pos(selectedRow, selectedCol), next);
      if q.Some? {
        selectedRow, selectedCol := q.value.row, q.value.col;
        return;
      }
      if next && !isLast {
        if highlightMode == Down {
          HandleDirectionalMove(1, 0);
        } else {
          HandleDirectionalMove(0, 1);
        }
      }
    }

    /** The cell under the cursor. */
    function Here(): Cell
      requires Valid()
      reads this, puzzle
    {
      puzzle.cells[selectedRow][selectedCol]
    }

    /** Clears the cell under the cursor, counts it out, then drops its
        incorrect mark. */
    method ClearHereCell()
      requires Valid()
      modifies puzzle`cells, this`cellsFilled, this`events
      ensures Snap() == ClearHere(old(Snap()))
    {
      var p := Pos(selectedRow, selectedCol);
      WriteCell(p, Here().(userInput := "", incorrect := false));
      FillCellSignals(true);
    }

    /** The cell edits of _handle_letter_input for the character ch. */
    method WriteLetter(ch: char, rebus: bool)
      requires Valid()
      modifies puzzle`cells, this`cellsFilled, this`events
      ensures Snap() == Written(old(Snap()), ch, rebus)
    {
      var p := Pos(selectedRow, selectedCol);
      var cell := Here();
      WriteCell(p, cell.(userInput := if rebus then cell.userInput + [ch] else [ch],
                         pencilled := pencilMode, incorrect := false));
      if cell.userInput == "" {
        FillCellSignals(false);
      }
    }

    /** The move of _handle_letter_input after the edits: the last-character
        test uses the end of the word from _get_word_bounds. */
    method AdvanceAfterLetter(wasEmpty: bool, rebus: bool)
      requires Valid()
      modifies this`selectedRow, this`selectedCol
      ensures Snap() == Advance(old(Snap()), wasEmpty, rebus)
    {
      if rebus {
        return;
      }
      var b := GetWordBounds(selectedRow, selectedCol, highlightMode);
      WordBoundsOnLine(puzzle.cells, puzzle.width, puzzle.height, highlightMode, Pos(selectedRow, selectedCol));
      var isLast := if highlightMode == Across then selectedCol == b.value.1.col
                    else selectedRow == b.value.1.row;
      assert isLast == AtWordEnd(Snap());
      if wasEmpty {
        LoopToEmptyInEntry(isLast, true);
      } else if !isLast {
        if highlightMode == Down {
          HandleDirectionalMove(1, 0);
        } else {
          HandleDirectionalMove(0, 1);
        }
      }
    }

    /** _handle_letter_input. */
    method HandleLetterInput(key: int, rebus: bool)
      requires Valid()
      modifies puzzle`cells, this`selectedRow, this`selectedCol, this`cellsFilled, this`events,
               this`puzzleSolved
      ensures Snap() == LetterKey(old(Snap()), key, rebus)
    {
      var cell := Here();
      if cell.isBlack || puzzleSolved {
        return;
      }
      if cell.corrected {
        if highlightMode == Down {
          HandleDirectionalMove(1, 0);
        } else {
          HandleDirectionalMove(0, 1);
        }
        return;
      }
      var ch := "";
      if Key0 <= key <= KeyZ {
        ch := [UpperChar(key as char)];
      }
      if ch != "" {
        var wasEmpty := cell.userInput == "";
        WriteLetter(ch[0], rebus);
        AdvanceAfterLetter(wasEmpty, rebus);
      }
      CheckFilledPuzzle();
    }

    /** _handle_delete (Backspace and Delete). */
    method HandleDelete()
      requires Valid()
      modifies puzzle`cells, this`selectedRow, this`selectedCol, this`cellsFilled, this`events
      ensures Snap() == Delete(old(Snap()))
    {
      var cell := Here();
      if cell.isBlack {
        return;
      }
      if cell.userInput != "" && !cell.corrected {
        ClearHereCell();
        return;
      }
      var originalRow, originalCol := selectedRow, selectedCol;
      MoveToPreviousCell();
      if (selectedRow, selectedCol) != (originalRow, originalCol) {
        var prev := Here();
        if !prev.isBlack && !prev.corrected {
          if prev.userInput != "" {
            ClearHereCell();
          } else {
            WriteCell(Pos(selectedRow, selectedCol), prev.(incorrect := false));
          }
        }
      }
    }

    // ---------------------------------------------------------------
    // Keys
    // ---------------------------------------------------------------

    /** _move_to_next_entry_start. It returns false where the source raises
        an IndexError (no clue in either list, or the Shift+Tab gap), leaving
        the mode the loops had set by then. */
    method MoveToNextEntryStart(shift: bool) returns (ok: bool)
      requires Valid()
      modifies this`selectedRow, this`selectedCol, this`highlightMode
      ensures Snap() == Tab(old(Snap()), shift)
      ensures ok <==> SessionTarget(old(Snap()), shift).Moved?
    {
      var t := TabScan(Snap(), shift);
      highlightMode := t.mode;
      if t.Raised? {
        return false;
      }
      var clues := if t.mode == Across then puzzle.acrossClues else puzzle.downClues;
      var next := clues[t.index];
      selectedRow, selectedCol := next.startRow, next.startCol;
      LoopToEmptyInEntry(false, false);
      return true;
    }

    /** _handle_navigation. It returns false where Tab raises. */
    method HandleNavigation(key: int, shift: bool) returns (ok: bool)
      requires Valid()
      modifies this`selectedRow, this`selectedCol, this`highlightMode
      ensures Snap() == Navigate(old(Snap()), key, shift)
      ensures ok <==> !NavigationRaises(old(Snap()), key, shift)
      ensures !ok <==> (key == KeyTab || key == KeyBacktab) &&
                       ((|puzzle.acrossClues| == 0 && |puzzle.downClues| == 0) || InShiftGap(old(Snap()), shift))
    {
      TabRaisesExactly(Snap(), shift);
      ok := true;
      if key == KeyTab || key == KeyBacktab {
        ok := MoveToNextEntryStart(shift);
      } else if key == KeyRight {
        MoveRight();
      } else if key == KeyReturn {
        MoveDown();
      }
    }

    /** The Tab/Backtab branch of the widget's event handler: without a
        puzzle only the modified flag is set. */
    method TabEvent(key: int, shift: bool)
      requires key == KeyTab || key == KeyBacktab
      requires puzzle != null ==> Valid()
      modifies this`selectedRow, this`selectedCol, this`highlightMode, this`dirty
      ensures puzzle == null ==> dirty && selectedRow == old(selectedRow) && selectedCol == old(selectedCol) &&
                                 highlightMode == old(highlightMode)
      ensures puzzle != null ==> Valid() && Snap() == TabKeyEvent(old(Snap()), key, shift)
    {
      if puzzle == null {
        dirty := true;
        return;
      }
      var ok := HandleNavigation(key, shift);
      if !ok {
        return;
      }
      dirty := true;
    }

    /** keyPressEvent; without a puzzle nothing happens. */
    method KeyPressEvent(key: int, mods: int)
      requires puzzle != null ==> Valid()
      modifies puzzle, this`selectedRow, this`selectedCol, this`highlightMode, this`cellsFilled,
               this`events, this`puzzleSolved, this`dirty
      ensures puzzle == null ==> unchanged(this)
      ensures puzzle != null ==> Valid() && Snap() == KeyPress(old(Snap()), key, mods)
    {
      if puzzle == null {
        return;
      }
      if key == KeyLeft || key == KeyRight {
        if highlightMode == Down {
          highlightMode := Across;
        } else {
          HandleDirectionalMove(0, if key == KeyRight then 1 else -1);
        }
      } else if key == KeyUp || key == KeyDown {
        if highlightMode == Across {
          highlightMode := Down;
        } else {
          HandleDirectionalMove(if key == KeyDown then 1 else -1, 0);
        }
      } else if key == KeyPeriod {
        events := events + [PencilToggleRequested];
        return;
      } else if Key0 <= key <= KeyZ {
        HandleLetterInput(key, mods != 0);
      } else if key == KeyBackspace || key == KeyDelete {
        HandleDelete();
      } else if key == KeyReturn {
        // _handle_navigation is called without its shift argument and raises
        return;
      } else if key == KeySpace {
        ToggleHighlightMode();
      } else {
        return;
      }
      dirty := true;
    }
  }

  // ---------------------------------------------------------------
  // The walks over the grid behind the word helpers
  // ---------------------------------------------------------------

  /** From (row, col) left while the cell to the left is open. */
  method WalkLeft(g: Grid, w: int, h: int, row: int, col: int) returns (sc: int)
    requires Rect(g, w, h) && InBounds(w, h, row, col)
    ensures sc == StartIdx(Line(g, w, h, Across, row), col)
  {
    ghost var L := Line(g, w, h, Across, row);
    sc := col;
    while sc > 0
      invariant 0 <= sc <= col && StartIdx(L, sc) == StartIdx(L, col)
    {
      if g[row][sc - 1].isBlack {
        break;
      }
      sc := sc - 1;
    }
  }

  /** From (row, col) up while the cell above is open. */
  method WalkUp(g: Grid, w: int, h: int, row: int, col: int) returns (sr: int)
    requires Rect(g, w, h) && InBounds(w, h, row, col)
    ensures sr == StartIdx(Line(g, w, h, Down, col), row)
  {
    ghost var L := Line(g, w, h, Down, col);
    sr := row;
    while sr > 0
      invariant 0 <= sr <= row && StartIdx(L, sr) == StartIdx(L, row)
    {
      assert L[sr - 1] == g[sr - 1][col];
      if g[sr - 1][col].isBlack {
        break;
      }
      sr := sr - 1;
    }
  }

  /** From (row, col) right while the next cell is on the grid and open. */
  method WalkRight(g: Grid, w: int, h: int, row: int, col: int) returns (ec: int)
    requires Rect(g, w, h) && InBounds(w, h, row, col)
    ensures ec == EndIdx(Line(g, w, h, Across, row), col)
  {
    ghost var L := Line(g, w, h, Across, row);
    ec := col;
    while ec < w - 1 && !g[row][ec + 1].isBlack
      invariant col <= ec < w && EndIdx(L, ec) == EndIdx(L, col)
    {
      ec := ec + 1;
    }
  }

  /** From (row, col) down while the next cell is on the grid and open. */
  method WalkDown(g: Grid, w: int, h: int, row: int, col: int) returns (er: int)
    requires Rect(g, w, h) && InBounds(w, h, row, col)
    ensures er == EndIdx(Line(g, w, h, Down, col), row)
  {
    ghost var L := Line(g, w, h, Down, col);
    er := row;
    while er < h - 1 && !g[er + 1][col].isBlack
      invariant row <= er < h && EndIdx(L, er) == EndIdx(L, row)
    {
      assert L[er + 1] == g[er + 1][col];
      er := er + 1;
    }
    assert er < h - 1 ==> L[er + 1] == g[er + 1][col];
  }

  /** The first open square in row-major order (the loops of
      select_first_square). */
  method FirstOpenSquare(g: Grid, w: int, h: int) returns (p: Option<Pos>)
    requires Rect(g, w, h)
    ensures p == FirstSquare(g, w, h)
  {
    var j := 0;
    while j < h
      invariant 0 <= j <= h
      invariant FirstWhere(g, w, h, IsOpen, j, 0) == FirstWhere(g, w, h, IsOpen, 0, 0)
    {
      var i := 0;
      while i < w
        invariant 0 <= i <= Max0(w)
        invariant FirstWhere(g, w, h, IsOpen, j, i) == FirstWhere(g, w, h, IsOpen, 0, 0)
      {
        if !g[j][i].isBlack {
          return Some(Pos(j, i));
        }
        i := i + 1;
      }
      j := j + 1;
    }
    return None;
  }

  /** The cells from start to end along d, in order (the loops of
      get_current_word_coordinates). */
  method Coordinates(d: Direction, start: Pos, end: Pos) returns (ps: seq<Pos>)
    requires Fixed(d, start) == Fixed(d, end) && Idx(d, start) <= Idx(d, end)
    ensures ps == Run(d, Fixed(d, start), Idx(d, start), Idx(d, end))
  {
    ps := [];
    if d == Across {
      var row := start.row;
      var col := start.col;
      while col < end.col + 1
        invariant start.col <= col <= end.col + 1
        invariant ps == Run(d, row, start.col, col - 1)
      {
        RunSnoc(d, row, start.col, col - 1);
        ps := ps + [Pos(row, col)];
        col := col + 1;
      }
    } else {
      var col := start.col;
      var row := start.row;
      while row < end.row + 1
        invariant start.row <= row <= end.row + 1
        invariant ps == Run(d, col, start.row, row - 1)
      {
        RunSnoc(d, col, start.row, row - 1);
        ps := ps + [Pos(row, col)];
        row := row + 1;
      }
    }
  }

  /** From index j of line k in d, the first open cell in the walking
      direction, the walk of _handle_directional_move and of
      _move_to_previous_cell. */
  method SeekOnGrid(g: Grid, w: int, h: int, d: Direction, k: int, j: int, fwd: bool) returns (r: Option<int>)
    requires Rect(g, w, h) && 0 <= k < Lines(w, h, d)
    requires if fwd then 0 <= j <= Span(w, h, d) else -1 <= j < Span(w, h, d)
    ensures r == Seek(Line(g, w, h, d, k), j, fwd)
  {
    ghost var L := Line(g, w, h, d, k);
    var n := Span(w, h, d);
    var i := j;
    while 0 <= i < n
      invariant if fwd then 0 <= i <= n else -1 <= i < n
      invariant Seek(L, i, fwd) == Seek(L, j, fwd)
      decreases if fwd then n - i else i + 1
    {
      var p := PosAt(d, k, i);
      assert L[i] == g[p.row][p.col];
      if !g[p.row][p.col].isBlack {
        return Some(i);
      }
      i := if fwd then i + 1 else i - 1;
    }
    return None;
  }

  /** The walk of _handle_directional_move from the cell after p. */
  method StepOnGrid(g: Grid, w: int, h: int, d: Direction, p: Pos, fwd: bool) returns (r: Option<Pos>)
    requires Rect(g, w, h) && InGrid(w, h, p)
    ensures r == StepOpen(g, w, h, d, p, fwd)
  {
    var k := Fixed(d, p);
    var j := SeekOnGrid(g, w, h, d, k, Idx(d, p) + (if fwd then 1 else -1), fwd);
    if j.Some? {
      return Some(PosAt(d, k, j.value));
    }
    return None;
  }

  /** The two backward walks of _move_to_previous_cell: along the current
      line, then from the far end of the previous one. */
  method PrevOnGrid(g: Grid, w: int, h: int, d: Direction, p: Pos) returns (r: Option<Pos>)
    requires Rect(g, w, h) && InGrid(w, h, p)
    ensures r == PrevOpen(g, w, h, d, p)
  {
    var k := Fixed(d, p);
    var j := SeekOnGrid(g, w, h, d, k, Idx(d, p) - 1, false);
    if j.Some? {
      return Some(PosAt(d, k, j.value));
    }
    if k > 0 {
      r := LastOpenOnGrid(g, w, h, d, k - 1);
    } else {
      r := None;
    }
  }

  /** The backward walk from the far end of line k. */
  method LastOpenOnGrid(g: Grid, w: int, h: int, d: Direction, k: int) returns (r: Option<Pos>)
    requires Rect(g, w, h) && 0 <= k < Lines(w, h, d)
    ensures r == LastOpenOf(g, w, h, d, k)
  {
    assert d == Across ==> |g[k]| == w;
    var j := SeekOnGrid(g, w, h, d, k, Span(w, h, d) - 1, false);
    r := if j.Some? then Some(PosAt(d, k, j.value)) else None;
  }

  /** After index j of line k in d, the first open cell without input (the
      loops of _move_to_next_empty_cell_across and _down). */
  method NextBlankOnGrid(g: Grid, w: int, h: int, d: Direction, k: int, j: int) returns (r: Option<int>)
    requires Rect(g, w, h) && 0 <= k < Lines(w, h, d) && 0 <= j < Span(w, h, d)
    ensures r == NextBlank(Line(g, w, h, d, k), j)
  {
    ghost var L := Line(g, w, h, d, k);
    var n := Span(w, h, d);
    var i := j + 1;
    while i < n
      invariant j < i <= n
      invariant NextBlank(L, i - 1) == NextBlank(L, j)
    {
      var p := PosAt(d, k, i);
      assert L[i] == g[p.row][p.col];
      if !g[p.row][p.col].isBlack && g[p.row][p.col].userInput == "" {
        return Some(i);
      }
      i := i + 1;
    }
    return None;
  }

  /** Forward in row-major order from (r, c) to an open cell, or to (0, 0)
      past the end (the loop of _skip_black_cells). */
  method SkipForward(g: Grid, w: int, h: int, r0: int, c0: int) returns (r: int, c: int)
    requires Rect(g, w, h) && w > 0 && h > 0 && InBounds(w, h, r0, c0)
    ensures Pos(r, c) == FirstWhere(g, w, h, IsOpen, r0, c0).GetOr(Pos(0, 0))
  {
    r, c := r0, c0;
    ghost var target := FirstWhere(g, w, h, IsOpen, r, c);
    while 0 <= r < h && 0 <= c < w && g[r][c].isBlack
      invariant 0 <= r < h && 0 <= c < w
      invariant FirstWhere(g, w, h, IsOpen, r, c) == target
      decreases h - r, w - c
    {
      c := c + 1;
      if c >= w {
        r, c := r + 1, 0;
        if r >= h {
          r, c := 0, 0;
          break;
        }
      }
    }
  }

  /** Backward in row-major order from (r, c) to an open cell, or to the
      last cell before the start (the loop of _skip_black_cells_reverse). */
  method SkipBackward(g: Grid, w: int, h: int, r0: int, c0: int) returns (r: int, c: int)
    requires Rect(g, w, h) && w > 0 && h > 0 && InBounds(w, h, r0, c0)
    ensures Pos(r, c) == LastOpenRowMajor(g, w, h, r0, c0).GetOr(Pos(h - 1, w - 1))
  {
    r, c := r0, c0;
    ghost var target := LastOpenRowMajor(g, w, h, r, c);
    while 0 <= r < h && 0 <= c < w && g[r][c].isBlack
      invariant 0 <= r < h && 0 <= c < w && r <= r0
      invariant LastOpenRowMajor(g, w, h, r, c) == target
      decreases r + 1, c + 1
    {
      c := c - 1;
      if c < 0 {
        r, c := r - 1, w - 1;
        if r == r0 && c == c0 {
          break;
        }
        if r < 0 {
          r, c := h - 1, w - 1;
          break;
        }
      }
    }
  }

  /** Backward in column-major order from (r, c) to an open cell, or to the
      last cell before the start (the loop of _skip_black_cells_up). */
  method SkipUpward(g: Grid, w: int, h: int, r0: int, c0: int) returns (r: int, c: int)
    requires Rect(g, w, h) && w > 0 && h > 0 && InBounds(w, h, r0, c0)
    ensures Pos(r, c) == LastOpenColMajor(g, w, h, r0, c0).GetOr(Pos(h - 1, w - 1))
  {
    r, c := r0, c0;
    ghost var target := LastOpenColMajor(g, w, h, r, c);
    while 0 <= r < h && 0 <= c < w && g[r][c].isBlack
      invariant 0 <= r < h && 0 <= c < w && c <= c0
      invariant LastOpenColMajor(g, w, h, r, c) == target
      decreases c + 1, r + 1
    {
      r := r - 1;
      if r < 0 {
        c, r := c - 1, h - 1;
        if r == r0 && c == c0 {
          break;
        }
        if c < 0 {
          c, r := w - 1, h - 1;
          break;
        }
      }
    }
  }

  /** The loop of check_filled_word (grey) and ungrey_text (not grey) over
      the two directions. */
  method GreyPasses(g: Grid, w: int, h: int, p: Pos, grey: bool) returns (e: seq<Event>)
    requires Rect(g, w, h) && InGrid(w, h, p)
    ensures e == GreyEvents(g, w, h, p, grey)
  {
    var ea := GreyStep(g, w, h, p, Across, grey);
    var ed := GreyStep(g, w, h, p, Down, grey);
    e := ea + ed;
  }

  /** One pass of the loop of check_filled_word / ungrey_text: the bounds of
      the word through p in d, then (when greying) whether it is filled. */
  method GreyStep(g: Grid, w: int, h: int, p: Pos, d: Direction, grey: bool) returns (e: seq<Event>)
    requires Rect(g, w, h) && InGrid(w, h, p)
    ensures e == GreyEvent(g, w, h, p, d, grey)
  {
    var st, en := BoundsOnGrid(g, w, h, d, p);
    var start := PosAt(d, Fixed(d, p), st);
    var number := g[start.row][start.col].clueNumber;
    if grey {
      var filled := RunFilledOnGrid(g, w, h, d, start);
      e := if filled then [GreyoutClue(number, d, true)] else [];
    } else {
      e := [GreyoutClue(number, d, false)];
    }
  }

  /** The walk of word_filled from p along d. */
  method RunFilledOnGrid(g: Grid, w: int, h: int, d: Direction, p: Pos) returns (filled: bool)
    requires Rect(g, w, h) && InGrid(w, h, p)
    ensures filled == WordFilled(g, w, h, d, p)
  {
    ghost var L := Line(g, w, h, d, Fixed(d, p));
    if d == Across {
      var i := p.col;
      while i < w && !g[p.row][i].isBlack
        invariant p.col <= i <= w && RunFilled(L, i) == RunFilled(L, p.col)
      {
        if g[p.row][i].userInput == "" {
          return false;
        }
        i := i + 1;
      }
    } else {
      var i := p.row;
      while i < h && !g[i][p.col].isBlack
        invariant p.row <= i <= h && RunFilled(L, i) == RunFilled(L, p.row)
      {
        assert L[i] == g[i][p.col];
        if g[i][p.col].userInput == "" {
          return false;
        }
        i := i + 1;
      }
      assert i < h ==> L[i] == g[i][p.col];
    }
    return true;
  }

  /** The indices, on p's line, of the first and last cell of its word. */
  method BoundsOnGrid(g: Grid, w: int, h: int, d: Direction, p: Pos) returns (st: int, en: int)
    requires Rect(g, w, h) && InGrid(w, h, p)
    ensures st == StartIdx(Line(g, w, h, d, Fixed(d, p)), Idx(d, p))
    ensures en == EndIdx(Line(g, w, h, d, Fixed(d, p)), Idx(d, p))
  {
    if d == Across {
      st := WalkLeft(g, w, h, p.row, p.col);
      en := WalkRight(g, w, h, p.row, p.col);
    } else {
      st := WalkUp(g, w, h, p.row, p.col);
      en := WalkDown(g, w, h, p.row, p.col);
    }
  }

  /** One loop of _loop_to_empty_in_entry: indices lo..hi-1 of line k. */
  method FirstEmptyOnGrid(g: Grid, w: int, h: int, d: Direction, k: int, lo: int, hi: int)
    returns (r: Option<int>)
    requires Rect(g, w, h) && 0 <= k < Lines(w, h, d) && 0 <= lo && hi <= Span(w, h, d)
    ensures r == FirstEmpty(Line(g, w, h, d, k), lo, hi)
  {
    ghost var L := Line(g, w, h, d, k);
    var i := lo;
    while i < hi
      invariant lo <= i && (i <= hi || lo >= hi)
      invariant FirstEmpty(L, i, hi) == FirstEmpty(L, lo, hi)
    {
      var q := PosAt(d, k, i);
      assert L[i] == g[q.row][q.col];
      if g[q.row][q.col].userInput == "" {
        return Some(i);
      }
      i := i + 1;
    }
    return None;
  }

  /** The two searches of _loop_to_empty_in_entry on the word [st, en] of
      line k in d. */
  method EmptyInOnGrid(g: Grid, w: int, h: int, d: Direction, k: int, i: int, st: int, en: int, next: bool)
    returns (r: Option<int>)
    requires Rect(g, w, h) && 0 <= k < Lines(w, h, d) && 0 <= st <= i <= en < Span(w, h, d)
    ensures r == EmptyIn(Line(g, w, h, d, k), i, st, en, next)
  {
    var from := if next then i + 1 else i;
    var searchStart := if from > en then st else from;
    r := FirstEmptyOnGrid(g, w, h, d, k, searchStart, en + 1);
    if r.None? {
      r := FirstEmptyOnGrid(g, w, h, d, k, st, from);
    }
  }

  /** _loop_to_empty_in_entry's search on the word through p. */
  method EmptyInWordOnGrid(g: Grid, w: int, h: int, d: Direction, p: Pos, next: bool) returns (r: Option<Pos>)
    requires Rect(g, w, h) && InGrid(w, h, p)
    ensures r == EmptyInWord(g, w, h, d, p, next)
  {
    var k := Fixed(d, p);
    var st, en := BoundsOnGrid(g, w, h, d, p);
    var j := EmptyInOnGrid(g, w, h, d, k, Idx(d, p), st, en, next);
    if j.Some? {
      return Some(PosAt(d, k, j.value));
    }
    return None;
  }

  /** The scan of check_filled_puzzle: every open cell holds its solution. */
  method AllCorrectOnGrid(g: Grid) returns (ok: bool)
    ensures ok == AllOpenCorrect(g)
  {
    var i := 0;
    while i < |g|
      invariant 0 <= i <= |g|
      invariant forall r, c :: 0 <= r < i && 0 <= c < |g[r]| && !g[r][c].isBlack ==> g[r][c].IsCorrect()
    {
      var j := 0;
      while j < |g[i]|
        invariant 0 <= j <= |g[i]|
        invariant forall c :: 0 <= c < j && !g[i][c].isBlack ==> g[i][c].IsCorrect()
      {
        if !g[i][j].isBlack && !g[i][j].IsCorrect() {
          return false;
        }
        j := j + 1;
      }
      i := i + 1;
    }
    return true;
  }

  /** The start of _move_to_next_entry_start: the clue of the word under the
      cursor (get_clue), then its index in the current list. */
  method CurrentIndexOf(s: Session) returns (cur: int)
    requires Good(s)
    ensures cur == CurrentIndex(s)
  {
    var st, _ := BoundsOnGrid(s.cells, s.width, s.height, s.mode, s.Cur());
    WordBoundsOnLine(s.cells, s.width, s.height, s.mode, s.Cur());
    var start := PosAt(s.mode, Fixed(s.mode, s.Cur()), st);
    var n := s.cells[start.row][start.col].clueNumber;
    cur := -1;
    if n.Some? && n.value != 0 {
      var clues := s.Clues(s.mode);
      var current := FindClue(clues, n.value);
      if current.Some? {
        var i := 0;
        while i < |clues|
          invariant 0 <= i <= |clues|
          invariant forall j :: 0 <= j < i ==> clues[j].number != n.value
        {
          if clues[i].number == current.value.number {
            cur := i;
            break;
          }
          i := i + 1;
        }
      }
    }
  }

  /** The inner loop of _move_to_next_entry_start over list L of direction
      d, from index j forward or backward: the first clue whose word is not
      filled. */
  method ScanClues(s: Session, L: seq<Clue>, d: Direction, j: int, fwd: bool) returns (r: Option<int>)
    requires Good(s) && CluesInGrid(L, s.width, s.height)
    requires fwd ==> 0 <= j
    requires !fwd ==> j < |L|
    ensures r == ScanFlags(FilledFlags(s, L, d), j, fwd)
  {
    ghost var f := FilledFlags(s, L, d);
    var k := j;
    while 0 <= k < |L|
      invariant fwd ==> 0 <= k
      invariant !fwd ==> k < |L|
      invariant ScanFlags(f, k, fwd) == ScanFlags(f, j, fwd)
      decreases if fwd then |L| - k else k + 1
    {
      var filled := RunFilledOnGrid(s.cells, s.width, s.height, d, Pos(L[k].startRow, L[k].startCol));
      if !filled {
        return Some(k);
      }
      k := if fwd then k + 1 else k - 1;
    }
    return None;
  }

  /** The clue list of a direction. */
  function ListOf(s: Session, m: Direction): (L: seq<Clue>)
    requires Good(s)
    ensures L == s.Clues(m) && CluesInGrid(L, s.width, s.height)
    ensures FilledFlags(s, L, m) == Pick(AcrossFlags(s), DownFlags(s), m)
  {
    if m == Across then s.across else s.down
  }

  /** One pass of the outer loop of _move_to_next_entry_start: scan the
      current list; when nothing is found, switch mode and list. */
  method TabStep(s: Session, shift: bool, t: TabState) returns (r: TabState)
    requires Good(s) && TabStateOK(AcrossFlags(s), DownFlags(s), t)
    ensures r == TabIter(AcrossFlags(s), DownFlags(s), shift, t)
  {
    if t.found.Some? {
      return t;
    }
    ghost var fA, fD := AcrossFlags(s), DownFlags(s);
    var clues := ListOf(s, t.mode);
    ghost var f := Pick(fA, fD, t.mode);
    assert FilledFlags(s, clues, t.mode) == f;
    if |clues| == 0 {
      return t;
    }
    var j := ScanClues(s, clues, t.mode, if shift then t.cur - 1 else t.cur + 1, !shift);
    assert j == ScanFlags(f, if shift then t.cur - 1 else t.cur + 1, !shift);
    if j.Some? {
      return t.(found := j);
    }
    r := SwitchList(s, shift, t.mode);
  }

  /** The switch at the end of a failed scan: the other mode, its index
      restarted before the start (past the end, for Shift). */
  method SwitchList(s: Session, shift: bool, m0: Direction) returns (r: TabState)
    requires Good(s)
    ensures r == TabState(Toggle(m0), if shift then |Pick(AcrossFlags(s), DownFlags(s), Toggle(m0))| else -1, None)
  {
    var m := Toggle(m0);
    var other := ListOf(s, m);
    return TabState(m, if shift then |other| else -1, None);
  }

  /** The fallback of _move_to_next_entry_start for a filled grid; an index
      outside the list it indexes raises. */
  method FallbackOf(s: Session, shift: bool, m: Direction, originalIndex: int) returns (r: TabOutcome)
    requires Good(s) && originalIndex >= -1
    ensures r == FallbackAsWritten(AcrossFlags(s), DownFlags(s), shift, m, originalIndex)
  {
    var n := |ListOf(s, m)|;
    if !shift && originalIndex + 1 < n {
      return Moved(m, originalIndex + 1);
    }
    if shift && originalIndex - 1 >= 0 {
      if originalIndex - 1 < n {
        return Moved(m, originalIndex - 1);
      }
      return Raised(m);
    }
    var m2 := Toggle(m);
    var n2 := |ListOf(s, m2)|;
    if n2 == 0 {
      return Raised(m2);
    }
    return Moved(m2, if shift then n2 - 1 else 0);
  }

  /** The outer loop of _move_to_next_entry_start: two passes. */
  method TwoPasses(s: Session, shift: bool, t0: TabState) returns (t: TabState)
    requires Good(s) && TabStateOK(AcrossFlags(s), DownFlags(s), t0)
    ensures t == TabIters(AcrossFlags(s), DownFlags(s), shift, t0, 2)
  {
    ghost var fA, fD := AcrossFlags(s), DownFlags(s);
    t := t0;
    var i := 0;
    while i < 2
      invariant 0 <= i <= 2
      invariant TabStateOK(fA, fD, t)
      invariant TabIters(fA, fD, shift, t0, i) == t
    {
      assert TabIters(fA, fD, shift, t0, i + 1) == TabIter(fA, fD, shift, t);
      t := TabStep(s, shift, t);
      i := i + 1;
    }
  }

  /** The two passes and the fallback of _move_to_next_entry_start: the mode
      and clue index the cursor goes to, or the mode at the IndexError. */
  method TabScan(s: Session, shift: bool) returns (target: TabOutcome)
    requires Good(s)
    ensures target == SessionTarget(s, shift)
  {
    var originalIndex := CurrentIndexOf(s);
    var t := TwoPasses(s, shift, TabState(s.mode, originalIndex, None));
    if t.found.Some? {
      return Moved(t.mode, t.found.value);
    }
    // every word is filled: the neighbouring clue, else the other list
    target := FallbackOf(s, shift, t.mode, originalIndex);
  }
}
