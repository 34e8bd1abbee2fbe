/** What the editing transitions of EditSpec guarantee: where the cursor
    lands, which cells change and how the fill counter moves. */
module EditProps {
  import opened Base
  import opened Krossword
  import opened Geometry
  import opened EditSpec

  // ---------------------------------------------------------------
  // Moves
  // ---------------------------------------------------------------

  /** _handle_directional_move, when there is an open cell beyond the
      cursor on its line in the step direction: it moves to the nearest such
      cell, every cell it passes over being black. */
  lemma StepMoves(s: Session, d: Direction, fwd: bool)
    requires Good(s) && StepOpen(s.cells, s.width, s.height, d, s.Cur(), fwd).Some?
    ensures var q := Step(s, d, fwd).Cur(); var i := Idx(d, s.Cur());
            Fixed(d, q) == Fixed(d, s.Cur()) && !At(s.cells, q).isBlack &&
            (if fwd then i < Idx(d, q) else Idx(d, q) < i) &&
            forall j :: (if fwd then i < j < Idx(d, q) else Idx(d, q) < j < i) ==> CurLine(s, d)[j].isBlack
  {
    var k := Fixed(d, s.Cur());
    var sk := Seek(CurLine(s, d), Idx(d, s.Cur()) + (if fwd then 1 else -1), fwd);
    assert Step(s, d, fwd).Cur() == PosAt(d, k, sk.value);
  }

  /** When there is none, every cell beyond the cursor in that direction is
      black (or there is no cell), and the cursor stays put. */
  lemma StepStays(s: Session, d: Direction, fwd: bool)
    requires Good(s) && StepOpen(s.cells, s.width, s.height, d, s.Cur(), fwd).None?
    ensures Step(s, d, fwd) == s
    ensures var i := Idx(d, s.Cur());
            forall j :: (if fwd then i < j < Span(s.width, s.height, d) else 0 <= j < i) ==> CurLine(s, d)[j].isBlack
  {
    var sk := Seek(CurLine(s, d), Idx(d, s.Cur()) + (if fwd then 1 else -1), fwd);
    assert sk.None?;
  }

  /** The line holding p in direction d. */
  function LineOf(g: Grid, w: int, h: int, d: Direction, p: Pos): (L: seq<Cell>)
    requires Rect(g, w, h) && InGrid(w, h, p)
    ensures |L| == Span(w, h, d)
  {
    Line(g, w, h, d, Fixed(d, p))
  }

  /** The line before it: the previous row (across) or column (down). */
  function LineBefore(g: Grid, w: int, h: int, d: Direction, p: Pos): (L: seq<Cell>)
    requires Rect(g, w, h) && InGrid(w, h, p) && Fixed(d, p) > 0
    ensures |L| == Span(w, h, d)
  {
    Line(g, w, h, d, Fixed(d, p) - 1)
  }

  /** _move_to_previous_cell (used by backspace), first case: the nearest
      open cell before the cursor on its own line, every cell between them
      being black. */
  lemma PrevOnLine(g: Grid, w: int, h: int, d: Direction, p: Pos)
    requires Rect(g, w, h) && InGrid(w, h, p)
    requires PrevOpen(g, w, h, d, p).Some? && Fixed(d, PrevOpen(g, w, h, d, p).value) == Fixed(d, p)
    ensures var q := PrevOpen(g, w, h, d, p).value;
            Idx(d, q) < Idx(d, p) &&
            forall j :: Idx(d, q) < j < Idx(d, p) ==> LineOf(g, w, h, d, p)[j].isBlack
  {
    var sk := Seek(LineOf(g, w, h, d, p), Idx(d, p) - 1, false);
  }

  /** Second case: no open cell before the cursor on its line, so the last
      open cell of the previous row (across) or column (down), every cell
      after it on that line being black. */
  lemma PrevOnEarlierLine(g: Grid, w: int, h: int, d: Direction, p: Pos)
    requires Rect(g, w, h) && InGrid(w, h, p)
    requires PrevOpen(g, w, h, d, p).Some? && Fixed(d, PrevOpen(g, w, h, d, p).value) != Fixed(d, p)
    ensures var q := PrevOpen(g, w, h, d, p).value;
            Fixed(d, p) > 0 && Fixed(d, q) == Fixed(d, p) - 1 &&
            (forall j :: 0 <= j < Idx(d, p) ==> LineOf(g, w, h, d, p)[j].isBlack) &&
            forall j :: Idx(d, q) < j < Span(w, h, d) ==> LineBefore(g, w, h, d, p)[j].isBlack
  {
    var k := Fixed(d, p);
    var sk := Seek(LineOf(g, w, h, d, p), Idx(d, p) - 1, false);
    assert sk.None?;
    var L1 := LineBefore(g, w, h, d, p);
    var sk1 := Seek(L1, |L1| - 1, false);
    assert PrevOpen(g, w, h, d, p) == Some(PosAt(d, k - 1, sk1.value));
  }

  /** Third case: nothing, exactly when the rest of the line before the
      cursor and all of the previous line (if any) are black. */
  lemma PrevNone(g: Grid, w: int, h: int, d: Direction, p: Pos)
    requires Rect(g, w, h) && InGrid(w, h, p) && PrevOpen(g, w, h, d, p).None?
    ensures forall j :: 0 <= j < Idx(d, p) ==> LineOf(g, w, h, d, p)[j].isBlack
    ensures Fixed(d, p) > 0 ==> forall j :: 0 <= j < Span(w, h, d) ==> LineBefore(g, w, h, d, p)[j].isBlack
  {
    var sk := Seek(LineOf(g, w, h, d, p), Idx(d, p) - 1, false);
    assert sk.None?;
    if Fixed(d, p) > 0 {
      var L1 := LineBefore(g, w, h, d, p);
      assert Seek(L1, |L1| - 1, false).None?;
    }
  }

  /** Some open cell lies at or after the cursor in row-major order. */
  ghost predicate OpenFrom(s: Session)
    requires Good(s)
  {
    exists i, j :: InBounds(s.width, s.height, i, j) && !RowMajorBefore(Pos(i, j), s.Cur()) && !s.cells[i][j].isBlack
  }

  /** _skip_black_cells: the cursor ends on the first open cell at or after
      the start in row-major order, every cell passed over being black; with
      no open cell left, it ends at (0, 0). */
  lemma SkipBlackLands(s: Session)
    requires Good(s)
    ensures var r := SkipBlack(s);
            OpenFrom(s) ==>
              !s.cells[r.row][r.col].isBlack && !RowMajorBefore(r.Cur(), s.Cur()) &&
              forall i, j :: (InBounds(s.width, s.height, i, j) && !RowMajorBefore(Pos(i, j), s.Cur()) &&
                              RowMajorBefore(Pos(i, j), r.Cur())) ==> s.cells[i][j].isBlack
    ensures !OpenFrom(s) ==> SkipBlack(s).Cur() == Pos(0, 0)
  {
    FirstWhereSkipped(s.cells, s.width, s.height, IsOpen, s.row, s.col);
    var f := FirstWhere(s.cells, s.width, s.height, IsOpen, s.row, s.col);
    if f.Some? {
      var q := f.value;
      assert InBounds(s.width, s.height, q.row, q.col) && !RowMajorBefore(q, s.Cur()) && !s.cells[q.row][q.col].isBlack;
    }
  }

  // ---------------------------------------------------------------
  // Click, arrows, space
  // ---------------------------------------------------------------

  predicate ClickHits(s: Session, row: int, col: int)
    requires Good(s)
  {
    InBounds(s.width, s.height, row, col) && !s.cells[row][col].isBlack
  }

  /** mousePressEvent: a click off the grid or on a black cell changes
      nothing; a click on the selected cell only flips the mode; a click on
      another open cell moves there and keeps the mode. A second click on
      the same cell therefore flips the mode back or, after a move, flips
      it. Cells, counters and the log never change. */
  lemma ClickRules(s: Session, row: int, col: int)
    requires Good(s)
    ensures var r := Click(s, row, col);
            !ClickHits(s, row, col) ==> r == s
    ensures var r := Click(s, row, col);
            ClickHits(s, row, col) ==>
              r.dirty && CursorOnly(s, r.(dirty := s.dirty)) && r.Cur() == Pos(row, col) &&
              (r.mode == s.mode <==> Pos(row, col) != s.Cur())
    ensures var r2 := Click(Click(s, row, col), row, col);
            ClickHits(s, row, col) ==>
              r2.Cur() == Pos(row, col) &&
              (r2.mode == s.mode <==> Pos(row, col) == s.Cur())
  {
  }

  /** keyPressEvent on Left/Right: in down mode it only switches to across;
      in across mode it steps along the row (Right forward, Left back). */
  lemma LeftRight(s: Session, key: int, mods: int)
    requires Good(s) && (key == KeyLeft || key == KeyRight)
    ensures var r := KeyPress(s, key, mods);
            r.dirty && CursorOnly(s, r.(dirty := s.dirty)) && r.mode == Across &&
            (s.mode == Down ==> r.Cur() == s.Cur()) &&
            (s.mode == Across ==> r.(dirty := s.dirty) == Step(s, Across, key == KeyRight))
  {
  }

  /** Up/Down: in across mode only a switch to down; in down mode a step
      along the column (Down forward, Up back). */
  lemma UpDown(s: Session, key: int, mods: int)
    requires Good(s) && (key == KeyUp || key == KeyDown)
    ensures var r := KeyPress(s, key, mods);
            r.dirty && CursorOnly(s, r.(dirty := s.dirty)) && r.mode == Down &&
            (s.mode == Across ==> r.Cur() == s.Cur()) &&
            (s.mode == Down ==> r.(dirty := s.dirty) == Step(s, Down, key == KeyDown))
  {
  }

  /** Space flips the mode without moving; two presses restore it. Period
      asks for the pencil toggle and changes nothing else; Return raises
      before any change. */
  lemma SpacePeriodReturn(s: Session, mods: int)
    requires Good(s)
    ensures var r := KeyPress(s, KeySpace, mods);
            r.Cur() == s.Cur() && r.mode != s.mode && r.dirty && CursorOnly(s, r.(dirty := s.dirty))
    ensures KeyPress(KeyPress(s, KeySpace, mods), KeySpace, mods) == s.(dirty := true)
    ensures KeyPress(s, KeyPeriod, mods) == s.(events := s.events + [PencilToggleRequested])
    ensures KeyPress(s, KeyReturn, mods) == s
  {
    ToggleInvolutive(s.mode);
  }

  // ---------------------------------------------------------------
  // Letter entry
  // ---------------------------------------------------------------

  /** The cells after writing x under the cursor. */
  function Put(s: Session, x: Cell): Grid
    requires Good(s)
  {
    s.cells[s.row := s.cells[s.row][s.col := x]]
  }

  /** A letter can be written: the cell is open, not corrected, and the
      puzzle is not solved yet. */
  predicate Writable(s: Session)
    requires Good(s)
  {
    !CurCell(s).isBlack && !s.solved && !CurCell(s).corrected
  }

  /** The cell _handle_letter_input leaves under the cursor: the character
      replaces the input (or is appended to it, for a rebus), the pencil flag
      follows the pencil mode and the incorrect mark is cleared. */
  function Entered(s: Session, ch: char, rebus: bool): Cell
    requires Good(s)
  {
    var c := CurCell(s);
    c.(userInput := if rebus then c.userInput + [ch] else [ch], pencilled := s.pencil, incorrect := false)
  }

  /** _handle_letter_input does nothing on a black cell or a solved puzzle,
      and on a corrected cell only steps the cursor once. */
  lemma LetterIgnored(s: Session, ch: char, rebus: bool)
    requires Good(s) && !Writable(s)
    ensures CurCell(s).isBlack || s.solved ==> LetterInput(s, ch, rebus) == s
    ensures !CurCell(s).isBlack && !s.solved ==> LetterInput(s, ch, rebus) == Step(s, s.mode, true)
  {
  }

  lemma WrittenEffect(s: Session, ch: char, rebus: bool)
    requires Good(s)
    ensures var w := Written(s, ch, rebus);
            w.cells == Put(s, Entered(s, ch, rebus)) && w.dirty == s.dirty &&
            w.filled == (if CurCell(s).userInput == "" then s.filled + 1 else s.filled)
  {
  }

  /** Otherwise the cell under the cursor becomes Entered and no other cell
      changes. */
  lemma LetterWrites(s: Session, ch: char, rebus: bool)
    requires Good(s) && Writable(s)
    ensures LetterInput(s, ch, rebus).cells == Put(s, Entered(s, ch, rebus))
  {
    WrittenEffect(s, ch, rebus);
  }

  /** The fill counter rises by one exactly when the cell was blank. */
  lemma LetterCounts(s: Session, ch: char, rebus: bool)
    requires Good(s) && Writable(s)
    ensures LetterInput(s, ch, rebus).filled == if CurCell(s).userInput == "" then s.filled + 1 else s.filled
  {
    WrittenEffect(s, ch, rebus);
  }

  /** The mode is kept, and a rebus letter leaves the cursor where it is. */
  lemma LetterCursor(s: Session, ch: char, rebus: bool)
    requires Good(s) && Writable(s)
    ensures LetterInput(s, ch, rebus).mode == s.mode
    ensures rebus ==> LetterInput(s, ch, rebus).Cur() == s.Cur()
  {
  }

  // ---------------------------------------------------------------
  // Loop to the next empty square of the entry
  // ---------------------------------------------------------------

  /** The search of EmptyIn goes round the word once, starting just after
      the cursor (at it, without next): it finds nothing exactly when every
      cell of the word has input. */
  lemma EmptyInNone(L: seq<Cell>, i: int, st: int, en: int, next: bool)
    requires 0 <= st <= i <= en < |L|
    ensures EmptyIn(L, i, st, en, next).None? <==> forall j :: st <= j <= en ==> L[j].userInput != ""
  {
  }

  /** Otherwise it finds the first blank cell in that cyclic order. */
  lemma EmptyInFirst(L: seq<Cell>, i: int, st: int, en: int, next: bool)
    requires 0 <= st <= i <= en < |L| && EmptyIn(L, i, st, en, next).Some?
    ensures var r := EmptyIn(L, i, st, en, next).value; var from := if next then i + 1 else i;
            (from <= r ==> forall j :: from <= j < r ==> L[j].userInput != "") &&
            (r < from ==> (forall j :: from <= j <= en ==> L[j].userInput != "") &&
                          forall j :: st <= j < r ==> L[j].userInput != "")
  {
  }

  /** The first and last index of the word through the cursor, along its
      line (WordBoundsOnLine: the bounds of WordBounds). */
  function WordLo(s: Session): int
    requires Good(s)
  {
    StartIdx(CurLine(s, s.mode), Idx(s.mode, s.Cur()))
  }

  function WordHi(s: Session): int
    requires Good(s)
  {
    EndIdx(CurLine(s, s.mode), Idx(s.mode, s.Cur()))
  }

  /** Every cell of the word through the cursor has input. */
  ghost predicate WordComplete(s: Session)
    requires Good(s)
  {
    forall j :: WordLo(s) <= j <= WordHi(s) ==> CurLine(s, s.mode)[j].userInput != ""
  }

  /** _loop_to_empty_in_entry on a word without blank cells: a step
      forward if next is set and the cursor is not on the last character,
      otherwise no move. */
  lemma LoopToEmptyComplete(s: Session, isLast: bool, next: bool)
    requires Good(s) && WordComplete(s)
    ensures LoopToEmpty(s, isLast, next) == if next && !isLast then Step(s, s.mode, true) else s
  {
    var L := CurLine(s, s.mode);
    var i := Idx(s.mode, s.Cur());
    EmptyInNone(L, i, StartIdx(L, i), EndIdx(L, i), next);
  }

  /** On a word with a blank cell: the cursor moves, along its line, to a
      blank cell of the word. */
  lemma LoopToEmptyLands(s: Session, isLast: bool, next: bool)
    requires Good(s) && !WordComplete(s)
    ensures var r := LoopToEmpty(s, isLast, next);
            r == MoveTo(s, r.Cur()) && Fixed(s.mode, r.Cur()) == Fixed(s.mode, s.Cur()) &&
            WordLo(s) <= Idx(s.mode, r.Cur()) <= WordHi(s) && At(s.cells, r.Cur()).userInput == ""
  {
    var d := s.mode;
    var L := CurLine(s, d);
    var i := Idx(d, s.Cur());
    EmptyInNone(L, i, StartIdx(L, i), EndIdx(L, i), next);
    var e := EmptyIn(L, i, StartIdx(L, i), EndIdx(L, i), next);
    assert LoopToEmpty(s, isLast, next).Cur() == PosAt(d, Fixed(d, s.Cur()), e.value);
  }

  /** ... and it is the first blank cell after the cursor (from the cursor
      itself, without next), wrapping round to the word's start. */
  lemma LoopToEmptyFirst(s: Session, isLast: bool, next: bool)
    requires Good(s) && !WordComplete(s)
    ensures var q := Idx(s.mode, LoopToEmpty(s, isLast, next).Cur());
            var from := if next then Idx(s.mode, s.Cur()) + 1 else Idx(s.mode, s.Cur());
            var L := CurLine(s, s.mode);
            (from <= q ==> forall j :: from <= j < q ==> L[j].userInput != "") &&
            (q < from ==> (forall j :: from <= j <= WordHi(s) ==> L[j].userInput != "") &&
                          forall j :: WordLo(s) <= j < q ==> L[j].userInput != "")
  {
    var d := s.mode;
    var L := CurLine(s, d);
    var i := Idx(d, s.Cur());
    EmptyInNone(L, i, StartIdx(L, i), EndIdx(L, i), next);
    var e := EmptyIn(L, i, StartIdx(L, i), EndIdx(L, i), next);
    EmptyInFirst(L, i, StartIdx(L, i), EndIdx(L, i), next);
    assert LoopToEmpty(s, isLast, next).Cur() == PosAt(d, Fixed(d, s.Cur()), e.value);
  }

  // ---------------------------------------------------------------
  // Backspace
  // ---------------------------------------------------------------

  /** ClearHere empties the cell under the cursor and drops its incorrect
      mark; no other cell changes. */
  lemma ClearHereCells(s: Session)
    requires Good(s)
    ensures ClearHere(s).cells == Put(s, CurCell(s).(userInput := "", incorrect := false))
  {
  }

  /** ... it lowers the counter by one and keeps the cursor and the mode. */
  lemma ClearHereCounts(s: Session)
    requires Good(s)
    ensures var r := ClearHere(s);
            r.filled == s.filled - 1 && r.Cur() == s.Cur() && r.mode == s.mode && r.dirty == s.dirty
  {
  }

  /** Backspace clears the cell under the cursor when it has input and is
      not corrected, and does nothing on a black cell. */
  lemma DeleteInPlace(s: Session)
    requires Good(s)
    ensures CurCell(s).isBlack ==> Delete(s) == s
    ensures !CurCell(s).isBlack && CurCell(s).userInput != "" && !CurCell(s).corrected ==> Delete(s) == ClearHere(s)
  {
  }

  /** Backspace goes back otherwise; PrevOnLine, PrevOnEarlierLine and
      PrevNone say where. */
  predicate GoesBack(s: Session)
    requires Good(s)
  {
    !CurCell(s).isBlack && !(CurCell(s).userInput != "" && !CurCell(s).corrected)
  }

  /** With no open cell before the cursor, nothing changes. */
  lemma DeleteAtStart(s: Session)
    requires Good(s) && GoesBack(s) && PrevOpen(s.cells, s.width, s.height, s.mode, s.Cur()).None?
    ensures Delete(s) == s
  {
  }

  /** Otherwise the cursor lands on the previous open cell in the same
      mode; that cell is cleared if it has input and is not corrected, only
      loses its incorrect mark if it is blank and not corrected, and is left
      alone if corrected. */
  lemma DeleteBack(s: Session)
    requires Good(s) && GoesBack(s) && PrevOpen(s.cells, s.width, s.height, s.mode, s.Cur()).Some?
    ensures var m := MoveTo(s, PrevOpen(s.cells, s.width, s.height, s.mode, s.Cur()).value);
            var pc := CurCell(m); var r := Delete(s);
            r.Cur() == m.Cur() && r.mode == s.mode &&
            (pc.corrected ==> r == m) &&
            (!pc.corrected && pc.userInput != "" ==> r == ClearHere(m)) &&
            (!pc.corrected && pc.userInput == "" ==> r == PutCell(m, m.Cur(), pc.(incorrect := false)))
  {
    var q := PrevOpen(s.cells, s.width, s.height, s.mode, s.Cur()).value;
    var m := MoveTo(s, q);
    assert PrevCell(s) == m;
    if Fixed(s.mode, q) == Fixed(s.mode, s.Cur()) {
      PrevOnLine(s.cells, s.width, s.height, s.mode, s.Cur());
    }
    assert m.Cur() != s.Cur();
    ClearHereCounts(m);
  }

  // ---------------------------------------------------------------
  // Greyout notifications
  // ---------------------------------------------------------------

  /** From an open cell, word_filled on the word's first cell covers exactly
      the word. */
  lemma RunFilledFromStart(L: seq<Cell>, i: int)
    requires 0 <= i < |L| && !L[i].isBlack
    ensures RunFilled(L, StartIdx(L, i)) <==> forall j :: StartIdx(L, i) <= j <= EndIdx(L, i) ==> L[j].userInput != ""
  {
    var s0 := StartIdx(L, i);
    assert !L[s0].isBlack;
    SameWordSameBounds(L, i, s0);
    RunFilledIsWordFilled(L, s0);
  }

  /** For an open cell, check_filled_word's notification for the word in d
      (numbered by the word's first cell) fires exactly when every cell of
      the word has input; ungrey_text's always fires. */
  lemma GreyEventMeaning(g: Grid, w: int, h: int, p: Pos, d: Direction, grey: bool)
    requires Rect(g, w, h) && InGrid(w, h, p) && !At(g, p).isBlack
    ensures var L := LineOf(g, w, h, d, p); var i := Idx(d, p);
            GreyEvent(g, w, h, p, d, grey) ==
              if !grey || forall j :: StartIdx(L, i) <= j <= EndIdx(L, i) ==> L[j].userInput != ""
              then [GreyoutClue(At(g, WordStart(g, w, h, d, p)).clueNumber, d, grey)]
              else []
  {
    var L := LineOf(g, w, h, d, p);
    var i := Idx(d, p);
    RunFilledFromStart(L, i);
    assert WordStart(g, w, h, d, p) == PosAt(d, Fixed(d, p), StartIdx(L, i));
  }
}
