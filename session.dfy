/** The editing state machine of the crossword widget
    (src/ui/crossword_widget.py) as pure transitions on a value snapshot. The
    widget class proves each of its methods equal to one of these. */
module EditSpec {
  import opened Base
  import opened Krossword
  import opened Geometry

  /** The notifications the engine emits, in order. */
  datatype Event =
    | DisplayMessage(solved: bool)
    | CellCountChanged(count: int)
    | GreyoutClue(number: Option<int>, dir: Direction, grey: bool)
    | GreyAllClues
    | PencilToggleRequested

  /** Cursor and counters of the widget together with the puzzle it edits. */
  datatype Session = Session(
    cells: Grid,
    width: int,
    height: int,
    across: seq<Clue>,
    down: seq<Clue>,
    fillable: int,
    row: int,
    col: int,
    mode: Direction,
    pencil: bool,
    filled: int,
    solved: bool,
    dirty: bool,
    events: seq<Event>)
  {
    function Cur(): Pos { Pos(row, col) }

    function Clues(d: Direction): seq<Clue> { if d == Across then across else down }
  }

  /** A non-empty rectangular grid, clues that start on it, and a cursor on it. */
  predicate Good(s: Session) {
    s.width > 0 && s.height > 0 && Rect(s.cells, s.width, s.height) &&
    CluesInGrid(s.across, s.width, s.height) && CluesInGrid(s.down, s.width, s.height) &&
    InBounds(s.width, s.height, s.row, s.col)
  }

  /** Only the cursor, the mode, the cells, the counters and the log differ:
      the grid keeps its shape and its clues. */
  predicate SameBoard(s: Session, r: Session) {
    r.width == s.width && r.height == s.height && r.across == s.across &&
    r.down == s.down && r.fillable == s.fillable && r.pencil == s.pencil
  }

  /** Same cells and clues; only cursor and mode may differ. */
  predicate CursorOnly(s: Session, r: Session) {
    r == s.(row := r.row, col := r.col, mode := r.mode)
  }

  function CurCell(s: Session): Cell
    requires Good(s)
  {
    s.cells[s.row][s.col]
  }

  function CurLine(s: Session, d: Direction): (L: seq<Cell>)
    requires Good(s)
    ensures |L| == Span(s.width, s.height, d)
    ensures 0 <= Idx(d, s.Cur()) < |L| && L[Idx(d, s.Cur())] == CurCell(s)
  {
    Line(s.cells, s.width, s.height, d, Fixed(d, s.Cur()))
  }

  function MoveTo(s: Session, p: Pos): Session {
    s.(row := p.row, col := p.col)
  }

  function PutCell(s: Session, p: Pos, x: Cell): (r: Session)
    requires Good(s) && InGrid(s.width, s.height, p)
    ensures Good(r) && SameBoard(s, r)
    ensures r == s.(cells := r.cells)
  {
    s.(cells := s.cells[p.row := s.cells[p.row][p.col := x]])
  }

  // ---------------------------------------------------------------
  // Word geometry in grid terms
  // ---------------------------------------------------------------

  /** First and last cell of the word through p in direction d. */
  function WordBounds(g: Grid, w: int, h: int, d: Direction, p: Pos): (b: (Pos, Pos))
    requires Rect(g, w, h) && InGrid(w, h, p)
    ensures Fixed(d, b.0) == Fixed(d, p) == Fixed(d, b.1)
    ensures InGrid(w, h, b.0) && InGrid(w, h, b.1)
    ensures 0 <= Idx(d, b.0) <= Idx(d, p) <= Idx(d, b.1) < Span(w, h, d)
  {
    var k := Fixed(d, p);
    var L := Line(g, w, h, d, k);
    (PosAt(d, k, StartIdx(L, Idx(d, p))), PosAt(d, k, EndIdx(L, Idx(d, p))))
  }

  /** The bounds enclose a maximal run: every other cell between them is
      open, and each bound sits at the edge of the grid or next to a black
      cell. */
  lemma WordBoundsMaximal(g: Grid, w: int, h: int, d: Direction, p: Pos)
    requires Rect(g, w, h) && InGrid(w, h, p)
    ensures var b := WordBounds(g, w, h, d, p);
            forall j :: Idx(d, b.0) <= j <= Idx(d, b.1) && j != Idx(d, p) ==>
                        !At(g, PosAt(d, Fixed(d, p), j)).isBlack
    ensures var b := WordBounds(g, w, h, d, p);
            Idx(d, b.0) == 0 || At(g, PosAt(d, Fixed(d, p), Idx(d, b.0) - 1)).isBlack
    ensures var b := WordBounds(g, w, h, d, p);
            Idx(d, b.1) == Span(w, h, d) - 1 || At(g, PosAt(d, Fixed(d, p), Idx(d, b.1) + 1)).isBlack
  {
    var k := Fixed(d, p);
    var L := Line(g, w, h, d, k);
    WordBoundsOnLine(g, w, h, d, p);
    forall j | 0 <= j < |L|
      ensures L[j] == At(g, PosAt(d, k, j))
    {
    }
  }

  /** WordBounds in terms of the walks along the line. */
  lemma WordBoundsOnLine(g: Grid, w: int, h: int, d: Direction, p: Pos)
    requires Rect(g, w, h) && InGrid(w, h, p)
    ensures var L := Line(g, w, h, d, Fixed(d, p));
            WordBounds(g, w, h, d, p) ==
              (PosAt(d, Fixed(d, p), StartIdx(L, Idx(d, p))), PosAt(d, Fixed(d, p), EndIdx(L, Idx(d, p))))
  {
  }

  function WordStart(g: Grid, w: int, h: int, d: Direction, p: Pos): (st: Pos)
    requires Rect(g, w, h) && InGrid(w, h, p)
    ensures InGrid(w, h, st)
  {
    WordBounds(g, w, h, d, p).0
  }

  /** The clue of the word through p: looked up by the number of the word's
      first cell, when that number is set and non-zero. */
  function ClueForCell(s: Session, p: Pos, d: Direction): (r: Option<Clue>)
    requires Good(s) && InGrid(s.width, s.height, p)
    ensures var n := At(s.cells, WordStart(s.cells, s.width, s.height, d, p)).clueNumber;
            r.Some? <==> n.Some? && n.value != 0 && exists i :: 0 <= i < |s.Clues(d)| && s.Clues(d)[i].number == n.value
    ensures r.Some? ==> r.value in s.Clues(d) &&
                        Some(r.value.number) == At(s.cells, WordStart(s.cells, s.width, s.height, d, p)).clueNumber
  {
    var n := At(s.cells, WordStart(s.cells, s.width, s.height, d, p)).clueNumber;
    if n.Some? && n.value != 0 then FindClue(s.Clues(d), n.value) else None
  }

  /** word_filled: walking from p along d over open cells, none lacks input. */
  predicate WordFilled(g: Grid, w: int, h: int, d: Direction, p: Pos)
    requires Rect(g, w, h) && InGrid(w, h, p)
  {
    RunFilled(Line(g, w, h, d, Fixed(d, p)), Idx(d, p))
  }

  /** Positions of the word through the cursor in the current mode. */
  function WordCells(s: Session): (ps: seq<Pos>)
    requires Good(s)
  {
    var b := WordBounds(s.cells, s.width, s.height, s.mode, s.Cur());
    Run(s.mode, Fixed(s.mode, s.Cur()), Idx(s.mode, b.0), Idx(s.mode, b.1))
  }

  /** The word's positions run in order along the cursor's line from one
      bound to the other (WordBoundsMaximal says what the bounds are) and
      include the cursor. */
  lemma WordCellsRun(s: Session)
    requires Good(s)
    ensures var ps := WordCells(s); var b := WordBounds(s.cells, s.width, s.height, s.mode, s.Cur());
            |ps| > 0 && ps[0] == b.0 && ps[|ps| - 1] == b.1 && s.Cur() in ps
    ensures var ps := WordCells(s);
            forall i :: 0 <= i < |ps| ==>
              Fixed(s.mode, ps[i]) == Fixed(s.mode, s.Cur()) && Idx(s.mode, ps[i]) == Idx(s.mode, ps[0]) + i
  {
    var d := s.mode;
    var p := s.Cur();
    var b := WordBounds(s.cells, s.width, s.height, d, p);
    RunPositions(d, Fixed(d, p), Idx(d, b.0), Idx(d, b.1));
  }

  /** Every position of the word lies on the grid and, except perhaps the
      cursor's own cell, is open. */
  lemma WordCellsOpen(s: Session)
    requires Good(s)
    ensures var ps := WordCells(s);
            forall i :: 0 <= i < |ps| ==>
              InGrid(s.width, s.height, ps[i]) && (ps[i] == s.Cur() || !At(s.cells, ps[i]).isBlack)
  {
    var d := s.mode;
    var p := s.Cur();
    var k := Fixed(d, p);
    var b := WordBounds(s.cells, s.width, s.height, d, p);
    WordBoundsMaximal(s.cells, s.width, s.height, d, p);
    var ps := WordCells(s);
    var lo := Idx(d, b.0);
    RunPositions(d, k, lo, Idx(d, b.1));
    forall i | 0 <= i < |ps|
      ensures InGrid(s.width, s.height, ps[i]) && (ps[i] == p || !At(s.cells, ps[i]).isBlack)
    {
      assert ps[i] == PosAt(d, k, lo + i);
      if lo + i != Idx(d, p) {
        assert !At(s.cells, PosAt(d, k, lo + i)).isBlack;
      }
    }
  }

  // ---------------------------------------------------------------
  // Cursor moves
  // ---------------------------------------------------------------

  /** _handle_directional_move: one step in d (forward or back), skipping
      black cells, staying put when the edge comes first. */
  function Step(s: Session, d: Direction, fwd: bool): (r: Session)
    requires Good(s)
    ensures Good(r) && r == MoveTo(s, r.Cur())
  {
    match StepOpen(s.cells, s.width, s.height, d, s.Cur(), fwd)
    case None => s
    case Some(q) => MoveTo(s, q)
  }

  /** _move_to_previous_cell: the previous open cell on the line, else the
      last open cell of the previous line, else no move. */
  function PrevCell(s: Session): (r: Session)
    requires Good(s)
    ensures Good(r) && r == MoveTo(s, r.Cur())
  {
    match PrevOpen(s.cells, s.width, s.height, s.mode, s.Cur())
    case Some(q) => MoveTo(s, q)
    case None => s
  }

  function ToggleMode(s: Session): (r: Session)
    ensures r == s.(mode := Toggle(s.mode))
  {
    s.(mode := Toggle(s.mode))
  }

  /** mousePressEvent on (row, col). */
  function Click(s: Session, row: int, col: int): (r: Session)
    requires Good(s)
  {
    if InBounds(s.width, s.height, row, col) && !s.cells[row][col].isBlack then
      (if row == s.row && col == s.col then ToggleMode(s) else MoveTo(s, Pos(row, col))).(dirty := true)
    else s
  }

  /** The first open square in row-major order, as select_first_square
      finds it. */
  function FirstSquare(g: Grid, w: int, h: int): (r: Option<Pos>)
    requires Rect(g, w, h)
    ensures r.Some? ==> InGrid(w, h, r.value) && !At(g, r.value).isBlack
  {
    FirstWhere(g, w, h, IsOpen, 0, 0)
  }

  /** The first square is open and every square before it is black; there
      is none exactly when the whole grid is black. */
  lemma FirstSquareIsFirst(g: Grid, w: int, h: int)
    requires Rect(g, w, h)
    ensures var r := FirstSquare(g, w, h);
            r.Some? ==> forall i, j :: InBounds(w, h, i, j) && RowMajorBefore(Pos(i, j), r.value) ==> g[i][j].isBlack
    ensures FirstSquare(g, w, h).None? <==> forall i, j :: InBounds(w, h, i, j) ==> g[i][j].isBlack
  {
    FirstWhereSkipped(g, w, h, IsOpen, 0, 0);
    var r := FirstSquare(g, w, h);
    if r.Some? {
      var p := r.value;
      assert !g[p.row][p.col].isBlack;
    }
  }

  /** _skip_black_cells: forward in row-major order to an open cell, or (0, 0)
      when the grid runs out. */
  function SkipBlack(s: Session): (r: Session)
    requires Good(s)
    ensures Good(r) && r == MoveTo(s, r.Cur())
  {
    MoveTo(s, FirstWhere(s.cells, s.width, s.height, IsOpen, s.row, s.col).GetOr(Pos(0, 0)))
  }

  /** _skip_black_cells_reverse: backward in row-major order, or the last
      cell of the grid. */
  function SkipBlackReverse(s: Session): (r: Session)
    requires Good(s)
    ensures Good(r) && r == MoveTo(s, r.Cur())
  {
    MoveTo(s, LastOpenRowMajor(s.cells, s.width, s.height, s.row, s.col).GetOr(Pos(s.height - 1, s.width - 1)))
  }

  /** _skip_black_cells_up: backward in column-major order, or the last cell
      of the grid. */
  function SkipBlackUp(s: Session): (r: Session)
    requires Good(s)
    ensures Good(r) && r == MoveTo(s, r.Cur())
  {
    MoveTo(s, LastOpenColMajor(s.cells, s.width, s.height, s.row, s.col).GetOr(Pos(s.height - 1, s.width - 1)))
  }

  /** move_right: one column right unless on the last column, then a
      row-major skip over black cells. */
  function MoveRight(s: Session): (r: Session)
    requires Good(s)
    ensures Good(r) && r == MoveTo(s, r.Cur())
  {
    if s.col < s.width - 1 then SkipBlack(s.(col := s.col + 1)) else s
  }

  /** move_down: one row down unless on the last row, then the same
      row-major skip. */
  function MoveDown(s: Session): (r: Session)
    requires Good(s)
    ensures Good(r) && r == MoveTo(s, r.Cur())
  {
    if s.row < s.height - 1 then SkipBlack(s.(row := s.row + 1)) else s
  }

  /** _is_cell_empty: on the grid, open, and without input. */
  predicate IsCellEmpty(s: Session, row: int, col: int) {
    InBounds(s.width, s.height, row, col) && Rect(s.cells, s.width, s.height) &&
    !s.cells[row][col].isBlack && s.cells[row][col].userInput == ""
  }

  /** _move_to_next_empty_cell_across/_down: the next open blank cell further
      along the line through the cursor in d (black cells do not stop the
      search), else no move. */
  function NextEmptyCell(s: Session, d: Direction): (r: Session)
    requires Good(s)
    ensures Good(r) && r == MoveTo(s, r.Cur())
  {
    match NextBlank(CurLine(s, d), Idx(d, s.Cur()))
    case Some(j) => MoveTo(s, PosAt(d, Fixed(d, s.Cur()), j))
    case None => s
  }

  // ---------------------------------------------------------------
  // Signals and completion
  // ---------------------------------------------------------------

  /** The greyout notification for the word through the cursor in d: after a
      fill it fires only for a filled word, after a clear it always fires. */
  function GreyEvent(g: Grid, w: int, h: int, p: Pos, d: Direction, grey: bool): (e: seq<Event>)
    requires Rect(g, w, h) && InGrid(w, h, p)
  {
    var st := WordStart(g, w, h, d, p);
    if !grey || WordFilled(g, w, h, d, st) then
      [GreyoutClue(At(g, st).clueNumber, d, grey)]
    else []
  }

  /** check_filled_word (grey) and ungrey_text (not grey): the notifications
      for the across word, then the down word, through the cursor. */
  function GreyEvents(g: Grid, w: int, h: int, p: Pos, grey: bool): (e: seq<Event>)
    requires Rect(g, w, h) && InGrid(w, h, p)
  {
    GreyEvent(g, w, h, p, Across, grey) + GreyEvent(g, w, h, p, Down, grey)
  }

  /** fill_cell_signals: adjust the fill counter, re-grey (or ungrey) the
      clues of both words through the cursor, announce the new count. */
  function FillSignals(s: Session, minus: bool): (r: Session)
    requires Good(s)
    ensures Good(r)
  {
    if minus then
      s.(filled := s.filled - 1, events := s.events + GreyEvents(s.cells, s.width, s.height, s.Cur(), false) +
                                           [CellCountChanged(s.filled - 1)])
    else
      s.(filled := s.filled + 1, events := s.events + GreyEvents(s.cells, s.width, s.height, s.Cur(), true) +
                                           [CellCountChanged(s.filled + 1)])
  }

  predicate AllOpenCorrect(g: Grid) {
    forall i, j :: 0 <= i < |g| && 0 <= j < |g[i]| && !g[i][j].isBlack ==> g[i][j].IsCorrect()
  }

  /** check_filled_puzzle: when the counter reaches the number of fillable
      cells, either the grid is all correct (solved) or it is not (a
      "mistakes" message); otherwise nothing happens. */
  function CheckFilledPuzzle(s: Session): (r: Session)
    ensures r == s.(solved := r.solved, events := r.events)
    ensures r.solved <==> s.solved || (s.filled == s.fillable && AllOpenCorrect(s.cells))
    ensures s.filled != s.fillable ==> r == s
    ensures s.filled == s.fillable ==> r.events == s.events + [DisplayMessage(AllOpenCorrect(s.cells))]
  {
    if s.filled != s.fillable then s
    else if AllOpenCorrect(s.cells) then s.(solved := true, events := s.events + [DisplayMessage(true)])
    else s.(events := s.events + [DisplayMessage(false)])
  }

  // ---------------------------------------------------------------
  // Editing
  // ---------------------------------------------------------------

  /** _loop_to_empty_in_entry: from the cell after the cursor (or the cursor
      itself) to the entry's end, then from its start, find a cell without
      input; if there is none, step forward unless told not to. */
  function LoopToEmpty(s: Session, isLast: bool, next: bool): (r: Session)
    requires Good(s)
    ensures Good(r) && r == MoveTo(s, r.Cur())
  {
    match EmptyInWord(s.cells, s.width, s.height, s.mode, s.Cur(), next)
    case Some(q) => MoveTo(s, q)
    case None => if next && !isLast then Step(s, s.mode, true) else s
  }

  /** Whether the cursor is on the last cell of its word. */
  predicate AtWordEnd(s: Session)
    requires Good(s)
  {
    var L := CurLine(s, s.mode);
    Idx(s.mode, s.Cur()) == EndIdx(L, Idx(s.mode, s.Cur()))
  }

  /** The edits of _handle_letter_input on the cell under the cursor: the
      character replaces the input (or is appended to it, for a rebus), the
      pencil flag follows the pencil mode and the incorrect mark is dropped;
      a previously blank cell is then counted in. The source sets the two
      flags after the notifications, which read neither of them. */
  function Written(s: Session, ch: char, rebus: bool): (r: Session)
    requires Good(s)
    ensures Good(r) && SameBoard(s, r) && r.Cur() == s.Cur() && r.mode == s.mode
  {
    var c := CurCell(s);
    var x := c.(userInput := if rebus then c.userInput + [ch] else [ch], pencilled := s.pencil, incorrect := false);
    var s1 := PutCell(s, s.Cur(), x);
    if c.userInput == "" then FillSignals(s1, false) else s1
  }

  /** The move after a letter: none for a rebus; after filling a blank cell,
      on to the entry's next blank cell; after overwriting, one step unless
      on the word's last cell. */
  function Advance(s: Session, wasEmpty: bool, rebus: bool): (r: Session)
    requires Good(s)
    ensures Good(r) && r == MoveTo(s, r.Cur())
  {
    if rebus then s
    else if wasEmpty then LoopToEmpty(s, AtWordEnd(s), true)
    else if !AtWordEnd(s) then Step(s, s.mode, true)
    else s
  }

  /** _handle_letter_input with the (upper-cased) character ch. */
  function LetterInput(s: Session, ch: char, rebus: bool): (r: Session)
    requires Good(s)
    ensures Good(r) && SameBoard(s, r)
  {
    var c := CurCell(s);
    if c.isBlack || s.solved then s
    else if c.corrected then Step(s, s.mode, true)
    else CheckFilledPuzzle(Advance(Written(s, ch, rebus), c.userInput == "", rebus))
  }

  /** _handle_letter_input with a raw key code: a key outside 0..Z yields no
      character, so only the early exits and the completion check remain. */
  function LetterKey(s: Session, key: int, rebus: bool): (r: Session)
    requires Good(s)
    ensures Good(r) && SameBoard(s, r)
  {
    if Key0 <= key <= KeyZ then LetterInput(s, UpperChar(key as char), rebus)
    else
      var c := CurCell(s);
      if c.isBlack || s.solved then s
      else if c.corrected then Step(s, s.mode, true)
      else CheckFilledPuzzle(s)
  }

  /** Clears the input and the incorrect mark of the cell under the cursor
      and announces the lower count. The source clears the mark after the
      notifications, which do not read it. */
  function ClearHere(s: Session): (r: Session)
    requires Good(s)
    ensures Good(r) && SameBoard(s, r)
  {
    FillSignals(PutCell(s, s.Cur(), CurCell(s).(userInput := "", incorrect := false)), true)
  }

  /** _handle_delete (Backspace and Delete). */
  function Delete(s: Session): (r: Session)
    requires Good(s)
    ensures Good(r) && SameBoard(s, r)
  {
    var c := CurCell(s);
    if c.isBlack then s
    else if c.userInput != "" && !c.corrected then ClearHere(s)
    else
      var s1 := PrevCell(s);
      if s1.Cur() == s.Cur() then s1
      else
        var pc := CurCell(s1);
        if pc.isBlack || pc.corrected then s1
        else if pc.userInput != "" then ClearHere(s1)
        else PutCell(s1, s1.Cur(), pc.(incorrect := false))
  }

  // ---------------------------------------------------------------
  // Keys
  // ---------------------------------------------------------------

  const KeyTab := 0x01000001
  const KeyBacktab := 0x01000002
  const KeyBackspace := 0x01000003
  const KeyReturn := 0x01000004
  const KeyDelete := 0x01000007
  const KeyLeft := 0x01000012
  const KeyUp := 0x01000013
  const KeyRight := 0x01000014
  const KeyDown := 0x01000015
  const KeySpace := 0x20
  const KeyPeriod := 0x2e
  const Key0 := 0x30
  const KeyZ := 0x5a

  /** keyPressEvent for a key code and modifier mask (any modifier makes a
      letter a rebus letter). Return reaches a call with a missing argument,
      which raises before anything changes. */
  function KeyPress(s: Session, key: int, mods: int): (r: Session)
    requires Good(s)
    ensures Good(r) && SameBoard(s, r)
  {
    if key == KeyLeft || key == KeyRight then
      (if s.mode == Down then s.(mode := Across) else Step(s, Across, key == KeyRight)).(dirty := true)
    else if key == KeyUp || key == KeyDown then
      (if s.mode == Across then s.(mode := Down) else Step(s, Down, key == KeyDown)).(dirty := true)
    else if key == KeyPeriod then
      s.(events := s.events + [PencilToggleRequested])
    else if Key0 <= key <= KeyZ then
      LetterKey(s, key, mods != 0).(dirty := true)
    else if key == KeyBackspace || key == KeyDelete then
      Delete(s).(dirty := true)
    else if key == KeyReturn then
      s
    else if key == KeySpace then
      ToggleMode(s).(dirty := true)
    else
      s
  }
}
