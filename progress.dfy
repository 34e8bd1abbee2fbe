/** Restoring saved progress (load_previous_progress in
    src/ui/crossword_window.py:257-276) and seeding the fill counter
    (line 235 of the same file). The progress record is taken as already
    decoded from JSON; the two window methods the restore calls
    (set_pencil_mode and pause_puzzle_timer) are not part of this model and
    are recorded, in order, in the window's call log. */
module Progress {
  import opened Base
  import opened Krossword
  import opened Geometry
  import opened EditSpec
  import opened GridMaps
  import Ipuz
  import opened FillCount
  import opened Widget

  // ---------------------------------------------------------------
  // The saved record and the timer string
  // ---------------------------------------------------------------

  /** The fields of a progress file that the restore reads. */
  datatype Record = Record(
    position: Pos,
    mode: Direction,
    solved: bool,
    pencil: bool,
    timer: string,
    timerRunning: bool,
    revealedAt: seq<Pos>,
    correctedAt: seq<Pos>,
    incorrectAt: seq<Pos>,
    pencilledAt: seq<Pos>)

  /** Python's str.split with a one-character separator: the pieces between
      the separators, in order, always at least one. */
  function Split(s: string, sep: char): (r: seq<string>)
    ensures |r| >= 1
    ensures forall k :: 0 <= k < |r| ==> sep !in r[k]
    ensures sep !in s ==> r == [s]
    ensures |r| > 1 ==> sep in s
    decreases |s|
  {
    if s == [] then [""]
    else if s[0] == sep then [""] + Split(s[1..], sep)
    else
      var t := Split(s[1..], sep);
      assert sep !in s ==> s == [s[0]] + s[1..] && sep !in s[1..];
      [[s[0]] + t[0]] + t[1..]
  }

  /** The pieces glued back together with the separator between them. */
  function Join(fs: seq<string>, sep: char): string
    requires |fs| >= 1
    decreases |fs|
  {
    if |fs| == 1 then fs[0] else fs[0] + [sep] + Join(fs[1..], sep)
  }

  /** Splitting loses nothing: the pieces joined again give the string. */
  lemma {:induction false} JoinSplit(s: string, sep: char)
    ensures Join(Split(s, sep), sep) == s
    decreases |s|
  {
    if s != [] {
      JoinSplit(s[1..], sep);
      var t := Split(s[1..], sep);
      if s[0] != sep {
        var r := Split(s, sep);
        assert r[1..] == t[1..];
        if |t| > 1 {
          assert Join(r, sep) == [s[0]] + t[0] + [sep] + Join(t[1..], sep);
        }
      }
    }
  }

  /** A separator-free piece followed by the separator splits off as the
      first piece. */
  lemma {:induction false} SplitSplice(a: string, sep: char, b: string)
    requires sep !in a
    ensures Split(a + [sep] + b, sep) == [a] + Split(b, sep)
    decreases |a|
  {
    var s := a + [sep] + b;
    if a == [] {
      assert s[1..] == b;
    } else {
      assert s[1..] == a[1..] + [sep] + b;
      SplitSplice(a[1..], sep, b);
      assert [a[0]] + a[1..] == a;
    }
  }

  /** Splitting a string built from separator-free pieces gives the pieces
      back. */
  lemma {:induction false} SplitJoin(fs: seq<string>, sep: char)
    requires |fs| >= 1 && forall k :: 0 <= k < |fs| ==> sep !in fs[k]
    ensures Split(Join(fs, sep), sep) == fs
    decreases |fs|
  {
    if |fs| > 1 {
      SplitJoin(fs[1..], sep);
      SplitSplice(fs[0], sep, Join(fs[1..], sep));
      assert fs == [fs[0]] + fs[1..];
    }
  }

  lemma DigitsHaveNoColon(s: string)
    requires AllDigits(s)
    ensures ':' !in s
  {
    forall k | 0 <= k < |s|
      ensures s[k] != ':'
    {
      assert IsDigit(s[k]);
    }
  }

  /** The elapsed seconds a timer string "MM:SS" stands for, as
      int(t.split(":")[0]) * 60 + int(t.split(":")[1]) computes them;
      None where Python raises (fewer than two pieces, or a piece that is
      not a number). Pieces after the second are ignored. */
  function ParseTimer(t: string): (r: Option<int>)
    ensures r.Some? ==> ':' in t
  {
    var f := Split(t, ':');
    if |f| < 2 then None
    else match (ParseInt(f[0]), ParseInt(f[1]))
      case (Some(m), Some(s)) => Some(m * 60 + s)
      case _ => None
  }

  /** A timer string whose first two pieces are numerals stands for those
      minutes and seconds. */
  lemma TimerFromPieces(t: string, m: nat, s: nat)
    requires |Split(t, ':')| >= 2
    requires Split(t, ':')[0] == NatToString(m) && Split(t, ':')[1] == NatToString(s)
    ensures ParseTimer(t) == Some(60 * m + s)
  {
    ParseIntOfNatToString(m);
    ParseIntOfNatToString(s);
  }

  /** A timer written as minutes and seconds reads back as the elapsed
      seconds. */
  lemma TimerRoundTrip(m: nat, s: nat)
    ensures ParseTimer(NatToString(m) + ":" + NatToString(s)) == Some(60 * m + s)
  {
    DigitsHaveNoColon(NatToString(m));
    DigitsHaveNoColon(NatToString(s));
    SplitSplice(NatToString(m), ':', NatToString(s));
    TimerFromPieces(NatToString(m) + ":" + NatToString(s), m, s);
  }

  /** Two separator-free pieces, each followed by the separator, split off
      as the first two pieces. */
  lemma SplitTwo(a: string, b: string, rest: string)
    requires ':' !in a && ':' !in b
    ensures Split(a + ":" + b + ":" + rest, ':') == [a, b] + Split(rest, ':')
  {
    var x := b + [':'] + rest;
    SplitSplice(b, ':', rest);
    assert a + ":" + b + ":" + rest == a + [':'] + x;
    SplitSplice(a, ':', x);
  }

  /** A third piece, such as hours or a stray suffix, changes nothing. */
  lemma TimerIgnoresRest(m: nat, s: nat, rest: string)
    ensures ParseTimer(NatToString(m) + ":" + NatToString(s) + ":" + rest) == Some(60 * m + s)
  {
    DigitsHaveNoColon(NatToString(m));
    DigitsHaveNoColon(NatToString(s));
    SplitTwo(NatToString(m), NatToString(s), rest);
    TimerFromPieces(NatToString(m) + ":" + NatToString(s) + ":" + rest, m, s);
  }

  /** A timer string without a colon is refused. */
  lemma TimerNeedsColon(t: string)
    requires ':' !in t
    ensures ParseTimer(t).None?
  {
  }

  // ---------------------------------------------------------------
  // Replaying the flags
  // ---------------------------------------------------------------

  datatype Flag = Revealed | Corrected | Incorrect | Pencilled

  /** The cell with one flag set; nothing else changes. */
  function Mark(c: Cell, f: Flag): (r: Cell)
    ensures r == c.(revealed := r.revealed, corrected := r.corrected,
                    incorrect := r.incorrect, pencilled := r.pencilled)
    ensures r.revealed == (c.revealed || f == Revealed) && r.corrected == (c.corrected || f == Corrected)
    ensures r.incorrect == (c.incorrect || f == Incorrect) && r.pencilled == (c.pencilled || f == Pencilled)
  {
    match f
    case Revealed => c.(revealed := true)
    case Corrected => c.(corrected := true)
    case Incorrect => c.(incorrect := true)
    case Pencilled => c.(pencilled := true)
  }

  function Marker(f: Flag): Cell -> Cell {
    c => Mark(c, f)
  }

  /** The four replays of load_previous_progress, in their fixed order. */
  function Replay(g: Grid, r: Record): (h: Grid)
    ensures |h| == |g| && forall i :: 0 <= i < |g| ==> |h[i]| == |g[i]|
  {
    var g1 := MapAt(g, r.revealedAt, Marker(Revealed));
    var g2 := MapAt(g1, r.correctedAt, Marker(Corrected));
    var g3 := MapAt(g2, r.incorrectAt, Marker(Incorrect));
    MapAt(g3, r.pencilledAt, Marker(Pencilled))
  }

  /** Each replayed cell gains exactly the flags whose lists name it and
      keeps every flag it had; nothing else about it changes, and a cell no
      list names is untouched. So the order of the four replays does not
      matter. */
  lemma ReplayCell(g: Grid, r: Record, i: int, j: int)
    requires 0 <= i < |g| && 0 <= j < |g[i]|
    ensures var c := g[i][j]; var p := Pos(i, j);
            Replay(g, r)[i][j] == c.(revealed := c.revealed || p in r.revealedAt,
                                    corrected := c.corrected || p in r.correctedAt,
                                    incorrect := c.incorrect || p in r.incorrectAt,
                                    pencilled := c.pencilled || p in r.pencilledAt)
  {
    var g1 := MapAt(g, r.revealedAt, Marker(Revealed));
    var g2 := MapAt(g1, r.correctedAt, Marker(Corrected));
    var g3 := MapAt(g2, r.incorrectAt, Marker(Incorrect));
    MarkAtCell(g, r.revealedAt, Revealed, i, j);
    MarkAtCell(g1, r.correctedAt, Corrected, i, j);
    MarkAtCell(g2, r.incorrectAt, Incorrect, i, j);
    MarkAtCell(g3, r.pencilledAt, Pencilled, i, j);
  }

  /** One replay at one cell: the flag is set there when the cell is
      listed, and the cell is kept otherwise. */
  lemma MarkAtCell(g: Grid, ps: seq<Pos>, f: Flag, i: int, j: int)
    requires 0 <= i < |g| && 0 <= j < |g[i]|
    ensures MapAt(g, ps, Marker(f))[i][j] == if Pos(i, j) in ps then Mark(g[i][j], f) else g[i][j]
  {
    MapAtCell(g, ps, Marker(f), i, j);
  }

  /** Grids of one shape that agree on which cells are filled have the same
      count of filled cells. */
  lemma {:induction false} CountFilledSame(g: Grid, h: Grid)
    requires |g| == |h| && forall i :: 0 <= i < |g| ==> |g[i]| == |h[i]|
    requires forall i, j :: 0 <= i < |g| && 0 <= j < |g[i]| ==> Filled(g[i][j]) == Filled(h[i][j])
    ensures CountFilled(g) == CountFilled(h)
    decreases |g|
  {
    if g != [] {
      var n := |g| - 1;
      CountFilledSame(g[..n], h[..n]);
      CountFilledRowSame(g[n], h[n]);
    }
  }

  lemma {:induction false} CountFilledRowSame(a: seq<Cell>, b: seq<Cell>)
    requires |a| == |b| && forall j :: 0 <= j < |a| ==> Filled(a[j]) == Filled(b[j])
    ensures CountFilledRow(a) == CountFilledRow(b)
    decreases |a|
  {
    if a != [] {
      CountFilledRowSame(a[..|a| - 1], b[..|b| - 1]);
    }
  }

  /** The replay writes no input, so the number of filled cells, and with it
      a counter that tracked it, is the same afterwards. */
  lemma ReplayKeepsCount(g: Grid, r: Record)
    ensures CountFilled(Replay(g, r)) == CountFilled(g)
  {
    var h := Replay(g, r);
    forall i, j | 0 <= i < |g| && 0 <= j < |g[i]|
      ensures Filled(g[i][j]) == Filled(h[i][j])
    {
      ReplayCell(g, r, i, j);
    }
    CountFilledSame(g, h);
  }

  /** Cursor, mode and solved flag restored verbatim. */
  function RestoreCursor(s: Session, r: Record): (t: Session)
    ensures SameBoard(s, t) && t.cells == s.cells && t.filled == s.filled && t.events == s.events
    ensures t.Cur() == r.position && t.mode == r.mode && t.solved == r.solved
  {
    s.(row := r.position.row, col := r.position.col, mode := r.mode, solved := r.solved)
  }

  /** The widget after load_previous_progress: the cursor part always, the
      flags only when the timer string was read (otherwise the restore
      stops with an exception before the replays). */
  function Restore(s: Session, r: Record): (t: Session)
    ensures SameBoard(s, t) && t.filled == s.filled && t.events == s.events && t.pencil == s.pencil
    ensures t.Cur() == r.position && t.mode == r.mode && t.solved == r.solved
    ensures ParseTimer(r.timer).None? ==> t.cells == s.cells
  {
    var t := RestoreCursor(s, r);
    if ParseTimer(r.timer).Some? then t.(cells := Replay(s.cells, r)) else t
  }

  /** A restored widget whose cursor lands on the grid is again a good
      session, and a counter that tracked the filled cells still does. */
  lemma RestoreGood(s: Session, r: Record)
    requires Good(s) && InGrid(s.width, s.height, r.position)
    requires s.filled == CountFilled(s.cells)
    ensures Good(Restore(s, r))
    ensures Restore(s, r).filled == CountFilled(Restore(s, r).cells)
  {
    ReplayKeepsCount(s.cells, r);
  }

  // ---------------------------------------------------------------
  // The window and the restore itself
  // ---------------------------------------------------------------

  /** Calls into window methods whose code is not part of this model. */
  datatype WindowCall = SetPencilMode | PausePuzzleTimer

  /** The parts of the crossword window the restore touches. */
  class CrosswordWindow {
    var timerLabel: string
    var elapsedSeconds: int
    var calls: seq<WindowCall>

    constructor ()
      ensures timerLabel == "" && elapsedSeconds == 0 && calls == []
    {
      timerLabel, elapsedSeconds, calls := "", 0, [];
    }
  }

  /** The window calls the restore makes: set_pencil_mode when the record
      had pencil mode on, then, once the timer was read, pause_puzzle_timer
      when the timer was not running. */
  function RestoreCalls(r: Record): (cs: seq<WindowCall>)
    ensures SetPencilMode in cs <==> r.pencil
    ensures PausePuzzleTimer in cs <==> ParseTimer(r.timer).Some? && !r.timerRunning
    ensures |cs| <= 2 && (|cs| == 2 ==> cs == [SetPencilMode, PausePuzzleTimer])
  {
    (if r.pencil then [SetPencilMode] else []) +
    (if ParseTimer(r.timer).Some? && !r.timerRunning then [PausePuzzleTimer] else [])
  }

  /** Every position of the list lies on the grid. */
  predicate OnGrid(w: int, h: int, ps: seq<Pos>) {
    forall k :: 0 <= k < |ps| ==> InGrid(w, h, ps[k])
  }

  /** load_previous_progress on a decoded record. The result says whether
      the timer string could be read; when it could not, the restore stops
      there, as the ValueError or IndexError does, keeping what it had
      already set. */
  method LoadPreviousProgress(window: CrosswordWindow, widget: KrossWordWidget, r: Record) returns (ok: bool)
    requires widget.HasGrid()
    requires OnGrid(widget.puzzle.width, widget.puzzle.height, r.revealedAt)
    requires OnGrid(widget.puzzle.width, widget.puzzle.height, r.correctedAt)
    requires OnGrid(widget.puzzle.width, widget.puzzle.height, r.incorrectAt)
    requires OnGrid(widget.puzzle.width, widget.puzzle.height, r.pencilledAt)
    modifies window, widget, widget.puzzle
    ensures widget.puzzle == old(widget.puzzle)
    ensures ok <==> ParseTimer(r.timer).Some?
    ensures widget.Snap() == Restore(old(widget.Snap()), r)
    ensures window.timerLabel == r.timer
    ensures window.elapsedSeconds == if ok then ParseTimer(r.timer).value else old(window.elapsedSeconds)
    ensures window.calls == old(window.calls) + RestoreCalls(r)
  {
    ghost var s0 := widget.Snap();
    RestoreCursorFields(widget, r);
    if r.pencil {
      window.calls := window.calls + [SetPencilMode];
    }
    ok := RestoreTimer(window, r);
    if !ok {
      return;
    }
    var puzzle := widget.puzzle;
    OnGridCovers(puzzle.cells, puzzle.width, puzzle.height, r);
    puzzle.cells := ReplayCells(puzzle.cells, r);
  }

  /** The first lines of load_previous_progress: cursor, mode and solved
      flag taken from the record. */
  method RestoreCursorFields(widget: KrossWordWidget, r: Record)
    requires widget.puzzle != null
    modifies widget
    ensures widget.puzzle == old(widget.puzzle)
    ensures widget.Snap() == RestoreCursor(old(widget.Snap()), r)
  {
    widget.selectedRow, widget.selectedCol := r.position.row, r.position.col;
    widget.highlightMode := r.mode;
    widget.puzzleSolved := r.solved;
  }

  /** The timer lines of load_previous_progress: the label shows the saved
      string, the elapsed seconds are read from it and the timer is paused
      when it was not running. False where reading the string raises. */
  method RestoreTimer(window: CrosswordWindow, r: Record) returns (ok: bool)
    modifies window
    ensures ok <==> ParseTimer(r.timer).Some?
    ensures window.timerLabel == r.timer
    ensures window.elapsedSeconds == if ok then ParseTimer(r.timer).value else old(window.elapsedSeconds)
    ensures window.calls == old(window.calls) + (if ok && !r.timerRunning then [PausePuzzleTimer] else [])
  {
    window.timerLabel := r.timer;
    var elapsed := ParseTimer(r.timer);
    if elapsed.None? {
      return false;
    }
    window.elapsedSeconds := elapsed.value;
    if !r.timerRunning {
      window.calls := window.calls + [PausePuzzleTimer];
    }
    ok := true;
  }

  /** The four replay loops, one flag after another. */
  method ReplayCells(g: Grid, r: Record) returns (out: Grid)
    requires Covers(g, r.revealedAt) && Covers(g, r.correctedAt)
    requires Covers(g, r.incorrectAt) && Covers(g, r.pencilledAt)
    ensures out == Replay(g, r)
  {
    out := MarkCells(g, r.revealedAt, Revealed);
    out := MarkCells(out, r.correctedAt, Corrected);
    out := MarkCells(out, r.incorrectAt, Incorrect);
    out := MarkCells(out, r.pencilledAt, Pencilled);
  }

  /** Positions on a rectangular grid of the given size are cells of it. */
  lemma OnGridCovers(g: Grid, w: int, h: int, r: Record)
    requires Rect(g, w, h)
    requires OnGrid(w, h, r.revealedAt) && OnGrid(w, h, r.correctedAt)
    requires OnGrid(w, h, r.incorrectAt) && OnGrid(w, h, r.pencilledAt)
    ensures Covers(g, r.revealedAt) && Covers(g, r.correctedAt)
    ensures Covers(g, r.incorrectAt) && Covers(g, r.pencilledAt)
  {
  }

  /** Every listed position is a cell of the grid. */
  predicate Covers(g: Grid, ps: seq<Pos>) {
    forall k :: 0 <= k < |ps| ==> 0 <= ps[k].row < |g| && 0 <= ps[k].col < |g[ps[k].row]|
  }

  /** One replay loop: the flag set on each listed cell in turn. */
  method MarkCells(g: Grid, ps: seq<Pos>, f: Flag) returns (out: Grid)
    requires Covers(g, ps)
    ensures out == MapAt(g, ps, Marker(f))
  {
    out := g;
    MapAtNone(g, Marker(f));
    assert ps[..0] == [];
    var k := 0;
    while k < |ps|
      invariant 0 <= k <= |ps|
      invariant out == MapAt(g, ps[..k], Marker(f))
    {
      var p := ps[k];
      assert ps[..k + 1] == ps[..k] + [p];
      MapAtSnoc(g, ps[..k], p, Marker(f));
      out := out[p.row := out[p.row][p.col := Mark(out[p.row][p.col], f)]];
      k := k + 1;
    }
    assert ps[..k] == ps;
  }

  /** The counter seeding of load_puzzle: the widget's fill counter starts
      from the puzzle's initial filled count, before any replay. Nothing sets
      that count, so it is 0 for a parsed puzzle (Ipuz.IpuzParser.Parse), and
      SeedMissesSavedInput shows a document for which the seed then lags. */
  method SeedFillCounter(widget: KrossWordWidget, puzzle: Puzzle)
    modifies widget`cellsFilled
    ensures widget.cellsFilled == puzzle.initialFilledCells
  {
    widget.cellsFilled := puzzle.initialFilledCells;
  }

  /** A document whose "saved" grid fills its one open cell decodes with one
      filled cell. The parsed puzzle's initial filled count is 0, so the
      counter seeded from it lags (SeedLagsAfterParse). */
  lemma SeedMissesSavedInput()
    ensures Ipuz.Decode(Ipuz.OneSaved).Ok?
    ensures CountFilled(Ipuz.Decode(Ipuz.OneSaved).value.cells) == 1
  {
    Ipuz.DecodeOneSaved();
    var g := [[Ipuz.FilledCell]];
    assert g[..0] == [] && g[0][..0] == [];
    assert CountFilledRow(g[0]) == 1;
  }

  /** Loading that document: parse it, then seed the widget's counter from
      the parsed puzzle. The counter reads 0 while one cell is filled. */
  method SeedLagsAfterParse(widget: KrossWordWidget) returns (p: Puzzle)
    modifies widget`cellsFilled
    ensures widget.cellsFilled == 0 && CountFilled(p.cells) == 1
  {
    var parser := new Ipuz.IpuzParser();
    var r, _ := parser.Parse(Ipuz.OneSaved);
    SeedMissesSavedInput();
    p := r.value;
    SeedFillCounter(widget, p);
  }
}
