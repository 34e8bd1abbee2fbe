/** What the check and reveal commands of src/ui/check_and_reveal.py do to
    the puzzle, the fill counter and the notification log, as pure
    functions on grids and on the widget's Session. */
module CheckRevealSpec {
  import opened Base
  import opened Krossword
  import opened Geometry
  import opened EditSpec
  import opened FillCount
  import opened GridMaps

  // ---------------------------------------------------------------
  // Checking
  // ---------------------------------------------------------------

  /** The verdict on one cell: an open cell with input gains the corrected
      mark when the input equals the solution and the incorrect mark
      otherwise; black and blank cells are passed over. No mark is ever
      taken away and nothing but the two marks changes. */
  function Checked(c: Cell): (r: Cell)
    ensures r == c.(corrected := r.corrected, incorrect := r.incorrect)
    ensures r.corrected <==> c.corrected || (Filled(c) && c.IsCorrect())
    ensures r.incorrect <==> c.incorrect || (Filled(c) && !c.IsCorrect())
  {
    if c.isBlack || c.userInput == "" then c
    else if c.IsCorrect() then c.(corrected := true)
    else c.(incorrect := true)
  }

  /** Checking a cell a second time changes nothing. */
  lemma CheckedIdempotent(c: Cell)
    ensures Checked(Checked(c)) == Checked(c)
  {
  }

  /** Checking the same positions twice is checking them once. */
  lemma CheckAtIdempotent(g: Grid, ps: seq<Pos>)
    ensures MapAt(MapAt(g, ps, Checked), ps, Checked) == MapAt(g, ps, Checked)
  {
    var c := MapAt(g, ps, Checked);
    forall i | 0 <= i < |g|
      ensures MapAt(c, ps, Checked)[i] == c[i]
    {
      forall j | 0 <= j < |g[i]|
        ensures MapAt(c, ps, Checked)[i][j] == c[i][j]
      {
        MapAtCell(g, ps, Checked, i, j);
        MapAtCell(c, ps, Checked, i, j);
        CheckedIdempotent(g[i][j]);
      }
    }
  }

  /** Checking never changes what is typed, the solutions or the shape of
      the grid, and never reveals a blank cell: after checking positions on
      which nothing was marked, each filled checked cell carries exactly
      one mark, the one its input deserves, and blank cells none. */
  lemma CheckAtVerdicts(g: Grid, ps: seq<Pos>, p: Pos)
    requires 0 <= p.row < |g| && 0 <= p.col < |g[p.row]|
    requires p in ps && !At(g, p).corrected && !At(g, p).incorrect
    ensures var c := At(MapAt(g, ps, Checked), p);
            c.userInput == At(g, p).userInput && c.solution == At(g, p).solution &&
            c.isBlack == At(g, p).isBlack && c.revealed == At(g, p).revealed
    ensures var c := At(MapAt(g, ps, Checked), p);
            (c.corrected <==> Filled(At(g, p)) && At(g, p).IsCorrect()) &&
            (c.incorrect <==> Filled(At(g, p)) && !At(g, p).IsCorrect()) &&
            !(c.corrected && c.incorrect)
  {
    MapAtCell(g, ps, Checked, p.row, p.col);
  }

  /** Cells away from the checked positions are untouched. */
  lemma CheckAtFrame(g: Grid, ps: seq<Pos>, p: Pos)
    requires 0 <= p.row < |g| && 0 <= p.col < |g[p.row]| && p !in ps
    ensures At(MapAt(g, ps, Checked), p) == At(g, p)
  {
    MapAtCell(g, ps, Checked, p.row, p.col);
  }

  /** check_current_word: the cells of the word under the cursor. */
  function CheckWord(s: Session): (r: Session)
    requires Good(s)
    ensures Good(r) && r == s.(cells := r.cells)
  {
    s.(cells := MapAt(s.cells, WordCells(s), Checked))
  }

  /** Each cell of the word under the cursor receives its verdict: a
      filled cell holding its solution becomes corrected, a filled wrong
      cell that was not corrected becomes incorrect and stays uncorrected,
      and a blank or black cell is left as it was. */
  lemma CheckWordOutcome(s: Session, p: Pos)
    requires Good(s) && InGrid(s.width, s.height, p) && p in WordCells(s)
    ensures var c := At(s.cells, p); var r := At(CheckWord(s).cells, p);
            Filled(c) && c.IsCorrect() ==> r.corrected
    ensures var c := At(s.cells, p); var r := At(CheckWord(s).cells, p);
            Filled(c) && !c.IsCorrect() && !c.corrected ==> r.incorrect && !r.corrected
    ensures var c := At(s.cells, p); var r := At(CheckWord(s).cells, p);
            !Filled(c) ==> r == c
  {
    MapAtCell(s.cells, WordCells(s), Checked, p.row, p.col);
  }

  /** Every cell of the grid checked: the loops of check_answers. */
  function CheckAll(g: Grid): (r: Grid)
    ensures |r| == |g| && forall i :: 0 <= i < |g| ==> |r[i]| == |g[i]|
  {
    MapCells(g, Checked)
  }

  /** Checking the whole grid twice is checking it once, and it marks every
      filled cell as its input deserves. */
  lemma CheckAllVerdicts(g: Grid, i: int, j: int)
    requires 0 <= i < |g| && 0 <= j < |g[i]|
    ensures CheckAll(CheckAll(g))[i][j] == CheckAll(g)[i][j]
    ensures Filled(g[i][j]) ==> CheckAll(g)[i][j].corrected || CheckAll(g)[i][j].incorrect
    ensures CheckAll(g)[i][j].userInput == g[i][j].userInput
  {
    CheckedIdempotent(g[i][j]);
  }

  // ---------------------------------------------------------------
  // Revealing
  // ---------------------------------------------------------------

  /** Revealing a cell twice is revealing it once. */
  lemma RevealIdempotent(c: Cell)
    ensures c.Reveal().Reveal() == c.Reveal()
    ensures c.Reveal().isBlack == c.isBlack && c.Reveal().solution == c.solution
  {
  }

  /** One step of reveal_current_word, and all of reveal_current_letter:
      an open cell takes its solution; when it was blank the widget counts
      it in and re-greys the clues of the cursor's words; then the
      completion check runs. Black cells are passed over. */
  function RevealAt(s: Session, p: Pos): (r: Session)
    requires Good(s) && InGrid(s.width, s.height, p)
    ensures Good(r) && SameBoard(s, r) && r.Cur() == s.Cur() && r.mode == s.mode
  {
    var c := At(s.cells, p);
    if c.isBlack then s
    else
      var s1 := PutCell(s, p, c.Reveal());
      CheckFilledPuzzle(if c.userInput == "" then FillSignals(s1, false) else s1)
  }

  predicate AllInGrid(s: Session, ps: seq<Pos>) {
    forall i :: 0 <= i < |ps| ==> InGrid(s.width, s.height, ps[i])
  }

  /** The positions of ps revealed one after another, as the loop of
      reveal_current_word does. */
  function RevealSeq(s: Session, ps: seq<Pos>): (r: Session)
    requires Good(s) && AllInGrid(s, ps)
    ensures Good(r) && SameBoard(s, r) && r.Cur() == s.Cur() && r.mode == s.mode
    decreases |ps|
  {
    if ps == [] then s else RevealAt(RevealSeq(s, ps[..|ps| - 1]), ps[|ps| - 1])
  }

  /** One more position is one more reveal. */
  lemma RevealSeqSnoc(s: Session, ps: seq<Pos>, q: Pos)
    requires Good(s) && AllInGrid(s, ps) && InGrid(s.width, s.height, q)
    ensures AllInGrid(s, ps + [q])
    ensures RevealSeq(s, ps + [q]) == RevealAt(RevealSeq(s, ps), q)
  {
    assert (ps + [q])[..|ps|] == ps;
  }

  /** A reveal counts the cell in exactly when it was open and blank. */
  lemma RevealAtCount(s: Session, p: Pos)
    requires Good(s) && InGrid(s.width, s.height, p)
    ensures RevealAt(s, p).filled == s.filled + (if !At(s.cells, p).isBlack && At(s.cells, p).userInput == "" then 1 else 0)
  {
  }

  /** reveal_current_word: every cell of the word under the cursor. */
  function RevealWord(s: Session): (r: Session)
    requires Good(s)
    ensures Good(r) && SameBoard(s, r) && r.Cur() == s.Cur() && r.mode == s.mode
  {
    WordCellsInGrid(s);
    RevealSeq(s, WordCells(s))
  }

  lemma WordCellsInGrid(s: Session)
    requires Good(s)
    ensures AllInGrid(s, WordCells(s))
  {
    WordCellsOpen(s);
  }

  /** The reference picture of a reveal of ps: each open cell at one of the
      positions shows its solution, every other cell is as it was. */
  function RevealGrid(g: Grid, ps: seq<Pos>): (r: Grid)
    ensures |r| == |g| && forall i :: 0 <= i < |g| ==> |r[i]| == |g[i]|
  {
    seq(|g|, i requires 0 <= i < |g| =>
      seq(|g[i]|, j requires 0 <= j < |g[i]| =>
        if Pos(i, j) in ps && !g[i][j].isBlack then g[i][j].Reveal() else g[i][j]))
  }

  lemma RevealGridSnoc(g: Grid, ps: seq<Pos>, q: Pos)
    requires 0 <= q.row < |g| && 0 <= q.col < |g[q.row]|
    ensures var c := RevealGrid(g, ps);
            RevealGrid(g, ps + [q]) ==
              if At(g, q).isBlack then c else c[q.row := c[q.row][q.col := At(c, q).Reveal()]]
  {
    var c := RevealGrid(g, ps);
    var r := RevealGrid(g, ps + [q]);
    RevealIdempotent(At(g, q));
    if !At(g, q).isBlack {
      var u := c[q.row := c[q.row][q.col := At(c, q).Reveal()]];
      forall i | 0 <= i < |g|
        ensures r[i] == u[i]
      {
        forall j | 0 <= j < |g[i]|
          ensures r[i][j] == u[i][j]
        {
          assert Pos(i, j) in ps + [q] <==> Pos(i, j) in ps || Pos(i, j) == q;
        }
      }
    } else {
      forall i | 0 <= i < |g|
        ensures r[i] == c[i]
      {
        forall j | 0 <= j < |g[i]|
          ensures r[i][j] == c[i][j]
        {
          assert Pos(i, j) in ps + [q] <==> Pos(i, j) in ps || Pos(i, j) == q;
        }
      }
    }
  }

  /** A sequence of reveals leaves exactly the reference picture. */
  lemma {:induction false} RevealSeqCells(s: Session, ps: seq<Pos>)
    requires Good(s) && AllInGrid(s, ps)
    ensures RevealSeq(s, ps).cells == RevealGrid(s.cells, ps)
    decreases |ps|
  {
    if ps == [] {
      var r := RevealGrid(s.cells, ps);
      forall i | 0 <= i < |r|
        ensures r[i] == s.cells[i]
      {
      }
    } else {
      var n := |ps| - 1;
      RevealSeqCells(s, ps[..n]);
      RevealGridSnoc(s.cells, ps[..n], ps[n]);
      assert ps[..n] + [ps[n]] == ps;
    }
  }

  /** The number of positions of ps that hold an open blank cell. */
  function Blanks(g: Grid, ps: seq<Pos>): (n: nat)
    requires forall i :: 0 <= i < |ps| ==> 0 <= ps[i].row < |g| && 0 <= ps[i].col < |g[ps[i].row]|
    ensures n <= |ps|
  {
    if ps == [] then 0
    else
      var q := ps[|ps| - 1];
      Blanks(g, ps[..|ps| - 1]) + (if !At(g, q).isBlack && At(g, q).userInput == "" then 1 else 0)
  }

  predicate Distinct(ps: seq<Pos>) {
    forall i, j :: 0 <= i < j < |ps| ==> ps[i] != ps[j]
  }

  /** Revealing distinct positions counts in each cell that was blank. */
  lemma {:induction false} RevealSeqCount(s: Session, ps: seq<Pos>)
    requires Good(s) && AllInGrid(s, ps) && Distinct(ps)
    ensures RevealSeq(s, ps).filled == s.filled + Blanks(s.cells, ps)
    decreases |ps|
  {
    if ps != [] {
      var n := |ps| - 1;
      var q := ps[n];
      var r := RevealSeq(s, ps[..n]);
      assert Distinct(ps[..n]);
      RevealSeqCount(s, ps[..n]);
      RevealSeqCells(s, ps[..n]);
      assert q !in ps[..n];
      assert At(r.cells, q) == At(s.cells, q);
      RevealAtCount(r, q);
    }
  }

  /** Each open position of ps has a non-empty solution. */
  predicate Solvable(g: Grid, ps: seq<Pos>)
    requires forall i :: 0 <= i < |ps| ==> 0 <= ps[i].row < |g| && 0 <= ps[i].col < |g[ps[i].row]|
  {
    forall i :: 0 <= i < |ps| && !At(g, ps[i]).isBlack ==> At(g, ps[i]).solution != ""
  }

  /** One reveal keeps the counter equal to the number of filled cells,
      provided the revealed cell has a solution to show. */
  lemma RevealAtKeepsCount(s: Session, p: Pos)
    requires Good(s) && InGrid(s.width, s.height, p)
    requires s.filled == CountFilled(s.cells)
    requires !At(s.cells, p).isBlack ==> At(s.cells, p).solution != ""
    ensures RevealAt(s, p).filled == CountFilled(RevealAt(s, p).cells)
  {
    var c := At(s.cells, p);
    if !c.isBlack {
      CountFilledUpdate(s.cells, p, c.Reveal());
    }
  }

  /** Revealing keeps the counter equal to the number of filled cells. */
  lemma {:induction false} RevealSeqKeepsCount(s: Session, ps: seq<Pos>)
    requires Good(s) && AllInGrid(s, ps) && Solvable(s.cells, ps)
    requires s.filled == CountFilled(s.cells)
    ensures RevealSeq(s, ps).filled == CountFilled(RevealSeq(s, ps).cells)
    decreases |ps|
  {
    if ps != [] {
      var n := |ps| - 1;
      var q := ps[n];
      var r := RevealSeq(s, ps[..n]);
      RevealSeqKeepsCount(s, ps[..n]);
      RevealSeqCells(s, ps[..n]);
      RevealIdempotent(At(s.cells, q));
      assert At(r.cells, q).isBlack == At(s.cells, q).isBlack;
      assert At(r.cells, q).solution == At(s.cells, q).solution;
      RevealAtKeepsCount(r, q);
    }
  }

  /** Distinct positions of a word. */
  lemma WordCellsDistinct(s: Session)
    requires Good(s)
    ensures Distinct(WordCells(s))
  {
    WordCellsRun(s);
  }

  /** After reveal_current_word every open cell of the word shows its
      solution and is marked revealed, and all other cells are unchanged. */
  lemma RevealWordCells(s: Session, p: Pos)
    requires Good(s) && InGrid(s.width, s.height, p)
    ensures var c := At(RevealWord(s).cells, p);
            if p in WordCells(s) && !At(s.cells, p).isBlack then c.IsCorrect() && c.revealed
            else c == At(s.cells, p)
  {
    WordCellsInGrid(s);
    RevealSeqCells(s, WordCells(s));
  }

  /** reveal_current_word adds the number of the word's blank cells to the
      counter. */
  lemma RevealWordCount(s: Session)
    requires Good(s)
    ensures AllInGrid(s, WordCells(s))
    ensures RevealWord(s).filled == s.filled + Blanks(s.cells, WordCells(s))
  {
    WordCellsInGrid(s);
    WordCellsDistinct(s);
    RevealSeqCount(s, WordCells(s));
  }

  /** reveal_current_word keeps the counter equal to the number of filled
      cells when the word's open cells have solutions. */
  lemma RevealWordKeepsCount(s: Session)
    requires Good(s) && s.filled == CountFilled(s.cells)
    requires forall p :: p in WordCells(s) && InGrid(s.width, s.height, p) && !At(s.cells, p).isBlack ==>
               At(s.cells, p).solution != ""
    ensures RevealWord(s).filled == CountFilled(RevealWord(s).cells)
  {
    var ws := WordCells(s);
    WordCellsOpen(s);
    assert Solvable(s.cells, ws) by {
      forall i | 0 <= i < |ws| && !At(s.cells, ws[i]).isBlack
        ensures At(s.cells, ws[i]).solution != ""
      {
        assert ws[i] in ws;
      }
    }
    RevealSeqKeepsCount(s, ws);
  }

  /** reveal_current_letter on an open cell: the cell shows its solution,
      is counted in when it was blank, and the completion check runs with
      the new counter. */
  lemma RevealLetterEffect(s: Session)
    requires Good(s) && !CurCell(s).isBlack
    ensures var r := RevealAt(s, s.Cur());
            CurCell(r) == CurCell(s).Reveal() &&
            r.filled == s.filled + (if CurCell(s).userInput == "" then 1 else 0)
    ensures var r := RevealAt(s, s.Cur());
            r.solved <==> s.solved || (r.filled == s.fillable && AllOpenCorrect(r.cells))
  {
  }

  /** The cell reveal_answers reveals: open, with a solution. */
  function RevealSolvable(c: Cell): (r: Cell)
    ensures !c.isBlack && c.solution != "" ==> r == c.Reveal()
    ensures c.isBlack || c.solution == "" ==> r == c
  {
    if !c.isBlack && c.solution != "" then c.Reveal() else c
  }

  function RevealAll(g: Grid): (r: Grid)
    ensures |r| == |g| && forall i :: 0 <= i < |g| ==> |r[i]| == |g[i]|
  {
    MapCells(g, RevealSolvable)
  }

  /** reveal_answers as the source writes it: the cells are revealed and the
      three notifications go out, but the count is stored in an attribute
      nothing reads, so the fill counter keeps its old value. */
  function RevealAnswersAsWritten(s: Session): (r: Session)
    ensures r == s.(cells := RevealAll(s.cells), events := r.events)
    ensures r.events == s.events + [GreyAllClues, CellCountChanged(s.fillable), DisplayMessage(true)]
  {
    s.(cells := RevealAll(s.cells),
       events := s.events + [GreyAllClues, CellCountChanged(s.fillable), DisplayMessage(true)])
  }

  /** reveal_answers with the counter set to the fillable count, as the
      announced count says it should be. */
  function RevealAnswers(s: Session): (r: Session)
    ensures r == RevealAnswersAsWritten(s).(filled := s.fillable)
  {
    s.(cells := RevealAll(s.cells), filled := s.fillable,
       events := s.events + [GreyAllClues, CellCountChanged(s.fillable), DisplayMessage(true)])
  }

  /** Every open cell with a solution, and no other cell, is revealed. */
  lemma RevealAllCells(g: Grid, i: int, j: int)
    requires 0 <= i < |g| && 0 <= j < |g[i]|
    ensures !g[i][j].isBlack && g[i][j].solution != "" ==> RevealAll(g)[i][j].IsCorrect() && RevealAll(g)[i][j].revealed
    ensures g[i][j].isBlack || g[i][j].solution == "" ==> RevealAll(g)[i][j] == g[i][j]
  {
  }

  /** When every open cell has a solution, the revealed grid is both full
      and correct. */
  lemma {:induction false} RevealAllFills(g: Grid)
    requires forall i, j :: 0 <= i < |g| && 0 <= j < |g[i]| && !g[i][j].isBlack ==> g[i][j].solution != ""
    ensures CountFilled(RevealAll(g)) == CountOpen(g) && AllOpenCorrect(RevealAll(g))
    decreases |g|
  {
    var r := RevealAll(g);
    FullGrid(r);
    assert CountOpen(r) == CountOpen(g) by {
      CountOpenRevealAll(g);
    }
  }

  lemma CountOpenRevealAll(g: Grid)
    ensures CountOpen(RevealAll(g)) == CountOpen(g)
  {
    CountOpenMap(g, RevealSolvable);
  }

  /** With the counter set to the fillable count, reveal_answers keeps the
      counter equal to the number of filled cells whenever the fillable
      count is the number of open cells and every open cell has a
      solution. */
  lemma RevealAnswersKeepsCount(s: Session)
    requires s.fillable == CountOpen(s.cells)
    requires forall i, j :: 0 <= i < |s.cells| && 0 <= j < |s.cells[i]| && !s.cells[i][j].isBlack ==>
               s.cells[i][j].solution != ""
    ensures RevealAnswers(s).filled == CountFilled(RevealAnswers(s).cells)
  {
    RevealAllFills(s.cells);
  }

  /** As written, the counter goes stale: on a one-cell puzzle whose only
      cell is blank, the grid ends up full while the counter stays at 0. */
  lemma RevealAnswersAsWrittenStale()
    ensures var c := Cell("A", "", false, None, false, false, false, false, false, false);
            var s := Session([[c]], 1, 1, [], [], 1, 0, 0, Across, false, 0, false, false, []);
            var r := RevealAnswersAsWritten(s);
            s.filled == CountFilled(s.cells) && s.fillable == CountOpen(s.cells) &&
            r.filled == 0 && CountFilled(r.cells) == 1
  {
    var c := Cell("A", "", false, None, false, false, false, false, false, false);
    var g := RevealAll([[c]]);
    assert g[0][0] == c.Reveal();
    assert g[0] == [c.Reveal()];
    assert g[..0] == [];
  }
}
