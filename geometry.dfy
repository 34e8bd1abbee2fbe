/** Word geometry over a rectangular grid. A "line" is a row (Across) or a
    column (Down) read as a sequence of cells, so every walk of the widget
    along a row or a column is one walk along a line. */
module Geometry {
  import opened Base
  import opened Krossword

  /** Number of lines of a direction, and the length of each. */
  function Lines(w: int, h: int, d: Direction): int { if d == Across then h else w }
  function Span(w: int, h: int, d: Direction): int { if d == Across then w else h }

  /** Which line a position lies on, and where on it. */
  function Fixed(d: Direction, p: Pos): int { if d == Across then p.row else p.col }
  function Idx(d: Direction, p: Pos): int { if d == Across then p.col else p.row }
  function PosAt(d: Direction, k: int, i: int): Pos { if d == Across then Pos(k, i) else Pos(i, k) }

  predicate InGrid(w: int, h: int, p: Pos) { InBounds(w, h, p.row, p.col) }

  function At(g: Grid, p: Pos): Cell
    requires 0 <= p.row < |g| && 0 <= p.col < |g[p.row]|
  {
    g[p.row][p.col]
  }

  /** Line k of direction d. */
  function Line(g: Grid, w: int, h: int, d: Direction, k: int): (L: seq<Cell>)
    requires Rect(g, w, h) && 0 <= k < Lines(w, h, d)
    ensures |L| == Span(w, h, d)
    ensures forall i :: 0 <= i < |L| ==> InGrid(w, h, PosAt(d, k, i)) && L[i] == At(g, PosAt(d, k, i))
  {
    if d == Across then g[k] else seq(h, i requires 0 <= i < h => g[i][k])
  }

  /** The positions lo..hi of line k, in order. */
  function Run(d: Direction, k: int, lo: int, hi: int): seq<Pos>
    requires lo <= hi + 1
  {
    seq(hi - lo + 1, i => PosAt(d, k, lo + i))
  }

  /** A run grows by its next position. */
  lemma RunSnoc(d: Direction, k: int, lo: int, hi: int)
    requires lo <= hi + 1
    ensures Run(d, k, lo, hi + 1) == Run(d, k, lo, hi) + [PosAt(d, k, hi + 1)]
  {
  }

  /** Run lists exactly the positions of line k with index in [lo, hi],
      each once and in increasing order. */
  lemma RunPositions(d: Direction, k: int, lo: int, hi: int)
    requires lo <= hi + 1
    ensures |Run(d, k, lo, hi)| == hi - lo + 1
    ensures forall i :: 0 <= i < |Run(d, k, lo, hi)| ==>
              Fixed(d, Run(d, k, lo, hi)[i]) == k && Idx(d, Run(d, k, lo, hi)[i]) == lo + i
    ensures forall q :: q in Run(d, k, lo, hi) <==> Fixed(d, q) == k && lo <= Idx(d, q) <= hi
  {
    var ps := Run(d, k, lo, hi);
    forall i | 0 <= i < |ps|
      ensures Fixed(d, ps[i]) == k && Idx(d, ps[i]) == lo + i
    {
      assert ps[i] == PosAt(d, k, lo + i);
    }
    forall q | Fixed(d, q) == k && lo <= Idx(d, q) <= hi
      ensures q in ps
    {
      assert ps[Idx(d, q) - lo] == PosAt(d, k, Idx(d, q));
      assert PosAt(d, Fixed(d, q), Idx(d, q)) == q;
    }
  }

  // ---------------------------------------------------------------
  // Word bounds on a line
  // ---------------------------------------------------------------

  /** Walks back from i while the previous cell is open. */
  function StartIdx(L: seq<Cell>, i: int): (s: int)
    requires 0 <= i < |L|
    ensures 0 <= s <= i
    ensures forall j :: s <= j < i ==> !L[j].isBlack
    ensures s == 0 || L[s - 1].isBlack
    decreases i
  {
    if i > 0 && !L[i - 1].isBlack then StartIdx(L, i - 1) else i
  }

  /** Walks forward from i while the next cell is open. */
  function EndIdx(L: seq<Cell>, i: int): (e: int)
    requires 0 <= i < |L|
    ensures i <= e < |L|
    ensures forall j :: i < j <= e ==> !L[j].isBlack
    ensures e == |L| - 1 || L[e + 1].isBlack
    decreases |L| - i
  {
    if i < |L| - 1 && !L[i + 1].isBlack then EndIdx(L, i + 1) else i
  }

  /** The three properties in StartIdx's contract pin the start down. */
  lemma StartIdxUnique(L: seq<Cell>, i: int, s: int)
    requires 0 <= s <= i < |L|
    requires forall j :: s <= j < i ==> !L[j].isBlack
    requires s == 0 || L[s - 1].isBlack
    ensures StartIdx(L, i) == s
  {
  }

  lemma EndIdxUnique(L: seq<Cell>, i: int, e: int)
    requires 0 <= i <= e < |L|
    requires forall j :: i < j <= e ==> !L[j].isBlack
    requires e == |L| - 1 || L[e + 1].isBlack
    ensures EndIdx(L, i) == e
  {
  }

  /** Every open cell of a word has the same bounds. */
  lemma {:induction false} SameWordSameBounds(L: seq<Cell>, i: int, j: int)
    requires 0 <= i < |L| && 0 <= j < |L|
    requires StartIdx(L, i) <= j <= EndIdx(L, i) && !L[j].isBlack && !L[i].isBlack
    ensures StartIdx(L, j) == StartIdx(L, i) && EndIdx(L, j) == EndIdx(L, i)
  {
    var s, e := StartIdx(L, i), EndIdx(L, i);
    assert forall m :: s <= m <= e ==> !L[m].isBlack;
    StartIdxUnique(L, j, s);
    EndIdxUnique(L, j, e);
  }

  // ---------------------------------------------------------------
  // Searches along a line
  // ---------------------------------------------------------------

  /** The first open index at or beyond i in the walking direction. */
  function Seek(L: seq<Cell>, i: int, fwd: bool): (r: Option<int>)
    requires if fwd then 0 <= i <= |L| else -1 <= i < |L|
    ensures r.Some? ==> 0 <= r.value < |L| && !L[r.value].isBlack
    ensures r.Some? && fwd ==> i <= r.value && forall j :: i <= j < r.value ==> L[j].isBlack
    ensures r.Some? && !fwd ==> r.value <= i && forall j :: r.value < j <= i ==> L[j].isBlack
    ensures r.None? && fwd ==> forall j :: i <= j < |L| ==> L[j].isBlack
    ensures r.None? && !fwd ==> forall j :: 0 <= j <= i ==> L[j].isBlack
    decreases if fwd then |L| - i else i + 1
  {
    if i < 0 || i >= |L| then None
    else if !L[i].isBlack then Some(i)
    else Seek(L, if fwd then i + 1 else i - 1, fwd)
  }

  /** The first open cell past p on its line in direction d, walking
      forward or back. */
  function StepOpen(g: Grid, w: int, h: int, d: Direction, p: Pos, fwd: bool): (r: Option<Pos>)
    requires Rect(g, w, h) && InGrid(w, h, p)
    ensures r.Some? ==> InGrid(w, h, r.value) && !At(g, r.value).isBlack && Fixed(d, r.value) == Fixed(d, p)
  {
    var k := Fixed(d, p);
    match Seek(Line(g, w, h, d, k), Idx(d, p) + (if fwd then 1 else -1), fwd)
    case Some(j) => Some(PosAt(d, k, j))
    case None => None
  }

  /** The open cell before p on its line, else the last open cell of the
      previous line, else nothing. */
  function PrevOpen(g: Grid, w: int, h: int, d: Direction, p: Pos): (r: Option<Pos>)
    requires Rect(g, w, h) && InGrid(w, h, p)
    ensures r.Some? ==> InGrid(w, h, r.value) && !At(g, r.value).isBlack
  {
    var k := Fixed(d, p);
    match Seek(Line(g, w, h, d, k), Idx(d, p) - 1, false)
    case Some(j) => Some(PosAt(d, k, j))
    case None => if k > 0 then LastOpenOf(g, w, h, d, k - 1) else None
  }

  /** The last open cell of line k. */
  function LastOpenOf(g: Grid, w: int, h: int, d: Direction, k: int): (r: Option<Pos>)
    requires Rect(g, w, h) && 0 <= k < Lines(w, h, d)
    ensures r.Some? ==> InGrid(w, h, r.value) && !At(g, r.value).isBlack && Fixed(d, r.value) == k
  {
    var L := Line(g, w, h, d, k);
    match Seek(L, |L| - 1, false)
    case Some(j) => Some(PosAt(d, k, j))
    case None => None
  }

  /** The first index of [lo, hi) whose cell has no input. */
  function FirstEmpty(L: seq<Cell>, lo: int, hi: int): (r: Option<int>)
    requires 0 <= lo && hi <= |L|
    ensures r.Some? ==> lo <= r.value < hi && L[r.value].userInput == ""
    ensures r.Some? ==> forall j :: lo <= j < r.value ==> L[j].userInput != ""
    ensures r.None? ==> forall j :: lo <= j < hi ==> L[j].userInput != ""
    decreases hi - lo
  {
    if lo >= hi then None
    else if L[lo].userInput == "" then Some(lo)
    else FirstEmpty(L, lo + 1, hi)
  }

  /** The first index beyond i holding an open cell with no input. */
  function NextBlank(L: seq<Cell>, i: int): (r: Option<int>)
    requires -1 <= i < |L|
    ensures r.Some? ==> i < r.value < |L| && !L[r.value].isBlack && L[r.value].userInput == ""
    ensures r.Some? ==> forall j :: i < j < r.value ==> L[j].isBlack || L[j].userInput != ""
    ensures r.None? ==> forall j :: i < j < |L| ==> L[j].isBlack || L[j].userInput != ""
    decreases |L| - i
  {
    if i + 1 >= |L| then None
    else if !L[i + 1].isBlack && L[i + 1].userInput == "" then Some(i + 1)
    else NextBlank(L, i + 1)
  }

  /** The search of _loop_to_empty_in_entry on a word spanning [st, en] of
      line L, from index i: the first cell without input from i + 1 (or from
      i itself) to en, wrapping to st when that range is empty; failing that,
      the first such cell from st up to where the first search began. */
  function EmptyIn(L: seq<Cell>, i: int, st: int, en: int, next: bool): (r: Option<int>)
    requires 0 <= st <= i <= en < |L|
    ensures r.Some? ==> st <= r.value <= en && L[r.value].userInput == ""
  {
    var from := if next then i + 1 else i;
    var ss := if from > en then st else from;
    match FirstEmpty(L, ss, en + 1)
    case Some(j) => Some(j)
    case None => FirstEmpty(L, st, from)
  }

  /** EmptyIn on the word through p. */
  function EmptyInWord(g: Grid, w: int, h: int, d: Direction, p: Pos, next: bool): (r: Option<Pos>)
    requires Rect(g, w, h) && InGrid(w, h, p)
    ensures r.Some? ==> InGrid(w, h, r.value) && At(g, r.value).userInput == "" && Fixed(d, r.value) == Fixed(d, p)
  {
    var k := Fixed(d, p);
    var L := Line(g, w, h, d, k);
    var i := Idx(d, p);
    match EmptyIn(L, i, StartIdx(L, i), EndIdx(L, i), next)
    case Some(j) => Some(PosAt(d, k, j))
    case None => None
  }

  /** The walk of word_filled: from i, while open, no cell lacks input. */
  predicate RunFilled(L: seq<Cell>, i: int)
    requires 0 <= i <= |L|
    decreases |L| - i
  {
    i == |L| || L[i].isBlack || (L[i].userInput != "" && RunFilled(L, i + 1))
  }

  /** From an open cell, the walk covers exactly the rest of its word. */
  lemma {:induction false} RunFilledIsWordFilled(L: seq<Cell>, i: int)
    requires 0 <= i < |L| && !L[i].isBlack
    ensures RunFilled(L, i) <==> forall j :: i <= j <= EndIdx(L, i) ==> L[j].userInput != ""
    decreases |L| - i
  {
    if i < |L| - 1 && !L[i + 1].isBlack {
      RunFilledIsWordFilled(L, i + 1);
      assert EndIdx(L, i) == EndIdx(L, i + 1);
    }
  }

  // ---------------------------------------------------------------
  // Row-major and column-major searches over the whole grid
  // ---------------------------------------------------------------

  predicate RowMajorBefore(p: Pos, q: Pos) {
    p.row < q.row || (p.row == q.row && p.col < q.col)
  }

  predicate ColMajorBefore(p: Pos, q: Pos) {
    p.col < q.col || (p.col == q.col && p.row < q.row)
  }

  /** The first cell at or after (r, c) in row-major order satisfying f. */
  function FirstWhere(g: Grid, w: int, h: int, f: Cell -> bool, r: int, c: int): (res: Option<Pos>)
    requires Rect(g, w, h) && 0 <= r && 0 <= c
    ensures res.Some? ==> InGrid(w, h, res.value) && f(At(g, res.value)) &&
                          !RowMajorBefore(res.value, Pos(r, c))
    decreases Max0(h - r), Max0(w - c)
  {
    if r >= h then None
    else if c >= w then FirstWhere(g, w, h, f, r + 1, 0)
    else if f(g[r][c]) then Some(Pos(r, c))
    else FirstWhere(g, w, h, f, r, c + 1)
  }

  function IsOpen(c: Cell): bool { !c.isBlack }

  /** The last open cell at or before (r, c) in row-major order. */
  function LastOpenRowMajor(g: Grid, w: int, h: int, r: int, c: int): (res: Option<Pos>)
    requires Rect(g, w, h) && r < h && c < w
    ensures res.Some? ==> InGrid(w, h, res.value) && !At(g, res.value).isBlack &&
                          !RowMajorBefore(Pos(r, c), res.value)
    decreases Max0(r + 1), Max0(c + 1)
  {
    if r < 0 then None
    else if c < 0 then LastOpenRowMajor(g, w, h, r - 1, w - 1)
    else if !g[r][c].isBlack then Some(Pos(r, c))
    else LastOpenRowMajor(g, w, h, r, c - 1)
  }

  /** The last open cell at or before (r, c) in column-major order. */
  function LastOpenColMajor(g: Grid, w: int, h: int, r: int, c: int): (res: Option<Pos>)
    requires Rect(g, w, h) && r < h && c < w
    ensures res.Some? ==> InGrid(w, h, res.value) && !At(g, res.value).isBlack &&
                          !ColMajorBefore(Pos(r, c), res.value)
    decreases Max0(c + 1), Max0(r + 1)
  {
    if c < 0 then None
    else if r < 0 then LastOpenColMajor(g, w, h, h - 1, c - 1)
    else if !g[r][c].isBlack then Some(Pos(r, c))
    else LastOpenColMajor(g, w, h, r - 1, c)
  }

  /** Every cell FirstWhere passes over, from (r, c) up to its answer (or to
      the end of the grid when there is none), fails f. */
  lemma {:induction false} FirstWhereSkipped(g: Grid, w: int, h: int, f: Cell -> bool, r: int, c: int)
    requires Rect(g, w, h) && 0 <= r && 0 <= c
    ensures var res := FirstWhere(g, w, h, f, r, c);
            forall rr, cc :: (InBounds(w, h, rr, cc) && !RowMajorBefore(Pos(rr, cc), Pos(r, c)) &&
                             (res.None? || RowMajorBefore(Pos(rr, cc), res.value))) ==> !f(g[rr][cc])
    decreases Max0(h - r), Max0(w - c)
  {
    if r >= h {
    } else if c >= w {
      FirstWhereSkipped(g, w, h, f, r + 1, 0);
    } else if !f(g[r][c]) {
      FirstWhereSkipped(g, w, h, f, r, c + 1);
    }
  }

  /** Every cell LastOpenRowMajor passes over walking back from (r, c) is
      black. */
  lemma {:induction false} LastOpenRowMajorSkipped(g: Grid, w: int, h: int, r: int, c: int)
    requires Rect(g, w, h) && r < h && c < w
    ensures var res := LastOpenRowMajor(g, w, h, r, c);
            forall rr, cc :: (InBounds(w, h, rr, cc) && !RowMajorBefore(Pos(r, c), Pos(rr, cc)) &&
                             (res.None? || RowMajorBefore(res.value, Pos(rr, cc)))) ==> g[rr][cc].isBlack
    decreases Max0(r + 1), Max0(c + 1)
  {
    if r < 0 {
    } else if c < 0 {
      LastOpenRowMajorSkipped(g, w, h, r - 1, w - 1);
    } else if g[r][c].isBlack {
      LastOpenRowMajorSkipped(g, w, h, r, c - 1);
    }
  }

  /** Every cell LastOpenColMajor passes over walking up from (r, c) is
      black. */
  lemma {:induction false} LastOpenColMajorSkipped(g: Grid, w: int, h: int, r: int, c: int)
    requires Rect(g, w, h) && r < h && c < w
    ensures var res := LastOpenColMajor(g, w, h, r, c);
            forall rr, cc :: (InBounds(w, h, rr, cc) && !ColMajorBefore(Pos(r, c), Pos(rr, cc)) &&
                             (res.None? || ColMajorBefore(res.value, Pos(rr, cc)))) ==> g[rr][cc].isBlack
    decreases Max0(c + 1), Max0(r + 1)
  {
    if c < 0 {
    } else if r < 0 {
      LastOpenColMajorSkipped(g, w, h, h - 1, c - 1);
    } else if g[r][c].isBlack {
      LastOpenColMajorSkipped(g, w, h, r - 1, c);
    }
  }

  // ---------------------------------------------------------------
  // Counting open cells
  // ---------------------------------------------------------------

  function CountOpenRow(row: seq<Cell>): (n: nat)
    ensures n <= |row|
  {
    if row == [] then 0
    else CountOpenRow(row[..|row| - 1]) + (if row[|row| - 1].isBlack then 0 else 1)
  }

  function CountOpen(g: Grid): nat {
    if g == [] then 0 else CountOpen(g[..|g| - 1]) + CountOpenRow(g[|g| - 1])
  }

  /** The set of open positions of a grid. */
  function OpenCells(g: Grid): set<Pos> {
    set r, c | 0 <= r < |g| && 0 <= c < |g[r]| && !g[r][c].isBlack :: Pos(r, c)
  }

  function OpenInRow(row: seq<Cell>, r: int): set<Pos> {
    set c | 0 <= c < |row| && !row[c].isBlack :: Pos(r, c)
  }

  lemma {:induction false} CountOpenRowIsCard(row: seq<Cell>, r: int)
    ensures CountOpenRow(row) == |OpenInRow(row, r)|
    decreases |row|
  {
    if row != [] {
      var n := |row| - 1;
      CountOpenRowIsCard(row[..n], r);
      var before := OpenInRow(row[..n], r);
      if row[n].isBlack {
        assert OpenInRow(row, r) == before;
      } else {
        assert OpenInRow(row, r) == before + {Pos(r, n)};
        assert Pos(r, n) !in before;
      }
    }
  }

  /** CountOpen counts exactly the open positions of the grid. */
  lemma {:induction false} CountOpenIsCard(g: Grid)
    ensures CountOpen(g) == |OpenCells(g)|
    decreases |g|
  {
    if g != [] {
      var n := |g| - 1;
      CountOpenIsCard(g[..n]);
      CountOpenRowIsCard(g[n], n);
      var before := OpenCells(g[..n]);
      var last := OpenInRow(g[n], n);
      assert OpenCells(g) == before + last;
      assert before * last == {} by {
        forall p | p in last ensures p !in before { }
      }
    }
  }
}
