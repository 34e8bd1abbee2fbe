/** Tab and Shift+Tab (_move_to_next_entry_start in
    src/ui/crossword_widget.py): the next (or previous) clue whose word is
    not yet filled, switching lists when one runs out, with a fallback for a
    completely filled grid.

    The scan only looks at whether each clue's word is filled, so it is
    stated over two flag sequences, one per clue list (fA for across, fD for
    down), and over indices into those lists. */
module TabSpec {
  import opened Base
  import opened Krossword
  import opened Geometry
  import opened EditSpec

  function Pick<T>(a: seq<T>, d: seq<T>, m: Direction): seq<T> {
    if m == Across then a else d
  }

  /** The clue scan: from index j, forward or backward, the first index
      whose flag is false (whose word is not filled). */
  function ScanFlags(f: seq<bool>, j: int, fwd: bool): (r: Option<int>)
    requires fwd ==> 0 <= j
    requires !fwd ==> j < |f|
    ensures r.Some? ==> 0 <= r.value < |f| && !f[r.value] && (if fwd then j <= r.value else r.value <= j)
    decreases if fwd then |f| - j else j + 1
  {
    if j < 0 || j >= |f| then None
    else if !f[j] then Some(j)
    else ScanFlags(f, if fwd then j + 1 else j - 1, fwd)
  }

  /** Every flag the scan passes over is set: it finds the first unset flag
      in scan order, and finds none only when all the rest are set. */
  lemma {:induction false} ScanFlagsSkipped(f: seq<bool>, j: int, fwd: bool)
    requires fwd ==> 0 <= j
    requires !fwd ==> j < |f|
    ensures var r := ScanFlags(f, j, fwd);
            (r.Some? && fwd ==> forall m :: j <= m < r.value ==> f[m]) &&
            (r.Some? && !fwd ==> forall m :: r.value < m <= j ==> f[m]) &&
            (r.None? && fwd ==> forall m :: j <= m < |f| ==> f[m]) &&
            (r.None? && !fwd ==> forall m :: 0 <= m <= j ==> f[m])
    decreases if fwd then |f| - j else j + 1
  {
    if 0 <= j < |f| && f[j] {
      ScanFlagsSkipped(f, if fwd then j + 1 else j - 1, fwd);
    }
  }

  /** The variables the scan loop updates: the highlight mode (which decides
      the list), the index the scan continues from, and the index of the
      clue found in the current list. */
  datatype TabState = TabState(mode: Direction, cur: int, found: Option<int>)

  predicate TabStateOK(fA: seq<bool>, fD: seq<bool>, t: TabState) {
    -1 <= t.cur <= |Pick(fA, fD, t.mode)| &&
    (t.found.Some? ==> 0 <= t.found.value < |Pick(fA, fD, t.mode)|)
  }

  /** One pass of the two-pass loop: scan the current list from the
      current index; on failure switch mode and list and restart the index
      (before the start, or past the end for Shift). An empty list is skipped
      without a switch; a found clue ends the loop. */
  function TabIter(fA: seq<bool>, fD: seq<bool>, shift: bool, t: TabState): (r: TabState)
    requires TabStateOK(fA, fD, t)
    ensures TabStateOK(fA, fD, r)
  {
    if t.found.Some? then t
    else
      var f := Pick(fA, fD, t.mode);
      if |f| == 0 then t
      else
        match ScanFlags(f, if shift then t.cur - 1 else t.cur + 1, !shift)
        case Some(j) => t.(found := Some(j))
        case None =>
          var m := Toggle(t.mode);
          TabState(m, if shift then |Pick(fA, fD, m)| else -1, None)
  }

  function TabIters(fA: seq<bool>, fD: seq<bool>, shift: bool, t: TabState, n: nat): (r: TabState)
    requires TabStateOK(fA, fD, t)
    ensures TabStateOK(fA, fD, r)
  {
    if n == 0 then t else TabIter(fA, fD, shift, TabIters(fA, fD, shift, t, n - 1))
  }

  /** Where _move_to_next_entry_start sends the cursor: clue `index` of the
      list of `mode`, or an IndexError, raised when the highlight mode the
      handler has set by then is `mode`. */
  datatype TabOutcome = Moved(mode: Direction, index: int) | Raised(mode: Direction)

  /** The fallback for a filled grid, as written: the neighbour of the
      original index in the list now current, else the first (last, for
      Shift) clue of the other list after switching to it. Python raises
      when the index it takes is outside the list it indexes. */
  function FallbackAsWritten(fA: seq<bool>, fD: seq<bool>, shift: bool, m: Direction, oi: int)
    : (r: TabOutcome)
    requires oi >= -1
    ensures r.Moved? ==> 0 <= r.index < |Pick(fA, fD, r.mode)|
    ensures r.Raised? <==> if shift && oi - 1 >= 0 then oi - 1 >= |Pick(fA, fD, m)|
                           else !(!shift && oi + 1 < |Pick(fA, fD, m)|) && |Pick(fA, fD, Toggle(m))| == 0
  {
    var n := |Pick(fA, fD, m)|;
    if !shift && oi + 1 < n then Moved(m, oi + 1)
    else if shift && oi - 1 >= 0 then
      if oi - 1 < n then Moved(m, oi - 1) else Raised(m)
    else
      var m2 := Toggle(m);
      var n2 := |Pick(fA, fD, m2)|;
      if n2 == 0 then Raised(m2)
      else Moved(m2, if shift then n2 - 1 else 0)
  }

  /** The fallback with the Shift branch bounded like the forward one. */
  function Fallback(fA: seq<bool>, fD: seq<bool>, shift: bool, m: Direction, oi: int)
    : (r: Option<(Direction, int)>)
    requires oi >= -1
    ensures r.Some? ==> 0 <= r.value.1 < |Pick(fA, fD, r.value.0)|
    ensures r.None? <==> |Pick(fA, fD, Toggle(m))| == 0 &&
                         !(if shift then 0 <= oi - 1 < |Pick(fA, fD, m)| else oi + 1 < |Pick(fA, fD, m)|)
  {
    var n := |Pick(fA, fD, m)|;
    if !shift && oi + 1 < n then Some((m, oi + 1))
    else if shift && 0 <= oi - 1 < n then Some((m, oi - 1))
    else
      var m2 := Toggle(m);
      var n2 := |Pick(fA, fD, m2)|;
      if n2 == 0 then None
      else Some((m2, if shift then n2 - 1 else 0))
  }

  predicate TabArgsOK(fA: seq<bool>, fD: seq<bool>, m0: Direction, cur: int) {
    -1 <= cur < |Pick(fA, fD, m0)|
  }

  /** Two passes of the loop, unfolded. */
  lemma TwoIters(fA: seq<bool>, fD: seq<bool>, shift: bool, t0: TabState)
    requires TabStateOK(fA, fD, t0)
    ensures TabIters(fA, fD, shift, t0, 2) == TabIter(fA, fD, shift, TabIter(fA, fD, shift, t0))
  {
    assert TabIters(fA, fD, shift, t0, 1) == TabIter(fA, fD, shift, TabIters(fA, fD, shift, t0, 0));
  }

  /** Where the cursor goes, as written: the clue the two passes find, else
      the fallback. */
  function TabTargetAsWritten(fA: seq<bool>, fD: seq<bool>, m0: Direction, cur: int, shift: bool)
    : (r: TabOutcome)
    requires TabArgsOK(fA, fD, m0, cur)
    ensures r.Moved? ==> 0 <= r.index < |Pick(fA, fD, r.mode)|
  {
    var t := TabIters(fA, fD, shift, TabState(m0, cur, None), 2);
    if t.found.Some? then Moved(t.mode, t.found.value)
    else FallbackAsWritten(fA, fD, shift, t.mode, cur)
  }

  /** Mode and clue index the cursor moves to, with the corrected fallback. */
  function TabTarget(fA: seq<bool>, fD: seq<bool>, m0: Direction, cur: int, shift: bool)
    : (r: Option<(Direction, int)>)
    requires TabArgsOK(fA, fD, m0, cur)
    ensures r.Some? ==> 0 <= r.value.1 < |Pick(fA, fD, r.value.0)|
  {
    var t := TabIters(fA, fD, shift, TabState(m0, cur, None), 2);
    if t.found.Some? then Some((t.mode, t.found.value))
    else Fallback(fA, fD, shift, t.mode, cur)
  }

  /** With at least one clue, the corrected target always exists. */
  lemma TabTargetDefined(fA: seq<bool>, fD: seq<bool>, m0: Direction, cur: int, shift: bool)
    requires TabArgsOK(fA, fD, m0, cur) && (|fA| > 0 || |fD| > 0)
    ensures TabTarget(fA, fD, m0, cur, shift).Some?
  {
    var t0 := TabState(m0, cur, None);
    var t1 := TabIter(fA, fD, shift, t0);
    var t2 := TabIter(fA, fD, shift, t1);
    TwoIters(fA, fD, shift, t0);
    if t2.found.None? {
      if |Pick(fA, fD, m0)| == 0 {
        assert t1 == t0 && t2 == t1;
      } else {
        assert t1.mode == Toggle(m0);
        if |Pick(fA, fD, Toggle(m0))| != 0 {
          assert t2.mode == m0;
        }
      }
    }
  }

  /** The Shift+Tab gap: Shift from past the first clue of a list whose
      earlier clues are all filled, with no clue in the other direction. */
  predicate ShiftGap(fA: seq<bool>, fD: seq<bool>, m0: Direction, cur: int, shift: bool) {
    shift && |Pick(fA, fD, Toggle(m0))| == 0 && 1 <= cur < |Pick(fA, fD, m0)| &&
    forall j :: 0 <= j < cur ==> Pick(fA, fD, m0)[j]
  }

  /** The program against the correction: as written, Tab raises exactly
      when there is no clue at all or in the Shift+Tab gap, both times after
      flipping the mode once; everywhere else it goes where the corrected Tab
      goes. */
  lemma TabAsWrittenVsCorrected(fA: seq<bool>, fD: seq<bool>, m0: Direction, cur: int, shift: bool)
    requires TabArgsOK(fA, fD, m0, cur)
    ensures var w := TabTargetAsWritten(fA, fD, m0, cur, shift);
            (w.Raised? <==> (|fA| == 0 && |fD| == 0) || ShiftGap(fA, fD, m0, cur, shift)) &&
            (w.Raised? ==> w.mode == Toggle(m0)) &&
            (w.Moved? ==> TabTarget(fA, fD, m0, cur, shift) == Some((w.mode, w.index)))
  {
    var t0 := TabState(m0, cur, None);
    var t1 := TabIter(fA, fD, shift, t0);
    TwoIters(fA, fD, shift, t0);
    var f0 := Pick(fA, fD, m0);
    var f1 := Pick(fA, fD, Toggle(m0));
    assert Toggle(Toggle(m0)) == m0;
    assert |fA| == 0 && |fD| == 0 <==> |f0| == 0 && |f1| == 0;
    if |f0| == 0 {
      assert t1 == t0;
    } else if shift && |f1| == 0 && 1 <= cur {
      ScanFlagsSkipped(f0, cur - 1, false);
    }
  }

  // ---------------------------------------------------------------
  // The target in closed form
  // ---------------------------------------------------------------

  function FirstFrom(cur: int, shift: bool): int {
    if shift then cur - 1 else cur + 1
  }

  /** An unfilled clue after the current one (before it, for Shift) in the
      current list is chosen: the first such in scan order. */
  lemma TabPicksInCurrentList(fA: seq<bool>, fD: seq<bool>, m0: Direction, cur: int, shift: bool)
    requires TabArgsOK(fA, fD, m0, cur)
    requires ScanFlags(Pick(fA, fD, m0), FirstFrom(cur, shift), !shift).Some?
    ensures var j := ScanFlags(Pick(fA, fD, m0), FirstFrom(cur, shift), !shift).value;
            TabTargetAsWritten(fA, fD, m0, cur, shift) == Moved(m0, j) &&
            TabTarget(fA, fD, m0, cur, shift) == Some((m0, j)) &&
            !Pick(fA, fD, m0)[j] && (if shift then j < cur else cur < j) &&
            forall k :: (if shift then j < k < cur else cur < k < j) ==> Pick(fA, fD, m0)[k]
  {
    var t0 := TabState(m0, cur, None);
    TwoIters(fA, fD, shift, t0);
    ScanFlagsSkipped(Pick(fA, fD, m0), FirstFrom(cur, shift), !shift);
  }

  /** When the rest of the current list is filled, the scan switches
      direction and takes the first unfilled clue of the other list, scanned
      from its start (from its end, for Shift). */
  lemma TabSwitchesList(fA: seq<bool>, fD: seq<bool>, m0: Direction, cur: int, shift: bool)
    requires TabArgsOK(fA, fD, m0, cur) && |Pick(fA, fD, m0)| > 0
    requires ScanFlags(Pick(fA, fD, m0), FirstFrom(cur, shift), !shift).None?
    requires var f1 := Pick(fA, fD, Toggle(m0));
             |f1| > 0 && ScanFlags(f1, if shift then |f1| - 1 else 0, !shift).Some?
    ensures var f1 := Pick(fA, fD, Toggle(m0));
            var j := ScanFlags(f1, if shift then |f1| - 1 else 0, !shift).value;
            TabTargetAsWritten(fA, fD, m0, cur, shift) == Moved(Toggle(m0), j) &&
            TabTarget(fA, fD, m0, cur, shift) == Some((Toggle(m0), j)) && !f1[j] &&
            forall k :: (if shift then j < k < |f1| else 0 <= k < j) ==> f1[k]
  {
    var t0 := TabState(m0, cur, None);
    var t1 := TabIter(fA, fD, shift, t0);
    TwoIters(fA, fD, shift, t0);
    assert t1.mode == Toggle(m0) && t1.found.None?;
    var f1 := Pick(fA, fD, Toggle(m0));
    ScanFlagsSkipped(f1, if shift then |f1| - 1 else 0, !shift);
  }

  /** When every word of both lists is filled, Tab takes the clue next to the
      current one, or else the other list's first clue (last, for Shift). */
  lemma TabFallsBackWhenAllFilled(fA: seq<bool>, fD: seq<bool>, m0: Direction, cur: int, shift: bool)
    requires TabArgsOK(fA, fD, m0, cur) && |fA| > 0 && |fD| > 0
    requires forall j :: 0 <= j < |fA| ==> fA[j]
    requires forall j :: 0 <= j < |fD| ==> fD[j]
    ensures var n := |Pick(fA, fD, m0)|;
            var n1 := |Pick(fA, fD, Toggle(m0))|;
            var w := TabTargetAsWritten(fA, fD, m0, cur, shift);
            w == (if !shift && cur + 1 < n then Moved(m0, cur + 1)
                  else if shift && cur - 1 >= 0 then Moved(m0, cur - 1)
                  else Moved(Toggle(m0), if shift then n1 - 1 else 0)) &&
            TabTarget(fA, fD, m0, cur, shift) == Some((w.mode, w.index))
  {
    var t0 := TabState(m0, cur, None);
    var t1 := TabIter(fA, fD, shift, t0);
    var t2 := TabIter(fA, fD, shift, t1);
    TwoIters(fA, fD, shift, t0);
    var f0 := Pick(fA, fD, m0);
    var f1 := Pick(fA, fD, Toggle(m0));
    assert ScanFlags(f0, FirstFrom(cur, shift), !shift).None?;
    assert t1 == TabState(Toggle(m0), if shift then |f1| else -1, None);
    assert ScanFlags(f1, if shift then |f1| - 1 else 0, !shift).None?;
    assert t2.mode == m0 && t2.found.None?;
  }

  // ---------------------------------------------------------------
  // The Shift+Tab index error
  // ---------------------------------------------------------------

  /** As written, Shift+Tab fails whenever the other direction has no clues,
      the current clue is past the first of its list, and every earlier clue
      is filled: the first pass switches to the empty list, and the fallback
      indexes it, with the mode left flipped. The corrected fallback wraps to
      the last clue of the current list instead. */
  lemma ShiftTabFailsWithoutOtherList(fA: seq<bool>, fD: seq<bool>, m0: Direction, cur: int)
    requires TabArgsOK(fA, fD, m0, cur)
    requires |Pick(fA, fD, Toggle(m0))| == 0
    requires cur >= 1
    requires forall j :: 0 <= j < cur ==> Pick(fA, fD, m0)[j]
    ensures TabTargetAsWritten(fA, fD, m0, cur, true) == Raised(Toggle(m0))
    ensures TabTarget(fA, fD, m0, cur, true) == Some((m0, |Pick(fA, fD, m0)| - 1))
  {
    var t0 := TabState(m0, cur, None);
    var t1 := TabIter(fA, fD, true, t0);
    assert ScanFlags(Pick(fA, fD, m0), cur - 1, false).None?;
    assert t1 == TabState(Toggle(m0), 0, None);
    TwoIters(fA, fD, true, t0);
    assert Toggle(Toggle(m0)) == m0;
  }

  /** The smallest instance: two across clues, the first filled, the cursor on
      the second, no down clues. */
  lemma ShiftTabWitness()
    ensures TabTargetAsWritten([true, false], [], Across, 1, true) == Raised(Down)
    ensures TabTarget([true, false], [], Across, 1, true) == Some((Across, 1))
  {
    ShiftTabFailsWithoutOtherList([true, false], [], Across, 1);
  }

  // ---------------------------------------------------------------
  // Tab on a session
  // ---------------------------------------------------------------

  /** Whether clue j of list L (direction d) has a filled word, judged from
      its start cell. */
  predicate ClueFilled(s: Session, L: seq<Clue>, d: Direction, j: int)
    requires Good(s) && CluesInGrid(L, s.width, s.height) && 0 <= j < |L|
  {
    WordFilled(s.cells, s.width, s.height, d, Pos(L[j].startRow, L[j].startCol))
  }

  /** Whether each clue of L has a filled word, in list order. */
  function FilledFlags(s: Session, L: seq<Clue>, d: Direction): (f: seq<bool>)
    requires Good(s) && CluesInGrid(L, s.width, s.height)
    ensures |f| == |L| && forall j :: 0 <= j < |L| ==> f[j] == ClueFilled(s, L, d, j)
  {
    seq(|L|, j requires 0 <= j < |L| => ClueFilled(s, L, d, j))
  }

  /** Index of the clue of the word under the cursor in its own list, or -1
      when the word's first cell has no (non-zero) number or no clue has it. */
  function CurrentIndex(s: Session): (i: int)
    requires Good(s)
    ensures -1 <= i < |s.Clues(s.mode)|
    ensures i >= 0 ==> Some(s.Clues(s.mode)[i].number) ==
                       At(s.cells, WordStart(s.cells, s.width, s.height, s.mode, s.Cur())).clueNumber
  {
    var n := At(s.cells, WordStart(s.cells, s.width, s.height, s.mode, s.Cur())).clueNumber;
    if n.Some? && n.value != 0 then IndexOfNumber(s.Clues(s.mode), n.value) else -1
  }

  function AcrossFlags(s: Session): (f: seq<bool>)
    requires Good(s)
    ensures |f| == |s.across|
  {
    FilledFlags(s, s.across, Across)
  }

  function DownFlags(s: Session): (f: seq<bool>)
    requires Good(s)
    ensures |f| == |s.down|
  {
    FilledFlags(s, s.down, Down)
  }

  /** Where Tab sends the cursor on a session, as written. */
  function SessionTarget(s: Session, shift: bool): (r: TabOutcome)
    requires Good(s)
    ensures r.Moved? ==> 0 <= r.index < |s.Clues(r.mode)|
  {
    TabTargetAsWritten(AcrossFlags(s), DownFlags(s), s.mode, CurrentIndex(s), shift)
  }

  /** Shift+Tab from a clue past the first of the cursor's list, every
      earlier clue of that list being filled, with no clue in the other
      direction. */
  predicate InShiftGap(s: Session, shift: bool)
    requires Good(s)
  {
    var L := s.Clues(s.mode);
    var i := CurrentIndex(s);
    shift && |s.Clues(Toggle(s.mode))| == 0 && 1 <= i &&
    forall j :: 0 <= j < i ==> ClueFilled(s, L, s.mode, j)
  }

  /** Tab raises an IndexError exactly when there is no clue at all or in
      the Shift+Tab gap, and by then it has flipped the mode once. */
  lemma TabRaisesExactly(s: Session, shift: bool)
    requires Good(s)
    ensures SessionTarget(s, shift).Raised? <==> (|s.across| == 0 && |s.down| == 0) || InShiftGap(s, shift)
    ensures SessionTarget(s, shift).Raised? ==> SessionTarget(s, shift).mode == Toggle(s.mode)
  {
    var fA, fD := AcrossFlags(s), DownFlags(s);
    TabAsWrittenVsCorrected(fA, fD, s.mode, CurrentIndex(s), shift);
    assert Pick(fA, fD, s.mode) == FilledFlags(s, s.Clues(s.mode), s.mode);
    assert |Pick(fA, fD, Toggle(s.mode))| == |s.Clues(Toggle(s.mode))|;
  }

  /** Tab with Shift or without: the cursor goes to the start of the target
      clue in the target's mode, then to the first cell without input of that
      entry, searching from the start cell itself. Where the source raises,
      the cursor stays and the mode is the one the handler had set. */
  function Tab(s: Session, shift: bool): (r: Session)
    requires Good(s)
    ensures Good(r) && CursorOnly(s, r)
  {
    match SessionTarget(s, shift)
    case Raised(m) => s.(mode := m)
    case Moved(m, i) =>
      var cl := s.Clues(m)[i];
      LoopToEmpty(s.(mode := m, row := cl.startRow, col := cl.startCol), false, false)
  }

  /** _handle_navigation: Tab and Backtab go to the next entry, Right and
      Return are move_right and move_down; other keys do nothing. */
  function Navigate(s: Session, key: int, shift: bool): (r: Session)
    requires Good(s)
    ensures Good(r) && CursorOnly(s, r)
  {
    if key == KeyTab || key == KeyBacktab then Tab(s, shift)
    else if key == KeyRight then EditSpec.MoveRight(s)
    else if key == KeyReturn then EditSpec.MoveDown(s)
    else s
  }

  /** Whether _handle_navigation raises: the IndexError of Tab. */
  predicate NavigationRaises(s: Session, key: int, shift: bool)
    requires Good(s)
  {
    (key == KeyTab || key == KeyBacktab) && SessionTarget(s, shift).Raised?
  }

  /** The Tab/Backtab branch of the widget's event handler: navigation, then
      the modified flag, which the exception skips. */
  function TabKeyEvent(s: Session, key: int, shift: bool): (r: Session)
    requires Good(s) && (key == KeyTab || key == KeyBacktab)
    ensures Good(r) && r.(dirty := s.dirty) == Tab(s, shift)
    ensures r.dirty <==> s.dirty || !((|s.across| == 0 && |s.down| == 0) || InShiftGap(s, shift))
  {
    TabRaisesExactly(s, shift);
    var r := Navigate(s, key, shift);
    if NavigationRaises(s, key, shift) then r else r.(dirty := true)
  }
}
