/** The clue passes of the ipuz parser (src/parsers/ipuz_parser.py):
    _parse_clues and _parse_clue_list (lines 130-185), which build one list
    of clues per direction, _extract_answer_from_grid (lines 187-220),
    which reads an answer off the grid when the document gives none, and
    _find_clue_start (lines 222-234), which places a numbered clue. All of
    it is stated here on values; the parser's loops are proved equal to
    these functions in module Ipuz. */
module IpuzClues {
  import opened Base
  import opened Krossword
  import opened Json

  // ---------------------------------------------------------------
  // The first cell with a number
  // ---------------------------------------------------------------

  /** The first column of a row whose cell carries `key`. */
  function FirstInRow(row: seq<Cell>, key: Option<int>): (r: Option<nat>)
    ensures r.Some? ==> r.value < |row| && row[r.value].clueNumber == key
    ensures r.Some? ==> forall c :: 0 <= c < r.value ==> row[c].clueNumber != key
    ensures r.None? ==> forall c :: 0 <= c < |row| ==> row[c].clueNumber != key
  {
    if row == [] then None
    else if row[0].clueNumber == key then Some(0)
    else
      match FirstInRow(row[1..], key)
      case None => None
      case Some(c) => Some(c + 1)
  }

  /** No cell of g before p in row-major order carries `key`. */
  predicate NoneBefore(g: Grid, key: Option<int>, p: Pos) {
    forall i, j :: 0 <= i < |g| && 0 <= j < |g[i]| && (i < p.row || (i == p.row && j < p.col)) ==>
      g[i][j].clueNumber != key
  }

  /** The first cell in row-major order whose number is `key`: the search
      both _extract_answer_from_grid and _find_clue_start open with. */
  function FirstWith(g: Grid, key: Option<int>): (r: Option<Pos>)
    ensures r.Some? ==> 0 <= r.value.row < |g| && 0 <= r.value.col < |g[r.value.row]|
    ensures r.Some? ==> g[r.value.row][r.value.col].clueNumber == key && NoneBefore(g, key, r.value)
    ensures r.None? ==> NoneBefore(g, key, Pos(|g|, 0))
  {
    if g == [] then None
    else
      match FirstInRow(g[0], key)
      case Some(c) => Some(Pos(0, c))
      case None =>
        var rest := FirstWith(g[1..], key);
        assert forall i :: 1 <= i < |g| ==> g[1..][i - 1] == g[i];
        match rest
        case None => None
        case Some(p) => Some(Pos(p.row + 1, p.col))
  }

  /** A cell with the number and none before it is the first one. */
  lemma FirstWithIs(g: Grid, key: Option<int>, p: Pos)
    requires 0 <= p.row < |g| && 0 <= p.col < |g[p.row]| && g[p.row][p.col].clueNumber == key
    requires NoneBefore(g, key, p)
    ensures FirstWith(g, key) == Some(p)
  {
  }

  /** With no cell carrying the number, there is no first one. */
  lemma FirstWithNone(g: Grid, key: Option<int>)
    requires NoneBefore(g, key, Pos(|g|, 0))
    ensures FirstWith(g, key).None?
  {
  }

  // ---------------------------------------------------------------
  // Answers read off the grid
  // ---------------------------------------------------------------

  /** The concatenated solutions of n cells from (r, c) along d. */
  function Solutions(g: Grid, w: int, h: int, d: Direction, r: int, c: int, n: nat): string
    requires RunInGrid(g, w, h, d, r, c, n)
  {
    if n == 0 then "" else Solutions(g, w, h, d, r, c, n - 1) + CellAlong(g, d, r, c, n - 1).solution
  }

  /** The n cells from (r, c) along d are all open, and the next one is
      black or past the edge. */
  predicate MaxRun(g: Grid, w: int, h: int, d: Direction, r: int, c: int, n: nat) {
    RunInGrid(g, w, h, d, r, c, n) &&
    (forall i :: 0 <= i < n ==> !CellAlong(g, d, r, c, i).isBlack) &&
    (RunInGrid(g, w, h, d, r, c, n + 1) ==> CellAlong(g, d, r, c, n).isBlack)
  }

  /** How many open cells follow one another from (r, c) along d. */
  function RunLength(g: Grid, w: int, h: int, d: Direction, r: int, c: int): (n: nat)
    requires Rect(g, w, h) && InBounds(w, h, r, c)
    ensures MaxRun(g, w, h, d, r, c, n)
    decreases if d == Across then w - c else h - r
  {
    if g[r][c].isBlack then 0
    else
      var r2, c2 := if d == Across then r else r + 1, if d == Across then c + 1 else c;
      if !InBounds(w, h, r2, c2) then 1
      else
        var m := RunLength(g, w, h, d, r2, c2);
        assert forall i :: 1 <= i <= m ==> CellAlong(g, d, r, c, i) == CellAlong(g, d, r2, c2, i - 1);
        1 + m
  }

  /** A run of n open cells that ends at a black cell or the edge is the
      run RunLength measures. */
  lemma RunLengthUnique(g: Grid, w: int, h: int, d: Direction, r: int, c: int, n: nat)
    requires Rect(g, w, h) && InBounds(w, h, r, c) && MaxRun(g, w, h, d, r, c, n)
    ensures RunLength(g, w, h, d, r, c) == n
  {
  }

  /** _extract_answer_from_grid: the solutions of the open run from the
      first cell whose number equals the clue's number, along the clue's
      direction; "" when no cell has that number (`key` is the number to
      look for, None when the clue's number can equal no cell's). */
  function ExtractAnswer(g: Grid, w: int, h: int, key: Option<Option<int>>, d: Direction): string
    requires Rect(g, w, h)
  {
    match key
    case None => ""
    case Some(k) =>
      match FirstWith(g, k)
      case None => ""
      case Some(p) => Solutions(g, w, h, d, p.row, p.col, RunLength(g, w, h, d, p.row, p.col))
  }

  /** What ExtractAnswer reads: when some cell carries the number, the
      answer is the solutions of the maximal open run from the first such
      cell; when none does, the answer is empty. */
  lemma ExtractAnswerSpec(g: Grid, w: int, h: int, k: Option<int>, d: Direction)
    requires Rect(g, w, h)
    ensures FirstWith(g, k).None? ==> ExtractAnswer(g, w, h, Some(k), d) == ""
    ensures FirstWith(g, k).Some? ==>
              var p := FirstWith(g, k).value;
              forall n: nat :: MaxRun(g, w, h, d, p.row, p.col, n) ==>
                ExtractAnswer(g, w, h, Some(k), d) == Solutions(g, w, h, d, p.row, p.col, n)
  {
    if FirstWith(g, k).Some? {
      var p := FirstWith(g, k).value;
      forall n: nat | MaxRun(g, w, h, d, p.row, p.col, n)
        ensures ExtractAnswer(g, w, h, Some(k), d) == Solutions(g, w, h, d, p.row, p.col, n)
      {
        RunLengthUnique(g, w, h, d, p.row, p.col, n);
      }
    }
  }

  /** A start cell that is black yields the empty answer. */
  lemma ExtractAnswerAtBlack(g: Grid, w: int, h: int, k: Option<int>, d: Direction)
    requires Rect(g, w, h) && FirstWith(g, k).Some?
    requires var p := FirstWith(g, k).value; g[p.row][p.col].isBlack
    ensures ExtractAnswer(g, w, h, Some(k), d) == ""
  {
    var p := FirstWith(g, k).value;
    assert CellAlong(g, d, p.row, p.col, 0) == g[p.row][p.col];
  }

  // ---------------------------------------------------------------
  // One clue
  // ---------------------------------------------------------------

  /** The three things _parse_clue_list reads from one entry: the number
      value, the text value and the given answer (already upper-cased). */
  datatype Fields = Fields(number: Json, text: Json, answer: string)

  /** A dictionary gives "clue", "answer" (upper-cased, so it must be a
      string) and "number"; a list gives its first item as the number and
      its second as the text; anything else is the text, as str() renders
      it, with no number. */
  function ClueFields(cd: Json): (r: Outcome<Fields>)
    ensures cd.JObj? ==> (r.Ok? <==> Lookup(cd.fields, "answer", JStr("")).JStr?)
    ensures cd.JObj? && r.Ok? ==>
              r.value == Fields(Lookup(cd.fields, "number", JNull), Lookup(cd.fields, "clue", JStr("")),
                                Upper(Lookup(cd.fields, "answer", JStr("")).s))
    ensures cd.JArr? ==> r.Ok? && r.value.answer == ""
    ensures cd.JArr? && |cd.items| > 0 ==> r.value.number == cd.items[0]
    ensures cd.JArr? && |cd.items| == 0 ==> r.value.number == JNull
    ensures cd.JArr? && |cd.items| > 1 ==> r.value.text == cd.items[1]
    ensures cd.JArr? && |cd.items| <= 1 ==> r.value.text == JStr("")
    ensures cd.JStr? ==> r == Ok(Fields(JNull, cd, ""))
    ensures r.Err? ==> cd.JObj? && r.error == Raises
  {
    match cd
    case JObj(m) =>
      var answer :- UpperCall(Lookup(m, "answer", JStr("")));
      Ok(Fields(Lookup(m, "number", JNull), Lookup(m, "clue", JStr("")), answer))
    case JArr(a) =>
      Ok(Fields(if |a| > 0 then a[0] else JNull, if |a| > 1 then a[1] else JStr(""), ""))
    case _ =>
      Ok(Fields(JNull, JStr(PyStr(cd).value), ""))
  }

  /** The clue's number: int() of the number value when it is truthy, else 0. */
  function ClueNumber(v: Json): (r: Outcome<int>)
    ensures !Truthy(v) ==> r == Ok(0)
    ensures v.JNum? ==> r == Ok(v.n)
    ensures v.JStr? && v.s != "" ==> (r.Ok? <==> ParseInt(v.s).Some?)
  {
    if Truthy(v) then IntCall(v) else Ok(0)
  }

  /** One entry of a clue list as the Clue it becomes, before placement:
      the given answer or, when there is none, the one read off the grid;
      the number; the text; start (0, 0); the answer's length. */
  function BuildClue(g: Grid, w: int, h: int, cd: Json, d: Direction): (r: Outcome<Clue>)
    requires Rect(g, w, h)
    ensures r.Ok? ==> r.value.startRow == 0 && r.value.startCol == 0 && r.value.direction == d
    ensures r.Ok? ==> r.value.length == |r.value.answer|
    ensures r.Err? ==> !Rejection(r.error)
    ensures ClueFields(cd).Ok? && ClueNumber(ClueFields(cd).value.number).Ok? ==>
              if ClueFields(cd).value.text.JStr? then r.Ok? else r == Err(Unsupported)
    ensures r.Ok? ==> ClueFields(cd).Ok? && ClueNumber(ClueFields(cd).value.number).Ok? &&
                      ClueFields(cd).value.text.JStr?
    ensures r.Ok? ==> r.value.number == ClueNumber(ClueFields(cd).value.number).value &&
                      r.value.text == ClueFields(cd).value.text.s
  {
    var f :- ClueFields(cd);
    var answer := if f.answer == "" then ExtractAnswer(g, w, h, NumberKey(f.number), d) else f.answer;
    var n :- ClueNumber(f.number);
    var text :- Text(f.text);
    Ok(Clue(n, text, Upper(answer), 0, 0, |answer|, d))
  }

  /** Which answer a clue gets: the given one when it is not empty, and
      otherwise the one read off the grid for the clue's number value. */
  lemma BuildClueAnswer(g: Grid, w: int, h: int, cd: Json, d: Direction)
    requires Rect(g, w, h) && BuildClue(g, w, h, cd, d).Ok?
    ensures ClueFields(cd).Ok?
    ensures var f := ClueFields(cd).value;
            BuildClue(g, w, h, cd, d).value.answer ==
              if f.answer != "" then f.answer else Upper(ExtractAnswer(g, w, h, NumberKey(f.number), d))
  {
    var f := ClueFields(cd).value;
    if f.answer != "" {
      if cd.JObj? {
        UpperIdempotent(Lookup(cd.fields, "answer", JStr("")).s);
      }
    }
  }

  /** Entries that are not dictionaries have no given answer, so theirs is
      read off the grid: a list by its first item, anything else (with no
      number) by the first cell without a number. */
  lemma BuildClueFromList(g: Grid, w: int, h: int, cd: Json, d: Direction)
    requires Rect(g, w, h) && cd.JArr? && |cd.items| > 0 && BuildClue(g, w, h, cd, d).Ok?
    ensures BuildClue(g, w, h, cd, d).value.answer == Upper(ExtractAnswer(g, w, h, NumberKey(cd.items[0]), d))
    ensures cd.items[0].JNum? && cd.items[0].n != 0 ==> BuildClue(g, w, h, cd, d).value.number == cd.items[0].n
  {
    BuildClueAnswer(g, w, h, cd, d);
  }

  // ---------------------------------------------------------------
  // A clue list
  // ---------------------------------------------------------------

  /** A loop that appends one built item per pass: every item, in order,
      or the first failure. */
  function Collect<T>(rs: seq<Outcome<T>>): (r: Outcome<seq<T>>)
    ensures r.Ok? ==> |r.value| == |rs|
    decreases |rs|
  {
    if rs == [] then Ok([])
    else
      var prev :- Collect(rs[..|rs| - 1]);
      var x :- rs[|rs| - 1];
      Ok(prev + [x])
  }

  /** Collect succeeds exactly when every item does. */
  lemma {:induction false} CollectOk<T>(rs: seq<Outcome<T>>)
    ensures Collect(rs).Ok? <==> forall i :: 0 <= i < |rs| ==> rs[i].Ok?
    decreases |rs|
  {
    if rs != [] {
      var n := |rs| - 1;
      var prefix := rs[..n];
      CollectOk(prefix);
      assert forall i :: 0 <= i < n ==> prefix[i] == rs[i];
      assert Collect(rs).Ok? <==> Collect(prefix).Ok? && rs[n].Ok?;
    }
  }

  /** A failed Collect failed with the error of one of its items. */
  lemma {:induction false} CollectError<T>(rs: seq<Outcome<T>>)
    ensures Collect(rs).Err? ==> exists i :: 0 <= i < |rs| && rs[i].Err? && rs[i].error == Collect(rs).error
    decreases |rs|
  {
    if rs != [] {
      var n := |rs| - 1;
      var prefix := rs[..n];
      CollectError(prefix);
      assert forall i :: 0 <= i < n ==> prefix[i] == rs[i];
    }
  }

  /** Item i of a collected list is the value of outcome i. */
  lemma {:induction false} CollectAt<T>(rs: seq<Outcome<T>>, i: nat)
    requires Collect(rs).Ok? && i < |rs|
    ensures rs[i].Ok? && Collect(rs).value[i] == rs[i].value
    decreases |rs|
  {
    var n := |rs| - 1;
    var prefix := rs[..n];
    var prev := Collect(prefix);
    assert prev.Ok? && rs[n].Ok? && Collect(rs).value == prev.value + [rs[n].value];
    if i < n {
      CollectAt(prefix, i);
      assert prefix[i] == rs[i];
    }
  }

  /** Collecting one more item that succeeds appends it. */
  lemma CollectNext<T>(rs: seq<Outcome<T>>, k: nat, cur: seq<T>)
    requires k < |rs| && Collect(rs[..k]) == Ok(cur) && rs[k].Ok?
    ensures Collect(rs[..k + 1]) == Ok(cur + [rs[k].value])
  {
    assert rs[..k + 1][..k] == rs[..k];
  }

  /** An item that fails is the outcome of the whole list. */
  lemma CollectStop<T>(rs: seq<Outcome<T>>, k: nat)
    requires k < |rs| && Collect(rs[..k]).Ok? && rs[k].Err?
    ensures Collect(rs) == Err(rs[k].error)
  {
    assert rs[..k + 1][..k] == rs[..k];
    CollectPrefixFails(rs, k + 1, |rs|);
    assert rs[..|rs|] == rs;
  }

  lemma {:induction false} CollectPrefixFails<T>(rs: seq<Outcome<T>>, j: nat, n: nat)
    requires j <= n <= |rs| && Collect(rs[..j]).Err?
    ensures Collect(rs[..n]) == Collect(rs[..j])
    decreases n - j
  {
    if n > j {
      CollectPrefixFails(rs, j, n - 1);
      assert rs[..n][..n - 1] == rs[..n - 1];
    }
  }

  /** Each entry of a clue list, built. */
  function Built(g: Grid, w: int, h: int, items: seq<Json>, d: Direction): (r: seq<Outcome<Clue>>)
    requires Rect(g, w, h)
    ensures |r| == |items|
  {
    seq(|items|, i requires 0 <= i < |items| => BuildClue(g, w, h, items[i], d))
  }

  /** The first loop of _parse_clue_list: build every entry in order. */
  function BuildAll(g: Grid, w: int, h: int, items: seq<Json>, d: Direction): (r: Outcome<seq<Clue>>)
    requires Rect(g, w, h)
    ensures r.Ok? ==> |r.value| == |items|
  {
    Collect(Built(g, w, h, items, d))
  }

  /** The list is built exactly when every entry is. */
  lemma BuildAllOk(g: Grid, w: int, h: int, items: seq<Json>, d: Direction)
    requires Rect(g, w, h)
    ensures BuildAll(g, w, h, items, d).Ok? <==> forall i :: 0 <= i < |items| ==> BuildClue(g, w, h, items[i], d).Ok?
  {
    var rs := Built(g, w, h, items, d);
    CollectOk(rs);
    assert forall i :: 0 <= i < |items| ==> rs[i] == BuildClue(g, w, h, items[i], d);
  }

  /** The list keeps the order of the entries: the clue at i is entry i,
      built. */
  lemma BuildAllOrder(g: Grid, w: int, h: int, items: seq<Json>, d: Direction, i: nat)
    requires Rect(g, w, h) && BuildAll(g, w, h, items, d).Ok? && i < |items|
    ensures BuildClue(g, w, h, items[i], d).Ok? && BuildAll(g, w, h, items, d).value[i] == BuildClue(g, w, h, items[i], d).value
  {
    CollectAt(Built(g, w, h, items, d), i);
  }

  /** _find_clue_start: the first cell in row-major order with the clue's
      number, else (0, 0). */
  function FindStart(g: Grid, number: int): (p: Pos)
    ensures p == Pos(0, 0) || (0 <= p.row < |g| && 0 <= p.col < |g[p.row]| && g[p.row][p.col].clueNumber == Some(number))
    ensures NoneBefore(g, Some(number), p)
  {
    match FirstWith(g, Some(number))
    case None => Pos(0, 0)
    case Some(p) => p
  }

  /** No cell with the number: the start is (0, 0). */
  lemma FindStartMissing(g: Grid, number: int)
    requires forall i, j :: 0 <= i < |g| && 0 <= j < |g[i]| ==> g[i][j].clueNumber != Some(number)
    ensures FindStart(g, number) == Pos(0, 0)
  {
    if FirstWith(g, Some(number)).Some? {
      assert false;
    }
  }

  /** The second loop of _parse_clue_list on one clue: a positive number
      moves the clue to its start; nothing else changes. */
  function Placed(g: Grid, c: Clue): (r: Clue)
    ensures r == c.(startRow := r.startRow, startCol := r.startCol)
    ensures c.number > 0 ==> Pos(r.startRow, r.startCol) == FindStart(g, c.number)
    ensures c.number <= 0 ==> r == c
  {
    if c.number > 0 then
      var p := FindStart(g, c.number);
      c.(startRow := p.row, startCol := p.col)
    else c
  }

  /** The second loop of _parse_clue_list. */
  function PlaceAll(g: Grid, cs: seq<Clue>): (r: seq<Clue>)
    ensures |r| == |cs|
  {
    seq(|cs|, i requires 0 <= i < |cs| => Placed(g, cs[i]))
  }

  lemma PlaceAllCell(g: Grid, cs: seq<Clue>, i: nat)
    requires i < |cs|
    ensures PlaceAll(g, cs)[i] == Placed(g, cs[i])
  {
  }

  /** _parse_clue_list: iterate the entries, build them, place them. */
  function ClueList(g: Grid, w: int, h: int, list: Json, d: Direction): (r: Outcome<seq<Clue>>)
    requires Rect(g, w, h)
  {
    var items :- Iterate(list);
    var cs :- BuildAll(g, w, h, items, d);
    Ok(PlaceAll(g, cs))
  }

  /** A built list has one clue per entry, in order: entry i, built and
      placed; its length is its answer's; its direction is the list's. */
  lemma ClueListOrder(g: Grid, w: int, h: int, list: Json, d: Direction, i: nat)
    requires Rect(g, w, h) && ClueList(g, w, h, list, d).Ok?
    ensures Iterate(list).Ok? && |ClueList(g, w, h, list, d).value| == |Iterate(list).value|
    ensures i < |Iterate(list).value| ==>
              var items := Iterate(list).value;
              var c := ClueList(g, w, h, list, d).value[i];
              BuildClue(g, w, h, items[i], d).Ok? && c == Placed(g, BuildClue(g, w, h, items[i], d).value) &&
              c.length == |c.answer| && c.direction == d
  {
    var items := Iterate(list).value;
    if i < |items| {
      BuildAllOrder(g, w, h, items, d, i);
      PlaceAllCell(g, BuildAll(g, w, h, items, d).value, i);
    }
  }

  /** Building clue lists fails only on a malformed value. */
  lemma ClueListErrors(g: Grid, w: int, h: int, list: Json, d: Direction)
    requires Rect(g, w, h)
    ensures ClueList(g, w, h, list, d).Err? ==> !Rejection(ClueList(g, w, h, list, d).error)
  {
    var items := Iterate(list);
    if items.Ok? {
      CollectError(Built(g, w, h, items.value, d));
    }
  }

  /** The list stored for one direction: the lower-case key, or the
      capitalised one when that is missing or empty. */
  function ListFor(m: map<string, Json>, lower: string, upper: string): (r: Json)
    ensures Truthy(Lookup(m, lower, JArr([]))) ==> r == m[lower]
    ensures !Truthy(Lookup(m, lower, JArr([]))) ==> r == Lookup(m, upper, JArr([]))
  {
    Or(Lookup(m, lower, JArr([])), Lookup(m, upper, JArr([])))
  }

  /** _parse_clues: the across list, then the down list, from a dictionary. */
  function Clues(g: Grid, w: int, h: int, cd: Json): (r: Outcome<(seq<Clue>, seq<Clue>)>)
    requires Rect(g, w, h)
    ensures !cd.JObj? ==> r == Err(Raises)
  {
    if !cd.JObj? then Err(Raises)
    else
      var across :- ClueList(g, w, h, ListFor(cd.fields, "across", "Across"), Across);
      var down :- ClueList(g, w, h, ListFor(cd.fields, "down", "Down"), Down);
      Ok((across, down))
  }

  lemma CluesErrors(g: Grid, w: int, h: int, cd: Json)
    requires Rect(g, w, h)
    ensures Clues(g, w, h, cd).Err? ==> !Rejection(Clues(g, w, h, cd).error)
  {
    if cd.JObj? {
      ClueListErrors(g, w, h, ListFor(cd.fields, "across", "Across"), Across);
      ClueListErrors(g, w, h, ListFor(cd.fields, "down", "Down"), Down);
    }
  }

  /** Where the clues come from: both lists are the lists the dictionary
      names, and neither mixes in the other direction. */
  lemma CluesLists(g: Grid, w: int, h: int, cd: Json)
    requires Rect(g, w, h) && Clues(g, w, h, cd).Ok?
    ensures cd.JObj?
    ensures Clues(g, w, h, cd).value.0 == ClueList(g, w, h, ListFor(cd.fields, "across", "Across"), Across).value
    ensures Clues(g, w, h, cd).value.1 == ClueList(g, w, h, ListFor(cd.fields, "down", "Down"), Down).value
    ensures forall i :: 0 <= i < |Clues(g, w, h, cd).value.0| ==> Clues(g, w, h, cd).value.0[i].direction == Across
    ensures forall i :: 0 <= i < |Clues(g, w, h, cd).value.1| ==> Clues(g, w, h, cd).value.1[i].direction == Down
  {
    var (a, b) := Clues(g, w, h, cd).value;
    forall i | 0 <= i < |a|
      ensures a[i].direction == Across
    {
      ClueListOrder(g, w, h, ListFor(cd.fields, "across", "Across"), Across, i);
    }
    forall i | 0 <= i < |b|
      ensures b[i].direction == Down
    {
      ClueListOrder(g, w, h, ListFor(cd.fields, "down", "Down"), Down, i);
    }
  }
}
