/** IPUZParser.parse (src/parsers/ipuz_parser.py:5-69) on a document
    already decoded from JSON: the crossword-kind and dimension checks, the
    blank grid, the grid and saved-input passes, the clue lists, the
    metadata and the fillable count. Decode states what parse builds; the
    class IpuzParser has the parser's methods, each proved equal to its
    specification function. */
module Ipuz {
  import opened Base
  import opened Krossword
  import opened Json
  import opened Geometry
  import opened IpuzGrid
  import opened IpuzClues

  /** The kind a crossword document must list. */
  const CrosswordKind := "http://ipuz.org/crossword#1"

  /** The title of a document that gives none. */
  const Untitled := "Untitled Crossword"

  /** The versions parse knows; any other is only warned about. */
  const SupportedVersions: seq<string> := ["1.0", "1.1", "2.0"]

  /** What parse builds, field by field. */
  datatype PuzzleData = PuzzleData(
    title: string,
    author: string,
    notes: string,
    difficulty: string,
    category: string,
    width: int,
    height: int,
    cells: Grid,
    across: seq<Clue>,
    down: seq<Clue>,
    fillable: int)

  // ---------------------------------------------------------------
  // The checks at the head of parse
  // ---------------------------------------------------------------

  /** `v <= 0` for a dimension: only numbers and booleans compare with 0. */
  function Dimension(v: Json): (r: Outcome<int>)
    ensures r.Ok? <==> IntOf(v).Some?
    ensures r.Ok? ==> r.value == IntOf(v).value
    ensures r.Err? ==> r.error == Raises
  {
    match IntOf(v)
    case None => Err(Raises)
    case Some(n) => Ok(n)
  }

  /** Whether data.get('kind', []) lists the crossword kind. */
  function KindCheck(data: Json): (r: Outcome<bool>)
    requires data.JObj?
  {
    Contains(Lookup(data.fields, "kind", JArr([])), CrosswordKind)
  }

  /** The "dimensions" dictionary, or {} when there is none. */
  function Dims(data: Json): Json
    requires data.JObj?
  {
    Lookup(data.fields, "dimensions", JObj(map[]))
  }

  /** The checks of parse before any grid is built: a dictionary whose
      kind lists the crossword kind, then a width and a height that are
      both read before the width is compared with 0. */
  function Header(data: Json): (r: Outcome<(int, int)>)
    ensures r.Ok? ==> data.JObj? && r.value.0 > 0 && r.value.1 > 0
  {
    if !data.JObj? then Err(Raises)
    else
      var isCrossword :- KindCheck(data);
      if !isCrossword then Err(NotCrossword)
      else
        if !Dims(data).JObj? then Err(Raises)
        else
          var wv := Lookup(Dims(data).fields, "width", JNum(0));
          var hv := Lookup(Dims(data).fields, "height", JNum(0));
          var w :- Dimension(wv);
          if w <= 0 then Err(BadDimensions)
          else
            var h :- Dimension(hv);
            if h <= 0 then Err(BadDimensions) else Ok((w, h))
  }

  /** Whether parse warns about the document's version: any "version"
      other than one of the supported strings, "1.0" when there is none. */
  predicate VersionWarning(data: Json)
    requires data.JObj?
  {
    var v := Lookup(data.fields, "version", JStr("1.0"));
    !(v.JStr? && v.s in SupportedVersions)
  }

  // ---------------------------------------------------------------
  // The pieces parse assembles
  // ---------------------------------------------------------------

  /** The "puzzle" grid of a document, [] when there is none. */
  function PuzzleGrid(data: Json): Json
    requires data.JObj?
  {
    Lookup(data.fields, "puzzle", JArr([]))
  }

  /** The "saved" grid of a document, [] when there is none. */
  function SavedGrid(data: Json): Json
    requires data.JObj?
  {
    Lookup(data.fields, "saved", JArr([]))
  }

  /** The "clues" dictionary of a document, {} when there is none. */
  function ClueData(data: Json): Json
    requires data.JObj?
  {
    Lookup(data.fields, "clues", JObj(map[]))
  }

  /** The cells parse builds on a w by h blank grid: _parse_grid, then
      _load_saved when "saved" is truthy. */
  function Cells(data: Json, w: nat, h: nat): (r: Outcome<Grid>)
    requires data.JObj?
    ensures r.Ok? ==> Rect(r.value, w, h)
  {
    var g0 := BlankGrid(w, h);
    var g1 :- ParseGrid(g0, PuzzleGrid(data), data);
    ParseGridRect(g0, PuzzleGrid(data), data, w, h);
    if !Truthy(SavedGrid(data)) then Ok(g1)
    else
      var g2 :- LoadSaved(g1, SavedGrid(data));
      LoadSavedRect(g1, SavedGrid(data), w, h);
      Ok(g2)
  }

  /** The five metadata strings: title, author, notes, difficulty,
      category. */
  datatype Meta = Meta(title: string, author: string, notes: string, difficulty: string, category: string)

  /** The metadata of a document, each field "" when missing and the title
      "Untitled Crossword"; a value that is not a string is one the model's
      fields cannot hold. */
  function Metadata(data: Json): (r: Outcome<Meta>)
    requires data.JObj?
    ensures r.Err? ==> r.error == Unsupported
  {
    var m := data.fields;
    var title :- Text(Lookup(m, "title", JStr(Untitled)));
    var author :- Text(Lookup(m, "author", JStr("")));
    var notes :- Text(Lookup(m, "notes", JStr("")));
    var difficulty :- Text(Lookup(m, "difficulty", JStr("")));
    var category :- Text(Lookup(m, "category", JStr("")));
    Ok(Meta(title, author, notes, difficulty, category))
  }

  /** parse: the header checks, the cells, the clues, then the fillable
      count. The metadata is converted last: Python keeps a value of any
      type there, so only a document parse accepts can fail on it. */
  function Decode(data: Json): (r: Outcome<PuzzleData>)
  {
    var dims :- Header(data);
    Assemble(data, dims.0, dims.1)
  }

  /** What parse builds once the header has given the dimensions. */
  function Assemble(data: Json, w: nat, h: nat): (r: Outcome<PuzzleData>)
    requires data.JObj?
  {
    var g :- Cells(data, w, h);
    Finish(data, w, h, g)
  }

  /** What parse builds once the grid g is filled in: the clues, the
      metadata and the fillable count. */
  function Finish(data: Json, w: int, h: int, g: Grid): (r: Outcome<PuzzleData>)
    requires data.JObj? && Rect(g, w, h)
  {
    var clues :- Clues(g, w, h, ClueData(data));
    var meta :- Metadata(data);
    Ok(PuzzleData(meta.title, meta.author, meta.notes, meta.difficulty, meta.category,
                  w, h, g, clues.0, clues.1, CountOpen(g)))
  }

  // ---------------------------------------------------------------
  // What parse promises
  // ---------------------------------------------------------------

  /** The parts an accepted document is assembled from. */
  lemma DecodeParts(data: Json)
    requires Decode(data).Ok?
    ensures Header(data).Ok? && data.JObj?
    ensures var (w, h) := Header(data).value;
            var p := Decode(data).value;
            p.width == w && p.height == h &&
            Cells(data, w, h) == Ok(p.cells) &&
            Clues(p.cells, w, h, ClueData(data)) == Ok((p.across, p.down)) &&
            Metadata(data) == Ok(Meta(p.title, p.author, p.notes, p.difficulty, p.category)) &&
            p.fillable == CountOpen(p.cells)
  {
  }

  /** The puzzle Finish makes from clues and metadata that both succeed. */
  lemma FinishBuilds(data: Json, w: int, h: int, g: Grid, across: seq<Clue>, down: seq<Clue>, meta: Meta)
    requires data.JObj? && Rect(g, w, h)
    requires Clues(g, w, h, ClueData(data)) == Ok((across, down)) && Metadata(data) == Ok(meta)
    ensures Finish(data, w, h, g) == Ok(PuzzleData(meta.title, meta.author, meta.notes, meta.difficulty,
                                                   meta.category, w, h, g, across, down, CountOpen(g)))
  {
  }

  /** Everything after the header fails only on a malformed value. */
  lemma DecodeLateErrors(data: Json)
    requires Header(data).Ok?
    ensures Decode(data).Err? ==> !Rejection(Decode(data).error)
  {
    var (w, h) := Header(data).value;
    var g0 := BlankGrid(w, h);
    ParseGridRaises(g0, PuzzleGrid(data), data);
    var g1 := ParseGrid(g0, PuzzleGrid(data), data);
    if g1.Ok? {
      LoadSavedErrors(g1.value, SavedGrid(data));
      var g := Cells(data, w, h);
      if g.Ok? {
        CluesErrors(g.value, w, h, ClueData(data));
      }
    }
  }

  /** parse rejects a document as not a crossword exactly when its kind
      does not list the crossword kind. */
  lemma DecodeNotCrossword(data: Json)
    ensures Decode(data) == Err(NotCrossword) <==> data.JObj? && KindCheck(data) == Ok(false)
  {
    if Header(data).Ok? {
      DecodeLateErrors(data);
    }
  }

  /** parse rejects the dimensions exactly when the kind is right, the
      width compares with 0 and is at most 0, or it is positive and the
      height compares with 0 and is at most 0. */
  lemma DecodeBadDimensions(data: Json)
    ensures Decode(data) == Err(BadDimensions) <==>
              data.JObj? && KindCheck(data) == Ok(true) && Dims(data).JObj? &&
              var w := IntOf(Lookup(Dims(data).fields, "width", JNum(0)));
              var h := IntOf(Lookup(Dims(data).fields, "height", JNum(0)));
              w.Some? && (w.value <= 0 || (h.Some? && h.value <= 0))
  {
    if Header(data).Ok? {
      DecodeLateErrors(data);
    }
  }

  /** A document parse accepts is a dictionary listing the crossword kind,
      whose width and height are positive numbers, and the puzzle has
      those dimensions. */
  lemma DecodeAccepted(data: Json)
    requires Decode(data).Ok?
    ensures data.JObj? && KindCheck(data) == Ok(true) && Dims(data).JObj?
    ensures var p := Decode(data).value;
            p.width > 0 && p.height > 0 &&
            IntOf(Lookup(Dims(data).fields, "width", JNum(0))) == Some(p.width) &&
            IntOf(Lookup(Dims(data).fields, "height", JNum(0))) == Some(p.height)
  {
    DecodeParts(data);
  }

  /** The puzzle parse builds is one the widget can work on: a rectangle
      of the given size, every clue starting on the grid, and the fillable
      count equal to the number of open cells. */
  lemma DecodeWellFormed(data: Json)
    requires Decode(data).Ok?
    ensures var p := Decode(data).value;
            p.width > 0 && p.height > 0 && Rect(p.cells, p.width, p.height) &&
            CluesInGrid(p.across, p.width, p.height) && CluesInGrid(p.down, p.width, p.height) &&
            p.fillable == CountOpen(p.cells) == |OpenCells(p.cells)|
  {
    var p := Decode(data).value;
    DecodeParts(data);
    CluesLists(p.cells, p.width, p.height, ClueData(data));
    var cd := ClueData(data).fields;
    ListStartsInGrid(p.cells, p.width, p.height, ListFor(cd, "across", "Across"), Across);
    ListStartsInGrid(p.cells, p.width, p.height, ListFor(cd, "down", "Down"), Down);
    CountOpenIsCard(p.cells);
  }

  /** Every clue of a list built on a non-empty grid starts on the grid:
      at its numbered cell, or at (0, 0). */
  lemma ListStartsInGrid(g: Grid, w: int, h: int, list: Json, d: Direction)
    requires w > 0 && h > 0 && Rect(g, w, h) && ClueList(g, w, h, list, d).Ok?
    ensures CluesInGrid(ClueList(g, w, h, list, d).value, w, h)
  {
    var cs := ClueList(g, w, h, list, d).value;
    forall i | 0 <= i < |cs|
      ensures InBounds(w, h, cs[i].startRow, cs[i].startCol)
    {
      ClueListOrder(g, w, h, list, d, i);
    }
  }

  /** What parse puts in cell (i, j): the blank cell, classified by its
      puzzle and solution entries when _parse_grid reaches it, then given
      the saved string as its input when "saved" is truthy and
      _load_saved reaches it; every other cell stays blank. */
  lemma CellsCell(data: Json, w: nat, h: nat, i: nat, j: nat)
    requires data.JObj? && Cells(data, w, h).Ok? && i < h && j < w
    ensures var g := Cells(data, w, h).value;
            var g0 := BlankGrid(w, h);
            var gd, sd := PuzzleGrid(data), Lookup(data.fields, "solution", JArr([]));
            var parsed :=
              if Touched(g0, gd, sd, i, j) then RowStep(g0[i], Index(gd, i).value, Index(sd, i).value, j)
              else Ok(DefaultCell);
            var saved := SavedGrid(data);
            i < |g| && j < |g[i]| && parsed.Ok? &&
            if Truthy(saved) && SavedTouched(g0, saved, i, j) then
              var input := Index(Index(saved, i).value, j);
              input.Ok? && input.value.JStr? && g[i][j] == parsed.value.(userInput := input.value.s)
            else g[i][j] == parsed.value
  {
    var g0 := BlankGrid(w, h);
    var g1 := ParseGrid(g0, PuzzleGrid(data), data);
    ParseGridCell(g0, PuzzleGrid(data), data, i, j);
    ParseGridRect(g0, PuzzleGrid(data), data, w, h);
    if Truthy(SavedGrid(data)) {
      LoadSavedCell(g1.value, SavedGrid(data), i, j);
    }
  }

  /** Clue i of a direction's list is entry i of the list the clues
      dictionary names for it, built and placed, with its answer's
      length; each list has one clue per entry. */
  lemma DecodeClue(data: Json, d: Direction, i: nat)
    requires Decode(data).Ok?
    ensures var p := Decode(data).value;
            var cd := ClueData(data).fields;
            var list := if d == Across then ListFor(cd, "across", "Across") else ListFor(cd, "down", "Down");
            var cs := if d == Across then p.across else p.down;
            Iterate(list).Ok? && |cs| == |Iterate(list).value| &&
            (i < |cs| ==>
               var c := BuildClue(p.cells, p.width, p.height, Iterate(list).value[i], d);
               c.Ok? && cs[i] == Placed(p.cells, c.value) &&
               cs[i].length == |cs[i].answer| && cs[i].direction == d)
  {
    var p := Decode(data).value;
    DecodeParts(data);
    CluesLists(p.cells, p.width, p.height, ClueData(data));
    var cd := ClueData(data).fields;
    var list := if d == Across then ListFor(cd, "across", "Across") else ListFor(cd, "down", "Down");
    ClueListOrder(p.cells, p.width, p.height, list, d, i);
  }

  /** The metadata is the document's, with "" for a missing field and
      "Untitled Crossword" for a missing title. */
  lemma DecodeMetadata(data: Json)
    requires Decode(data).Ok?
    ensures data.JObj?
    ensures var p := Decode(data).value;
            var m := data.fields;
            p.title == (if "title" in m then m["title"].s else Untitled) &&
            p.author == (if "author" in m then m["author"].s else "") &&
            p.notes == (if "notes" in m then m["notes"].s else "") &&
            p.difficulty == (if "difficulty" in m then m["difficulty"].s else "") &&
            p.category == (if "category" in m then m["category"].s else "")
  {
    DecodeParts(data);
  }

  /** The smallest crossword document: the kind and a two by one grid. */
  const Minimal := JObj(map["kind" := JArr([JStr(CrosswordKind)]),
                            "dimensions" := JObj(map["width" := JNum(2), "height" := JNum(1)])])

  /** The smallest crossword gives two blank black cells, no clues and
      nothing to fill. */
  lemma DecodeMinimal()
    ensures Decode(Minimal) == Ok(PuzzleData(Untitled, "", "", "", "", 2, 1, [[DefaultCell, DefaultCell]], [], [], 0))
  {
    var g := [[DefaultCell, DefaultCell]];
    MinimalHeader();
    MinimalCells();
    MinimalClues();
    assert CountOpen(g) == 0 by {
      assert g[..0] == [];
      assert g[0][..1] == [DefaultCell];
      assert g[0][..1][..0] == [];
      assert CountOpenRow(g[0][..1]) == 0;
      assert CountOpenRow(g[0]) == 0;
    }
  }

  lemma MinimalHeader()
    ensures Header(Minimal) == Ok((2, 1))
  {
    assert KindCheck(Minimal) == Ok(true);
  }

  lemma MinimalCells()
    ensures Cells(Minimal, 2, 1) == Ok([[DefaultCell, DefaultCell]])
  {
    var g0 := BlankGrid(2, 1);
    assert g0[0] == [DefaultCell, DefaultCell];
    assert g0 == [[DefaultCell, DefaultCell]];
    assert Limit(1, PuzzleGrid(Minimal), JArr([])) == Ok(0);
  }

  lemma MinimalClues()
    ensures Clues([[DefaultCell, DefaultCell]], 2, 1, ClueData(Minimal)) == Ok(([], []))
  {
    var g := [[DefaultCell, DefaultCell]];
    assert ListFor(map[], "across", "Across") == JArr([]);
    assert ListFor(map[], "down", "Down") == JArr([]);
    assert Built(g, 2, 1, [], Across) == [];
    assert Built(g, 2, 1, [], Down) == [];
  }

  /** A one-cell crossword whose "saved" grid already holds the answer. */
  const OneSaved := JObj(map["kind" := JArr([JStr(CrosswordKind)]),
                             "dimensions" := JObj(map["width" := JNum(1), "height" := JNum(1)]),
                             "puzzle" := JArr([OneRow]),
                             "solution" := JArr([LetterRow]),
                             "saved" := JArr([LetterRow])])
  const OneRow: Json := JArr([JObj(map["cell" := JNum(1)])])
  const LetterRow: Json := JArr([JStr("A")])

  /** The cell it decodes to: open, numbered 1, solution and input "A". */
  const FilledCell: Cell := OpenCell.(userInput := "A")
  const OpenCell: Cell := DefaultCell.(isBlack := false, clueNumber := Some(1), solution := "A")

  /** The saved answer is loaded into the open cell, which is the one cell
      to fill. */
  lemma DecodeOneSaved()
    ensures Decode(OneSaved).Ok?
    ensures Decode(OneSaved).value.cells == [[FilledCell]]
    ensures Decode(OneSaved).value.fillable == 1
  {
    OneSavedHeader();
    OneSavedCells();
    OneSavedFinish();
  }

  lemma OneSavedHeader()
    ensures Header(OneSaved) == Ok((1, 1))
  {
    assert KindCheck(OneSaved) == Ok(true);
  }

  lemma OneSavedFinish()
    ensures Finish(OneSaved, 1, 1, [[FilledCell]]).Ok?
    ensures Finish(OneSaved, 1, 1, [[FilledCell]]).value.cells == [[FilledCell]]
    ensures Finish(OneSaved, 1, 1, [[FilledCell]]).value.fillable == 1
  {
    var g := [[FilledCell]];
    assert ClueData(OneSaved) == JObj(map[]);
    assert Clues(g, 1, 1, ClueData(OneSaved)) == Ok(([], [])) by {
      assert ListFor(map[], "across", "Across") == JArr([]);
      assert ListFor(map[], "down", "Down") == JArr([]);
      assert Built(g, 1, 1, [], Across) == [];
      assert Built(g, 1, 1, [], Down) == [];
    }
    assert CountOpen(g) == 1 by {
      assert g[..0] == [];
      assert g[0][..0] == [];
      assert CountOpenRow(g[0]) == 1;
    }
  }

  /** One step of a one-item loop. */
  lemma UpToOne<T>(x: T, step: Outcome<T>)
    requires step.Ok?
    ensures UpTo([x], [step], 1) == Ok([step.value])
  {
    assert UpTo([x], [step], 0) == Ok([x]);
    assert [x][0 := step.value] == [step.value];
  }

  lemma OneSavedCells()
    ensures Cells(OneSaved, 1, 1) == Ok([[FilledCell]])
  {
    var g0 := BlankGrid(1, 1);
    assert g0 == [[DefaultCell]] by {
      assert g0[0] == [DefaultCell];
    }
    var gd, sd := JArr([OneRow]), JArr([LetterRow]);
    assert PuzzleGrid(OneSaved) == gd;
    assert Get(OneSaved, "solution", JArr([])) == Ok(sd);
    assert ParseGrid(g0, gd, OneSaved) == Ok([[OpenCell]]) by {
      OneRowParsed();
      assert Limit(1, gd, sd) == Ok(1);
      assert GridStep(g0, gd, sd, 0) == Ok([OpenCell]);
      assert GridSteps(g0, gd, sd) == [Ok([OpenCell])];
      UpToOne(g0[0], Ok([OpenCell]));
    }
    assert SavedGrid(OneSaved) == sd;
    assert Truthy(sd);
    OneRowSaved();
  }

  lemma UpperA()
    ensures Upper("A") == "A"
  {
    var u := Upper("A");
    assert u[0] == UpperChar('A') == 'A';
  }

  lemma OneRowParsed()
    ensures ParseRow([DefaultCell], OneRow, LetterRow) == Ok([OpenCell])
  {
    var pc := JObj(map["cell" := JNum(1)]);
    assert HasCell(pc) && pc.fields["cell"] == JNum(1);
    assert Styled(DefaultCell, pc) == DefaultCell;
    UpperA();
    assert Classify(DefaultCell, pc, JStr("A")) == Ok(OpenCell);
    assert RowStep([DefaultCell], OneRow, LetterRow, 0) == Ok(OpenCell);
    assert Limit(1, OneRow, LetterRow) == Ok(1);
    assert RowSteps([DefaultCell], OneRow, LetterRow) == [Ok(OpenCell)];
    UpToOne(DefaultCell, Ok(OpenCell));
  }

  lemma OneRowSaved()
    ensures LoadSaved([[OpenCell]], JArr([LetterRow])) == Ok([[FilledCell]])
  {
    var saved := JArr([LetterRow]);
    assert Limit1(1, saved) == Ok(1);
    assert Limit1(1, LetterRow) == Ok(1);
    assert SavedCells([OpenCell], LetterRow) == [Ok(FilledCell)];
    UpToOne(OpenCell, Ok(FilledCell));
    assert SavedRow([OpenCell], saved, 0) == Ok([FilledCell]);
    assert SavedRows([[OpenCell]], saved) == [Ok([FilledCell])];
    UpToOne([OpenCell], Ok([FilledCell]));
  }

  // ---------------------------------------------------------------
  // The parser's loops
  // ---------------------------------------------------------------

  /** The row-major search the parser runs over a grid for the first cell
      whose number equals `key` (None: a value no number equals). */
  method FirstCell(g: Grid, w: int, h: int, key: Option<Option<int>>) returns (found: Option<Pos>)
    requires Rect(g, w, h)
    ensures key.None? ==> found.None?
    ensures key.Some? ==> found == FirstWith(g, key.value)
  {
    var r := 0;
    while r < h
      invariant 0 <= r <= h
      invariant key.Some? ==> NoneBefore(g, key.value, Pos(r, 0))
    {
      assert |g[r]| == w;
      var c := 0;
      while c < w
        invariant 0 <= c <= w
        invariant key.Some? ==> NoneBefore(g, key.value, Pos(r, c))
      {
        if key == Some(g[r][c].clueNumber) {
          FirstWithIs(g, key.value, Pos(r, c));
          return Some(Pos(r, c));
        }
        c := c + 1;
      }
      r := r + 1;
    }
    if key.Some? {
      FirstWithNone(g, key.value);
    }
    return None;
  }

  /** The scan of _extract_answer_from_grid from (r, c) along d: the
      solutions of the open cells up to a black cell or the edge. */
  method ScanRun(g: Grid, w: int, h: int, d: Direction, r: int, c: int) returns (answer: string)
    requires Rect(g, w, h) && InBounds(w, h, r, c)
    ensures answer == Solutions(g, w, h, d, r, c, RunLength(g, w, h, d, r, c))
  {
    answer := "";
    var i := 0;
    while if d == Across then c + i < w else r + i < h
      invariant MaxRunSoFar(g, w, h, d, r, c, i)
      invariant answer == Solutions(g, w, h, d, r, c, i)
      decreases if d == Across then w - c - i else h - r - i
    {
      var cell := if d == Across then g[r][c + i] else g[r + i][c];
      if cell.isBlack {
        break;
      }
      answer := answer + cell.solution;
      i := i + 1;
    }
    RunLengthUnique(g, w, h, d, r, c, i);
  }

  /** The parser of ipuz documents. */
  class IpuzParser {
    const supportedVersions: seq<string>

    constructor ()
      ensures supportedVersions == SupportedVersions
    {
      supportedVersions := SupportedVersions;
    }

    /** parse: the header checks, a fresh puzzle with a blank grid, the
        grid, saved-input and clue passes, the metadata and the fillable
        count; `warned` is the version warning parse prints. */
    method Parse(data: Json) returns (r: Outcome<Puzzle>, warned: bool)
      requires supportedVersions == SupportedVersions
      ensures r.Ok? <==> Decode(data).Ok?
      ensures r.Err? ==> r.error == Decode(data).error
      ensures r.Ok? ==> fresh(r.value) && Data(r.value) == Decode(data).value &&
                        !r.value.solutionState && r.value.initialFilledCells == 0
      ensures warned <==> data.JObj? && KindCheck(data) == Ok(true) && VersionWarning(data)
    {
      warned := false;
      if !data.JObj? {
        return Err(Raises), warned;
      }
      var kind := KindCheck(data);
      if kind.Err? {
        return Err(kind.error), warned;
      }
      if !kind.value {
        return Err(NotCrossword), warned;
      }
      var version := Lookup(data.fields, "version", JStr("1.0"));
      warned := !(version.JStr? && version.s in supportedVersions);
      var dims := Header(data);
      if dims.Err? {
        return Err(dims.error), warned;
      }
      var (w, h) := dims.value;
      r := Build(data, w, h);
    }

    /** The rest of parse, from the puzzle's creation on: a blank grid of
        the header's dimensions, the grid and saved-input passes, the
        clues, the metadata and the fillable count. */
    method Build(data: Json, w: nat, h: nat) returns (r: Outcome<Puzzle>)
      requires data.JObj?
      ensures r.Ok? <==> Assemble(data, w, h).Ok?
      ensures r.Err? ==> r.error == Assemble(data, w, h).error
      ensures r.Ok? ==> fresh(r.value) && Data(r.value) == Assemble(data, w, h).value &&
                        !r.value.solutionState && r.value.initialFilledCells == 0
    {
      var made := NewPuzzle(data, w, h);
      if made.Err? {
        return Err(made.error);
      }
      var puzzle := made.value;
      var done := Complete(puzzle, data);
      if done.Err? {
        return Err(done.error);
      }
      return Ok(puzzle);
    }

    /** The rest of parse on a puzzle whose grid is filled in: the clues,
        the fillable count and the metadata. */
    method Complete(p: Puzzle, data: Json) returns (out: Outcome<()>)
      requires data.JObj? && Rect(p.cells, p.width, p.height)
      modifies p`acrossClues, p`downClues, p`fillableCellCount
      modifies p`title, p`author, p`notes, p`difficulty, p`category
      ensures var f := Finish(data, p.width, p.height, p.cells);
              (out.Ok? <==> f.Ok?) && (out.Err? ==> out.error == f.error) &&
              (out.Ok? ==> Data(p) == f.value)
    {
      ghost var w, h, g := p.width, p.height, p.cells;
      var clues := ParseClues(p, ClueData(data));
      if clues.Err? {
        return Err(clues.error);
      }
      ghost var across, down := p.acrossClues, p.downClues;
      assert Clues(g, w, h, ClueData(data)) == Ok((across, down));
      out := SetMetadata(p, data);
      if out.Err? {
        return;
      }
      GetFillableCellCount(p);
      FinishBuilds(data, w, h, g, across, down, Metadata(data).value);
    }

    /** The five metadata strings of the document stored on the puzzle. */
    method SetMetadata(p: Puzzle, data: Json) returns (out: Outcome<()>)
      requires data.JObj?
      modifies p`title, p`author, p`notes, p`difficulty, p`category
      ensures out.Ok? <==> Metadata(data).Ok?
      ensures out.Err? ==> out.error == Metadata(data).error
      ensures out.Ok? ==> Metadata(data).value == Meta(p.title, p.author, p.notes, p.difficulty, p.category)
    {
      var meta := Metadata(data);
      if meta.Err? {
        return Err(meta.error);
      }
      var m := meta.value;
      p.title, p.author, p.notes := m.title, m.author, m.notes;
      p.difficulty, p.category := m.difficulty, m.category;
      return Ok(());
    }

    /** A new puzzle with a blank grid of w by h cells, through the grid
        and saved-input passes. */
    method NewPuzzle(data: Json, w: nat, h: nat) returns (r: Outcome<Puzzle>)
      requires data.JObj?
      ensures r.Ok? <==> Cells(data, w, h).Ok?
      ensures r.Err? ==> r.error == Cells(data, w, h).error
      ensures r.Ok? ==> fresh(r.value) && r.value.width == w && r.value.height == h &&
                        r.value.cells == Cells(data, w, h).value &&
                        !r.value.solutionState && r.value.initialFilledCells == 0
    {
      var puzzle := new Puzzle();
      puzzle.InitializeGrid(w, h);
      var cells := FillCells(puzzle, data);
      if cells.Err? {
        return Err(cells.error);
      }
      return Ok(puzzle);
    }

    /** The grid passes of parse on a blank puzzle: _parse_grid, then
        _load_saved when "saved" is truthy. */
    method FillCells(p: Puzzle, data: Json) returns (out: Outcome<()>)
      requires data.JObj? && p.width >= 0 && p.height >= 0 && p.cells == BlankGrid(p.width, p.height)
      modifies p`cells
      ensures var c := Cells(data, p.width, p.height);
              (out.Ok? <==> c.Ok?) && (out.Err? ==> out.error == c.error) &&
              (out.Ok? ==> p.cells == c.value && Rect(p.cells, p.width, p.height))
    {
      ghost var g0 := p.cells;
      out := ParseGrid(p, PuzzleGrid(data), data);
      if out.Err? {
        return;
      }
      ParseGridRect(g0, PuzzleGrid(data), data, p.width, p.height);
      var saved := SavedGrid(data);
      if Truthy(saved) {
        ghost var g1 := p.cells;
        out := LoadSaved(p, saved);
        if out.Ok? {
          LoadSavedRect(g1, saved, p.width, p.height);
        }
      }
    }

    /** get_fillable_cell_count: the number of open cells, counted row by
        row. */
    method GetFillableCellCount(p: Puzzle)
      modifies p`fillableCellCount
      ensures p.fillableCellCount == CountOpen(p.cells)
    {
      p.fillableCellCount := 0;
      var i := 0;
      while i < |p.cells|
        invariant 0 <= i <= |p.cells|
        invariant p.fillableCellCount == CountOpen(p.cells[..i])
      {
        var row := p.cells[i];
        ghost var before := p.fillableCellCount;
        var j := 0;
        while j < |row|
          invariant 0 <= j <= |row|
          invariant p.fillableCellCount == before + CountOpenRow(row[..j])
        {
          assert row[..j + 1][..j] == row[..j];
          if !row[j].isBlack {
            p.fillableCellCount := p.fillableCellCount + 1;
          }
          j := j + 1;
        }
        assert row[..j] == row;
        assert p.cells[..i + 1][..i] == p.cells[..i];
        i := i + 1;
      }
      assert p.cells[..i] == p.cells;
    }

    /** _load_saved on the puzzle's cells. */
    method LoadSaved(p: Puzzle, saved: Json) returns (out: Outcome<()>)
      requires Rect(p.cells, p.width, p.height)
      modifies p`cells
      ensures out.Ok? <==> IpuzGrid.LoadSaved(old(p.cells), saved).Ok?
      ensures out.Err? ==> out.error == IpuzGrid.LoadSaved(old(p.cells), saved).error
      ensures out.Ok? ==> p.cells == IpuzGrid.LoadSaved(old(p.cells), saved).value
    {
      var cells := LoadSavedCells(p.cells, saved);
      if cells.Err? {
        return Err(cells.error);
      }
      p.cells := cells.value;
      return Ok(());
    }

    /** _parse_grid on the puzzle's cells, with the document the
        "solution" grid is read from. */
    method ParseGrid(p: Puzzle, gridData: Json, data: Json) returns (out: Outcome<()>)
      requires Rect(p.cells, p.width, p.height)
      modifies p`cells
      ensures out.Ok? <==> IpuzGrid.ParseGrid(old(p.cells), gridData, data).Ok?
      ensures out.Err? ==> out.error == IpuzGrid.ParseGrid(old(p.cells), gridData, data).error
      ensures out.Ok? ==> p.cells == IpuzGrid.ParseGrid(old(p.cells), gridData, data).value
    {
      var solution := Get(data, "solution", JArr([]));
      if solution.Err? {
        return Err(solution.error);
      }
      var cells := ParseGridCells(p.cells, gridData, solution.value);
      if cells.Err? {
        return Err(cells.error);
      }
      p.cells := cells.value;
      return Ok(());
    }

    /** _parse_clues: the across list, then the down list. */
    method ParseClues(p: Puzzle, cluesData: Json) returns (out: Outcome<()>)
      requires Rect(p.cells, p.width, p.height)
      modifies p`acrossClues, p`downClues
      ensures var c := Clues(p.cells, p.width, p.height, cluesData);
              (out.Ok? <==> c.Ok?) && (out.Err? ==> out.error == c.error) &&
              (out.Ok? ==> p.acrossClues == c.value.0 && p.downClues == c.value.1)
    {
      if !cluesData.JObj? {
        return Err(Raises);
      }
      out := ParseClueList(p, ListFor(cluesData.fields, "across", "Across"), Across);
      if out.Err? {
        return;
      }
      out := ParseClueList(p, ListFor(cluesData.fields, "down", "Down"), Down);
    }

    /** _parse_clue_list: build every entry in order, then place every
        numbered clue, then store the list for its direction. */
    method ParseClueList(p: Puzzle, list: Json, d: Direction) returns (out: Outcome<()>)
      requires Rect(p.cells, p.width, p.height)
      modifies p`acrossClues, p`downClues
      ensures var c := ClueList(p.cells, p.width, p.height, list, d);
              (out.Ok? <==> c.Ok?) && (out.Err? ==> out.error == c.error) &&
              (out.Ok? && d == Across ==> p.acrossClues == c.value && p.downClues == old(p.downClues)) &&
              (out.Ok? && d == Down ==> p.downClues == c.value && p.acrossClues == old(p.acrossClues))
    {
      var items := Iterate(list);
      if items.Err? {
        return Err(items.error);
      }
      var built := BuildClues(p, items.value, d);
      if built.Err? {
        return Err(built.error);
      }
      var placed := PlaceClues(p, built.value, d);
      if d == Across {
        p.acrossClues := placed;
      } else {
        p.downClues := placed;
      }
      return Ok(());
    }

    /** The first loop of _parse_clue_list: one clue per entry, in order. */
    method BuildClues(p: Puzzle, items: seq<Json>, d: Direction) returns (out: Outcome<seq<Clue>>)
      requires Rect(p.cells, p.width, p.height)
      ensures out == BuildAll(p.cells, p.width, p.height, items, d)
    {
      ghost var rs := Built(p.cells, p.width, p.height, items, d);
      var clueList: seq<Clue> := [];
      var k := 0;
      while k < |items|
        invariant 0 <= k <= |items|
        invariant Collect(rs[..k]) == Ok(clueList)
      {
        var clue := BuildOne(p, items[k], d);
        assert rs[k] == clue;
        if clue.Err? {
          CollectStop(rs, k);
          return Err(clue.error);
        }
        CollectNext(rs, k, clueList);
        clueList := clueList + [clue.value];
        k := k + 1;
      }
      assert rs[..k] == rs;
      return Ok(clueList);
    }

    /** One pass of the first loop of _parse_clue_list: the entry's fields,
        the answer read off the grid when none is given, the number and
        the text. */
    method BuildOne(p: Puzzle, cd: Json, d: Direction) returns (r: Outcome<Clue>)
      requires Rect(p.cells, p.width, p.height)
      ensures r == BuildClue(p.cells, p.width, p.height, cd, d)
    {
      var f := ClueFields(cd);
      if f.Err? {
        return Err(f.error);
      }
      var answer := f.value.answer;
      if answer == "" {
        answer := ExtractAnswerFromGrid(p, f.value.number, d);
      }
      var number := ClueNumber(f.value.number);
      if number.Err? {
        return Err(number.error);
      }
      var text := Text(f.value.text);
      if text.Err? {
        return Err(text.error);
      }
      return Ok(Clue(number.value, text.value, Upper(answer), 0, 0, |answer|, d));
    }

    /** The second loop of _parse_clue_list: each clue with a positive
        number moves to its start. */
    method PlaceClues(p: Puzzle, clues: seq<Clue>, d: Direction) returns (placed: seq<Clue>)
      requires Rect(p.cells, p.width, p.height)
      ensures placed == PlaceAll(p.cells, clues)
    {
      placed := clues;
      var k := 0;
      while k < |placed|
        invariant 0 <= k <= |placed| == |clues|
        invariant forall i :: 0 <= i < k ==> placed[i] == Placed(p.cells, clues[i])
        invariant forall i :: k <= i < |placed| ==> placed[i] == clues[i]
      {
        if placed[k].number > 0 {
          var row, col := FindClueStart(p, placed[k], d);
          placed := placed[k := placed[k].(startRow := row, startCol := col)];
        }
        k := k + 1;
      }
    }

    /** _extract_answer_from_grid: the first cell with the number, then the
        solutions along d up to a black cell or the edge. */
    method ExtractAnswerFromGrid(p: Puzzle, number: Json, d: Direction) returns (answer: string)
      requires Rect(p.cells, p.width, p.height)
      ensures answer == ExtractAnswer(p.cells, p.width, p.height, NumberKey(number), d)
    {
      var start := FirstCell(p.cells, p.width, p.height, NumberKey(number));
      if start.None? {
        return "";
      }
      answer := ScanRun(p.cells, p.width, p.height, d, start.value.row, start.value.col);
    }

    /** _find_clue_start: the first cell with the clue's number, else
        (0, 0). */
    method FindClueStart(p: Puzzle, clue: Clue, d: Direction) returns (row: int, col: int)
      requires Rect(p.cells, p.width, p.height)
      ensures Pos(row, col) == FindStart(p.cells, clue.number)
    {
      var found := FirstCell(p.cells, p.width, p.height, Some(Some(clue.number)));
      if found.Some? {
        return found.value.row, found.value.col;
      }
      return 0, 0;
    }
  }

  /** The scan so far: i cells along d inside the grid, all open. */
  predicate MaxRunSoFar(g: Grid, w: int, h: int, d: Direction, r: int, c: int, i: nat) {
    RunInGrid(g, w, h, d, r, c, i) && forall k :: 0 <= k < i ==> !CellAlong(g, d, r, c, k).isBlack
  }

  /** The fields of a puzzle object that parse fills. */
  function Data(p: Puzzle): PuzzleData
    reads p
  {
    PuzzleData(p.title, p.author, p.notes, p.difficulty, p.category,
               p.width, p.height, p.cells, p.acrossClues, p.downClues, p.fillableCellCount)
  }
}
