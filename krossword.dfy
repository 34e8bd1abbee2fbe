/** The puzzle data model: cells, clues and the puzzle object that owns the
    grid (src/models/krossword.py). */
module Krossword {
  import opened Base

  /** One grid square. The last six fields are the display and solve-state
      flags the widget, the parser and the check/reveal code attach to a
      cell; they start out false. */
  datatype Cell = Cell(
    solution: string,
    userInput: string,
    isBlack: bool,
    clueNumber: Option<int>,
    isShaded: bool,
    isCircled: bool,
    revealed: bool,
    corrected: bool,
    incorrect: bool,
    pencilled: bool)
  {
    /** "Empty" in the data model's sense: nothing typed, or the typed text
        already equals the solution. */
    predicate IsEmpty() { userInput == "" || userInput == solution }

    predicate IsCorrect() { userInput == solution }

    /** Fills in the solution and marks the cell as revealed. */
    function Reveal(): (c: Cell)
      ensures c.IsCorrect() && c.revealed
      ensures c.(userInput := userInput, revealed := revealed) == this
    {
      this.(userInput := solution, revealed := true)
    }
  }

  /** A freshly constructed cell: black, no solution, no input, no number. */
  const DefaultCell := Cell("", "", true, None, false, false, false, false, false, false)

  lemma CorrectIsEmpty(c: Cell)
    ensures c.IsCorrect() ==> c.IsEmpty()
    ensures c.IsEmpty() <==> (c.userInput == "" || c.IsCorrect())
  {
  }

  /** A filled, correct cell still counts as "empty" for IsEmpty, while a
      filled wrong cell does not. */
  lemma IsEmptyIsNotBlankness()
    ensures var c := Cell("A", "A", false, None, false, false, false, false, false, false);
            c.IsEmpty() && c.userInput != ""
    ensures var c := Cell("A", "B", false, None, false, false, false, false, false, false);
            !c.IsEmpty() && !c.IsCorrect()
  {
  }

  datatype Clue = Clue(
    number: int,
    text: string,
    answer: string,
    startRow: int,
    startCol: int,
    length: int,
    direction: Direction)

  type Grid = seq<seq<Cell>>

  /** h rows of w cells each. */
  predicate Rect(g: Grid, w: int, h: int) {
    |g| == h && forall r :: 0 <= r < |g| ==> |g[r]| == w
  }

  predicate InBounds(w: int, h: int, row: int, col: int) {
    0 <= row < h && 0 <= col < w
  }

  predicate CluesInGrid(clues: seq<Clue>, w: int, h: int) {
    forall i :: 0 <= i < |clues| ==> InBounds(w, h, clues[i].startRow, clues[i].startCol)
  }

  /** The grid initialize_grid builds: height rows of width default cells. */
  function BlankGrid(w: int, h: int): (g: Grid)
    ensures Rect(g, Max0(w), Max0(h))
    ensures forall r, c :: 0 <= r < |g| && 0 <= c < |g[r]| ==> g[r][c] == DefaultCell
  {
    seq(Max0(h), _ => seq(Max0(w), _ => DefaultCell))
  }

  lemma BlankGridCells(w: int, h: int, r: int, c: int)
    requires 0 <= r < h && 0 <= c < w
    ensures var cell := BlankGrid(w, h)[r][c];
            cell.isBlack && cell.userInput == "" && cell.solution == "" && cell.clueNumber.None?
  {
  }

  /** Index of the first clue carrying `number`, or -1. */
  function IndexOfNumber(clues: seq<Clue>, number: int): (i: int)
    ensures -1 <= i < |clues|
    ensures i >= 0 ==> clues[i].number == number
    ensures forall j :: 0 <= j < |clues| && (i < 0 || j < i) ==> clues[j].number != number
  {
    if clues == [] then -1
    else if clues[0].number == number then 0
    else
      var k := IndexOfNumber(clues[1..], number);
      if k < 0 then -1 else k + 1
  }

  /** The first clue with the given number, or None (get_clue on one list). */
  function FindClue(clues: seq<Clue>, number: int): (r: Option<Clue>)
    ensures r.None? <==> forall j :: 0 <= j < |clues| ==> clues[j].number != number
    ensures r.Some? ==> exists i :: 0 <= i < |clues| && clues[i] == r.value &&
                                   r.value.number == number &&
                                   forall j :: 0 <= j < i ==> clues[j].number != number
  {
    var i := IndexOfNumber(clues, number);
    if i < 0 then None else Some(clues[i])
  }

  /** A clue appended to a list that holds no clue of its number is found;
      the "CAT" clue of the repository's smoke test is one instance. */
  lemma FindAppendedClue(clues: seq<Clue>, c: Clue)
    requires forall j :: 0 <= j < |clues| ==> clues[j].number != c.number
    ensures FindClue(clues + [c], c.number) == Some(c)
  {
    var all := clues + [c];
    assert all[|clues|] == c;
  }

  lemma FindCatClue()
    ensures var cat := Clue(1, "Feline", "CAT", 0, 0, 3, Across);
            FindClue([] + [cat], 1) == Some(cat) && FindClue([cat], 1).value.answer == "CAT"
  {
    var cat := Clue(1, "Feline", "CAT", 0, 0, 3, Across);
    FindAppendedClue([], cat);
  }

  /** The cell i steps from (r, c) along direction d. */
  function CellAlong(g: Grid, d: Direction, r: int, c: int, i: nat): Cell
    requires d == Across ==> 0 <= r < |g| && 0 <= c && c + i < |g[r]|
    requires d == Down ==> 0 <= r && r + i < |g| && 0 <= c < |g[r + i]|
  {
    if d == Across then g[r][c + i] else g[r + i][c]
  }

  /** n cells from (r, c) along d, none off the grid. */
  predicate RunInGrid(g: Grid, w: int, h: int, d: Direction, r: int, c: int, n: nat) {
    Rect(g, w, h) && InBounds(w, h, r, c) &&
    (if d == Across then c + n <= w else r + n <= h)
  }

  /** The concatenated inputs of n cells from (r, c) along d. */
  function Inputs(g: Grid, w: int, h: int, d: Direction, r: int, c: int, n: nat): string
    requires RunInGrid(g, w, h, d, r, c, n)
  {
    if n == 0 then "" else Inputs(g, w, h, d, r, c, n - 1) + CellAlong(g, d, r, c, n - 1).userInput
  }

  /** If every cell of the run holds exactly the corresponding letter of
      `word`, the concatenated inputs spell `word`. */
  lemma {:induction false} InputsSpellWord(g: Grid, w: int, h: int, d: Direction, r: int, c: int, word: string)
    requires RunInGrid(g, w, h, d, r, c, |word|)
    requires forall i :: 0 <= i < |word| ==> CellAlong(g, d, r, c, i).userInput == [word[i]]
    ensures Inputs(g, w, h, d, r, c, |word|) == word
    decreases |word|
  {
    if word != [] {
      var n := |word| - 1;
      InputsSpellWord(g, w, h, d, r, c, word[..n]);
      assert word == word[..n] + [word[n]];
    }
  }

  /** Whether a clue's word of `length` cells stays inside the grid. */
  predicate Fits(cl: Clue, d: Direction, w: int, h: int) {
    cl.length <= 0 || (if d == Across then cl.startCol + cl.length <= w else cl.startRow + cl.length <= h)
  }

  class Puzzle {
    var title: string
    var author: string
    var width: int
    var height: int
    var cells: Grid
    var acrossClues: seq<Clue>
    var downClues: seq<Clue>
    var notes: string
    var difficulty: string
    var category: string
    var solutionState: bool
    var fillableCellCount: int
    var initialFilledCells: int

    /** A grid the widget can work on: non-empty, rectangular, with every
        clue starting on the grid. */
    predicate WellFormed()
      reads this
    {
      width > 0 && height > 0 && Rect(cells, width, height) &&
      CluesInGrid(acrossClues, width, height) && CluesInGrid(downClues, width, height)
    }

    constructor ()
      ensures title == "" && author == "" && notes == "" && difficulty == "" && category == ""
      ensures width == 0 && height == 0 && cells == [[]]
      ensures acrossClues == [] && downClues == [] && !solutionState
      ensures fillableCellCount == 0 && initialFilledCells == 0
    {
      title, author, notes, difficulty, category := "", "", "", "", "";
      width, height := 0, 0;
      cells := [[]];
      acrossClues, downClues := [], [];
      solutionState := false;
      fillableCellCount, initialFilledCells := 0, 0;
    }

    method InitializeGrid(w: int, h: int)
      modifies this`width, this`height, this`cells
      ensures width == w && height == h
      ensures cells == BlankGrid(w, h)
    {
      width := w;
      height := h;
      cells := [];
      var i := 0;
      while i < h
        invariant width == w && height == h
        invariant 0 <= i == |cells| <= Max0(h)
        invariant forall r :: 0 <= r < i ==> cells[r] == seq(Max0(w), _ => DefaultCell)
      {
        var row: seq<Cell> := [];
        var j := 0;
        while j < w
          invariant 0 <= j == |row| <= Max0(w)
          invariant forall c :: 0 <= c < j ==> row[c] == DefaultCell
        {
          row := row + [DefaultCell];
          j := j + 1;
        }
        cells := cells + [row];
        i := i + 1;
      }
    }

    /** Replaces an in-bounds cell with a fresh one; out of bounds nothing
        changes. */
    method SetCell(row: int, col: int, solution: string, isEmpty: bool, clueNumber: Option<int>)
      requires Rect(cells, width, height)
      modifies this`cells
      ensures InBounds(width, height, row, col) ==>
        cells == old(cells)[row := old(cells)[row][col :=
          DefaultCell.(solution := solution, isBlack := !isEmpty, clueNumber := clueNumber)]]
      ensures !InBounds(width, height, row, col) ==> cells == old(cells)
      ensures Rect(cells, width, height)
    {
      if 0 <= row < height && 0 <= col < width {
        cells := cells[row := cells[row][col :=
          Cell(solution, "", !isEmpty, clueNumber, false, false, false, false, false, false)]];
      }
    }

    function ClueList(d: Direction): seq<Clue>
      reads this
    {
      if d == Across then acrossClues else downClues
    }

    /** The first clue of the direction's list with that number. */
    function GetClue(number: int, d: Direction): (r: Option<Clue>)
      reads this
      ensures r.None? <==> forall j :: 0 <= j < |ClueList(d)| ==> ClueList(d)[j].number != number
      ensures r.Some? ==> r.value.number == number && r.value in ClueList(d)
    {
      FindClue(ClueList(d), number)
    }

    function GetAllClues(): (r: seq<Clue>)
      reads this
      ensures |r| == |acrossClues| + |downClues|
      ensures r[..|acrossClues|] == acrossClues && r[|acrossClues|..] == downClues
    {
      acrossClues + downClues
    }

    /** False when there is no such clue or its word runs off the grid;
        otherwise whether the inputs along the word spell the answer. */
    method ValidateSolution(number: int, d: Direction) returns (ok: bool)
      requires WellFormed()
      ensures GetClue(number, d).None? ==> !ok
      ensures GetClue(number, d).Some? ==>
        var cl := GetClue(number, d).value;
        ok <==> Fits(cl, d, width, height) &&
                Inputs(cells, width, height, d, cl.startRow, cl.startCol, Max0(cl.length)) == cl.answer
    {
      var found := GetClue(number, d);
      if found.None? {
        return false;
      }
      var cl := found.value;
      assert InBounds(width, height, cl.startRow, cl.startCol) by {
        var k :| 0 <= k < |ClueList(d)| && ClueList(d)[k] == cl;
      }
      var answer := "";
      var i := 0;
      while i < cl.length
        invariant 0 <= i <= Max0(cl.length)
        invariant RunInGrid(cells, width, height, d, cl.startRow, cl.startCol, i)
        invariant answer == Inputs(cells, width, height, d, cl.startRow, cl.startCol, i)
      {
        if d == Across {
          if cl.startCol + i >= width {
            return false;
          }
          answer := answer + cells[cl.startRow][cl.startCol + i].userInput;
        } else {
          if cl.startRow + i >= height {
            return false;
          }
          answer := answer + cells[cl.startRow + i][cl.startCol].userInput;
        }
        i := i + 1;
      }
      return answer == cl.answer;
    }
  }
}
