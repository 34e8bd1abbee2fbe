# KrossWordz solving engine in Dafny

This project models the solving engine of KrossWordz, a desktop crossword
application, in Dafny and proves properties of it. The model covers five parts:

- **Data model** (`krossword.dfy`): cells, clues and the puzzle object with
  `initialize_grid`, `set_cell`, `get_clue`, `get_all_clues` and
  `validate_solution`.
- **Cursor and editing engine** (`widget.dfy`): the class `KrossWordWidget`,
  holding the cursor, the highlight mode, the pencil mode, the fill counter,
  the solved flag and the modified flag. Its methods are the widget's loops
  over the grid: word geometry, moves that skip black cells, clicks, arrow,
  space and period keys, letter entry with rebus append, the search for the
  next empty square of an entry, backspace across line boundaries, Tab and
  Shift+Tab between clues, and completion detection.
  - Each method is proved equal to a pure transition function on a `Session`
    value in `session.dfy` (module `EditSpec`) or `tab.dfy` (module `TabSpec`).
  - The properties of those transitions are lemmas in `editprops.dfy`,
    `tab.dfy` and `geometry.dfy`.
- **Check and reveal** (`check_reveal.dfy`, class `CheckAndReveal`): checking
  and revealing a letter, a word or the whole grid.
  - Checking looks at every cell it is given again, including cells already
    marked corrected, and only ever adds a mark.
  - Specified in `check_reveal_spec.dfy`, which also proves that the fill
    counter stays equal to the number of filled cells (`fillcount.dfy`).
- **ipuz decoding** (`ipuz.dfy`, `ipuz_grid.dfy`, `ipuz_clues.dfy`), for the
  ipuz crossword format (kind `http://ipuz.org/crossword#1`).
  - The input is an already-decoded JSON value (`json.dfy`).
  - The class `IpuzParser` builds a `Puzzle` object step by step, as `parse`
    does: grid classification, solution override, the saved-input overlay,
    clue lists, answer extraction, clue start search and the fillable count.
  - Each step is proved against a pure function. `Decode` is the function for
    the whole of `parse`.
- **Progress replay** (`progress.dfy`): `load_previous_progress` on an
  already-decoded record, and the seeding of the fill counter when a puzzle is
  loaded.

Conventions of the model:

- **Positions.** The source mixes `(col, row)` pairs (`_get_word_bounds`,
  `word_filled`) with `(row, col)` pairs. The model always uses `Pos(row, col)`.
- **Lines.** A line is a row in across mode or a column in down mode. One
  function covers both the across and the down branch of each loop.
- **Directions.** The strings `"across"`/`"down"` are the datatype `Direction`.
- **Signals.** Qt signals become an append-only log of `Event` values in the
  widget (`events`).
- **Cell flags.** The widget reads and writes solve flags that
  `src/models/krossword.py` does not declare: `revealed`, `corrected`,
  `incorrect`, `pencilled`, `is_shaded` and `is_circled`. The same holds for
  `cell.reveal()`, `fillable_cell_count` and `initial_filled_cells`.
  - In the model these are ordinary fields that start false or 0.
  - `Reveal` sets the input to the solution and marks the cell revealed, as the
    callers in `src/ui/check_and_reveal.py` imply.

## Model

| member | source | states |
|---|---|---|
| Base.Toggle | src/ui/crossword_widget.py:677-680 | the other highlight mode is always different from the current one |
| Base.ToggleInvolutive | src/ui/crossword_widget.py:677-680 | toggling the mode twice gives the mode back |
| Base.UpperChar | src/ui/crossword_widget.py:503 | upper-casing a character leaves no lower-case letter and moves a-z by 32, keeping every other character |
| Base.Upper | src/parsers/ipuz_parser.py:127 | `str.upper` keeps the length and upper-cases each character |
| Base.UpperIdempotent | src/parsers/ipuz_parser.py:148 | upper-casing an upper-cased answer again changes nothing, so the second `.upper()` at line 168 is harmless |
| Base.ParseInt | src/parsers/ipuz_parser.py:166 | `int()` of a string succeeds only on a non-empty string and reads a digit string as its decimal value |
| Base.NatToString | src/ui/crossword_window.py:264 | the decimal rendering of a number is a non-empty digit string |
| Base.DigitsOfNatToString | src/ui/crossword_window.py:264 | reading the digits of a rendered number gives the number back |
| Base.ParseIntOfNatToString | src/ui/crossword_window.py:264 | `int()` of a rendered number is the number: the two are inverse |
| Krossword.Cell.Reveal | src/ui/check_and_reveal.py:19-23 | a revealed cell holds its solution and is marked revealed; nothing else about it changes |
| Krossword.CorrectIsEmpty | src/models/krossword.py:12-16 | a correct cell is "empty" in the source's sense, and `is_empty` holds exactly for a blank or a correct cell |
| Krossword.IsEmptyIsNotBlankness | src/models/krossword.py:12-13 | `is_empty` is not blankness: a cell holding its solution is "empty" yet has input, and a wrong cell is neither |
| Krossword.BlankGrid | src/models/krossword.py:44-53 | the grid `initialize_grid` builds has `height` rows of `width` cells, every one the default cell |
| Krossword.BlankGridCells | src/models/krossword.py:4-10 | every cell of a fresh grid is black, without input or solution, and unnumbered |
| Krossword.IndexOfNumber | src/ui/crossword_widget.py:719-723 | the index of the first clue with a number, or -1 when no clue has it |
| Krossword.FindClue | src/models/krossword.py:65-68 | the first clue in list order with the number, or None exactly when no clue has it |
| Krossword.FindAppendedClue | src/models/krossword.py:65-68 | a clue appended to a list without its number is found by its number |
| Krossword.FindCatClue | test_app.py:54-58 | the appended clue 1 "Feline" is found and its answer is "CAT" |
| Krossword.InputsSpellWord | src/models/krossword.py:80-92 | cells holding the letters of a word one by one concatenate to that word |
| Krossword.Puzzle.constructor | src/models/krossword.py:29-42 | a new puzzle has empty metadata, size 0, the grid `[[]]`, no clues and zero counts |
| Krossword.Puzzle.InitializeGrid | src/models/krossword.py:44-53 | sets the size and replaces the cells by the blank grid |
| Krossword.Puzzle.SetCell | src/models/krossword.py:55-63 | inside the grid, exactly that cell becomes a fresh cell with the given solution, `is_black = not is_empty` and the number; outside, nothing changes; the grid keeps its shape |
| Krossword.Puzzle.GetClue | src/models/krossword.py:65-68 | looks in the direction's list only: None exactly when that list has no clue with the number, and otherwise a clue of that list with that number |
| Krossword.Puzzle.GetAllClues | src/models/krossword.py:70-72 | the across clues followed by the down clues |
| Krossword.Puzzle.ValidateSolution | src/models/krossword.py:74-92 | false without the clue; otherwise true exactly when the word fits on the grid and the inputs of its cells spell the answer |
| Geometry.Line | src/ui/crossword_widget.py:998-1018 | the row or column through a cell, one entry per position of the line |
| Geometry.StartIdx | src/ui/crossword_widget.py:1002-1008 | the start of a word: at or before the cell, every cell in between open, and at the edge or after a black cell |
| Geometry.EndIdx | src/ui/crossword_widget.py:1010-1016 | the end of a word: at or after the cell, every cell in between open, and at the edge or before a black cell |
| Geometry.StartIdxUnique | src/ui/crossword_widget.py:1002-1008 | any index with the start properties is the start |
| Geometry.EndIdxUnique | src/ui/crossword_widget.py:1010-1016 | any index with the end properties is the end |
| Geometry.SameWordSameBounds | src/ui/crossword_widget.py:998-1018 | every open cell of a word has the same word bounds |
| Geometry.Seek | src/ui/crossword_widget.py:798-806 | the first open cell from an index in the walking direction, all cells passed over being black; None when every remaining cell is black |
| Geometry.StepOpen | src/ui/crossword_widget.py:794-806 | the cell a directional move lands on is on the grid, open and on the same line |
| Geometry.PrevOpen | src/ui/crossword_widget.py:880-941 | the cell `_move_to_previous_cell` finds is on the grid and open |
| Geometry.LastOpenOf | src/ui/crossword_widget.py:899-911 | the last open cell of a line, found walking back from its far end |
| Geometry.FirstEmpty | src/ui/crossword_widget.py:605-619 | the first cell without input in an index range, every earlier cell of the range having input; None when each has input |
| Geometry.NextBlank | src/ui/crossword_widget.py:846-878 | the next open blank cell after an index; every cell skipped is black or filled |
| Geometry.EmptyIn | src/ui/crossword_widget.py:599-640 | the cell the two searches of `_loop_to_empty_in_entry` find lies within the word and has no input |
| Geometry.EmptyInWord | src/ui/crossword_widget.py:581-640 | that cell is on the grid, on the cursor's line, and has no input |
| Geometry.RunFilledIsWordFilled | src/ui/crossword_widget.py:768-783 | the walk of `word_filled` from an open cell succeeds exactly when every cell up to the end of its word has input |
| Geometry.FirstWhere | src/ui/crossword_widget.py:943-956 | the first cell at or after a position in row-major order that satisfies the test |
| Geometry.LastOpenRowMajor | src/ui/crossword_widget.py:958-974 | the last open cell at or before a position in row-major order |
| Geometry.LastOpenColMajor | src/ui/crossword_widget.py:976-996 | the last open cell at or before a position in column-major order |
| Geometry.FirstWhereSkipped | src/ui/crossword_widget.py:943-956 | every cell the forward skip passes over fails the test |
| Geometry.LastOpenRowMajorSkipped | src/ui/crossword_widget.py:958-974 | every cell the backward skip passes over is black |
| Geometry.LastOpenColMajorSkipped | src/ui/crossword_widget.py:976-996 | every cell the upward skip passes over is black |
| Geometry.CountOpenRow | src/parsers/ipuz_parser.py:74-76 | a row has at most as many open cells as cells |
| Geometry.CountOpenRowIsCard | src/parsers/ipuz_parser.py:74-76 | the count of a row is the number of its open positions |
| Geometry.CountOpenIsCard | src/parsers/ipuz_parser.py:71-76 | the fillable count is the number of open positions of the grid |
| FillCount.Indicator | src/ui/crossword_widget.py:785-792 | a cell counts 1 toward the fill counter exactly when it is open and has input |
| FillCount.CountFilled | src/ui/crossword_widget.py:568-569 | the number of filled cells never exceeds the number of open cells |
| FillCount.CountFilledRowUpdate | src/ui/crossword_widget.py:785-792 | replacing one cell changes a row's count by the difference of the two indicators |
| FillCount.CountFilledUpdate | src/ui/crossword_widget.py:785-792 | replacing one cell changes the grid's count by the difference of the two indicators; this is what the counter's ±1 steps track |
| FillCount.FullRow | src/ui/crossword_widget.py:568-569 | a row's counts meet exactly when each of its open cells has input |
| FillCount.FullGrid | src/ui/crossword_widget.py:568-569 | the counts meet exactly when every open cell has input: the moment `check_filled_puzzle` acts on |
| EditSpec.CurLine | src/ui/crossword_widget.py:998-1018 | the line through the cursor in a mode holds the cursor's cell at the cursor's index |
| EditSpec.PutCell | src/ui/crossword_widget.py:656 | writing one cell keeps the session valid and changes nothing but the cells |
| EditSpec.WordBounds | src/ui/crossword_widget.py:998-1018 | both bounds lie on the cell's line and on the grid, with start ≤ cell ≤ end |
| EditSpec.WordBoundsMaximal | src/ui/crossword_widget.py:998-1018 | every cell between the bounds is open, the start is at the edge or after a black cell, and the end is at the edge or before one |
| EditSpec.WordBoundsOnLine | src/ui/crossword_widget.py:998-1018 | the bounds are the word start and end indices of the cell's line |
| EditSpec.WordStart | src/ui/crossword_widget.py:1020-1030 | the word start lies on the grid |
| EditSpec.ClueForCell | src/ui/crossword_widget.py:85-95 | a clue exactly when the word's start cell has a non-zero number that some clue of the direction carries; the clue then carries that number |
| EditSpec.WordCellsRun | src/ui/crossword_widget.py:163-187 | the word's coordinates go from its start to its end, consecutively along the line, and include the cursor |
| EditSpec.WordCellsOpen | src/ui/crossword_widget.py:163-187 | every coordinate of the word is on the grid, and open unless it is the cursor's own cell |
| EditSpec.Step | src/ui/crossword_widget.py:794-806 | a directional move changes only the cursor and keeps it on the grid |
| EditSpec.PrevCell | src/ui/crossword_widget.py:880-941 | `_move_to_previous_cell` changes only the cursor and keeps it on the grid |
| EditSpec.ToggleMode | src/ui/crossword_widget.py:677-680 | the space key flips the mode and nothing else |
| EditSpec.FirstSquare | src/ui/crossword_widget.py:50-58 | the square `select_first_square` picks is open |
| EditSpec.FirstSquareIsFirst | src/ui/crossword_widget.py:50-58 | every cell before it in row-major order is black; there is none exactly when every cell is black |
| EditSpec.SkipBlack | src/ui/crossword_widget.py:943-956 | skipping black cells forward changes only the cursor and keeps it on the grid |
| EditSpec.SkipBlackReverse | src/ui/crossword_widget.py:958-974 | skipping black cells backward changes only the cursor and keeps it on the grid |
| EditSpec.SkipBlackUp | src/ui/crossword_widget.py:976-996 | skipping black cells upward changes only the cursor and keeps it on the grid |
| EditSpec.MoveRight | src/ui/crossword_widget.py:820-825 | `move_right` changes only the cursor and keeps it on the grid |
| EditSpec.MoveDown | src/ui/crossword_widget.py:827-832 | `move_down` changes only the cursor and keeps it on the grid |
| EditSpec.NextEmptyCell | src/ui/crossword_widget.py:840-878 | `_move_to_next_empty_cell_*` changes only the cursor and keeps it on the grid |
| EditSpec.FillSignals | src/ui/crossword_widget.py:785-792 | `fill_cell_signals` keeps the session valid |
| EditSpec.CheckFilledPuzzle | src/ui/crossword_widget.py:568-578 | solved becomes true exactly when the counter equals the fillable count and every open cell is correct; with equal counts one message goes out, saying whether the grid is right; otherwise nothing happens |
| EditSpec.LoopToEmpty | src/ui/crossword_widget.py:581-649 | `_loop_to_empty_in_entry` changes only the cursor and keeps it on the grid |
| EditSpec.Written | src/ui/crossword_widget.py:505-521 | the cell edits of letter entry leave the cursor, the mode and the board in place |
| EditSpec.Advance | src/ui/crossword_widget.py:523-546 | the move after letter entry changes only the cursor |
| EditSpec.LetterInput | src/ui/crossword_widget.py:488-551 | letter entry keeps the session valid and the board's clues and size |
| EditSpec.LetterKey | src/ui/crossword_widget.py:488-551 | letter entry from a key code keeps the session valid and the board |
| EditSpec.ClearHere | src/ui/crossword_widget.py:655-661 | clearing the cursor's cell keeps the session valid and the board |
| EditSpec.Delete | src/ui/crossword_widget.py:651-675 | backspace keeps the session valid and the board |
| EditSpec.KeyPress | src/ui/crossword_widget.py:223-274 | every key keeps the session valid and the board |
| EditProps.StepMoves | src/ui/crossword_widget.py:794-806 | a move that finds an open cell lands on it, on the same line, strictly in the step direction, with every skipped cell black |
| EditProps.StepStays | src/ui/crossword_widget.py:794-806 | a move that finds none leaves the session unchanged, and every cell up to the edge is black |
| EditProps.PrevOnLine | src/ui/crossword_widget.py:886-896 | a previous cell on the same line lies before the cursor, with only black cells in between |
| EditProps.PrevOnEarlierLine | src/ui/crossword_widget.py:899-911 | a previous cell on another line is on the line before, every cell before the cursor is black, and it is the last open cell of that line |
| EditProps.PrevNone | src/ui/crossword_widget.py:939-941 | with no previous cell, everything before the cursor on its line, and the whole line before, is black |
| EditProps.SkipBlackLands | src/ui/crossword_widget.py:943-956 | the forward skip lands on the first open cell at or after the cursor in row-major order, or goes to (0, 0) when there is none |
| EditProps.ClickRules | src/ui/crossword_widget.py:197-212 | a click off the grid or on a black cell changes nothing; otherwise the cursor goes to the cell, the mode flips exactly when it was already there, and the widget is modified; clicking twice flips the mode exactly when the cell was already selected |
| EditProps.LeftRight | src/ui/crossword_widget.py:229-242 | Left/Right in down mode only switch to across without moving; in across mode they are the directional move |
| EditProps.UpDown | src/ui/crossword_widget.py:243-256 | Up/Down in across mode only switch to down without moving; in down mode they are the directional move |
| EditProps.SpacePeriodReturn | src/ui/crossword_widget.py:257-268 | Space flips the mode in place, and twice gives the session back; Period only asks for the pencil toggle; Return changes nothing, because its call raises |
| EditProps.LetterIgnored | src/ui/crossword_widget.py:489-498 | on a black cell or a solved puzzle letter entry changes nothing; on a corrected cell it only steps the cursor |
| EditProps.WrittenEffect | src/ui/crossword_widget.py:505-521 | the cell gets the new input and the pencil state, loses its incorrect mark, and the counter rises by one exactly when it was blank |
| EditProps.LetterWrites | src/ui/crossword_widget.py:505-521 | on a writable cell, entry replaces the input, or appends to it in rebus mode |
| EditProps.LetterCounts | src/ui/crossword_widget.py:512-513 | the counter rises by one exactly when the cell was blank |
| EditProps.LetterCursor | src/ui/crossword_widget.py:523-524 | letter entry keeps the mode, and rebus entry never moves the cursor |
| EditProps.EmptyInNone | src/ui/crossword_widget.py:599-640 | the two searches find nothing exactly when every cell of the word has input |
| EditProps.EmptyInFirst | src/ui/crossword_widget.py:599-640 | the cell found is the first blank one after the cursor (from the cursor itself without `next_cell`) up to the word's end, or else the first from the word's start |
| EditProps.LoopToEmptyComplete | src/ui/crossword_widget.py:643-649 | in a word without blanks, the cursor steps forward only when `next_cell` holds and it is not on the last character |
| EditProps.LoopToEmptyLands | src/ui/crossword_widget.py:599-640 | in a word with a blank, the cursor lands on a blank cell of the same word and nothing else changes |
| EditProps.LoopToEmptyFirst | src/ui/crossword_widget.py:599-640 | that blank is the first one in the search order of the two loops |
| EditProps.ClearHereCells | src/ui/crossword_widget.py:655-661 | clearing empties the cell's input and drops its incorrect mark |
| EditProps.ClearHereCounts | src/ui/crossword_widget.py:655-661 | clearing lowers the counter by one and keeps the cursor and mode in place |
| EditProps.DeleteInPlace | src/ui/crossword_widget.py:651-661 | backspace on a black cell does nothing, and on a filled non-corrected cell clears it in place |
| EditProps.DeleteAtStart | src/ui/crossword_widget.py:663-665 | with no previous open cell, backspace changes nothing |
| EditProps.DeleteBack | src/ui/crossword_widget.py:662-675 | otherwise backspace moves to the previous open cell and clears it unless it is corrected; an empty one only loses its incorrect mark |
| EditProps.RunFilledFromStart | src/ui/crossword_widget.py:768-783 | `word_filled` from the start of a word holds exactly when every cell of the word has input |
| EditProps.GreyEventMeaning | src/ui/crossword_widget.py:553-565 | greying emits the word's start number exactly when the word is filled; ungreying always emits it |
| TabSpec.ScanFlags | src/ui/crossword_widget.py:728-732 | the clue scan returns an unfilled clue's index on the scan's side of the start |
| TabSpec.ScanFlagsSkipped | src/ui/crossword_widget.py:728-732 | every clue the scan passes over is filled, and with no result every clue to the end is filled |
| TabSpec.TabIter | src/ui/crossword_widget.py:727-742 | one pass of the outer loop keeps the scan index within its list |
| TabSpec.TabIters | src/ui/crossword_widget.py:726-742 | the passes keep the scan index within its list |
| TabSpec.TwoIters | src/ui/crossword_widget.py:726 | the outer loop is exactly two passes |
| TabSpec.FallbackAsWritten | src/ui/crossword_widget.py:744-758 | the fallback as written names an existing clue when it moves, and raises exactly when the Shift neighbour index is past the end of the list now current, or, with no neighbour, the other list is empty |
| TabSpec.Fallback | src/ui/crossword_widget.py:744-758 | the corrected fallback always names an existing clue, and fails only when the other list is empty and no neighbour exists |
| TabSpec.TabTargetAsWritten | src/ui/crossword_widget.py:694-758 | as written, the clue Tab moves to, when it does not raise, is an existing clue of its list |
| TabSpec.TabTarget | src/ui/crossword_widget.py:694-758 | with the corrected fallback, the clue Tab moves to is an existing clue of its list |
| TabSpec.TabTargetDefined | src/ui/crossword_widget.py:694-758 | with the corrected fallback and any clue at all, Tab and Shift+Tab always find a target |
| TabSpec.TabAsWrittenVsCorrected | src/ui/crossword_widget.py:694-758 | as written, Tab raises exactly when there is no clue at all or in the Shift+Tab gap (Shift, earlier clues of the list all filled, no clue in the other direction), with the mode flipped once; otherwise it goes where the corrected Tab goes |
| TabSpec.TabPicksInCurrentList | src/ui/crossword_widget.py:726-734 | as written and corrected, the first unfilled clue after the current one (before it, for Shift) in the current list is chosen; all between are filled |
| TabSpec.TabSwitchesList | src/ui/crossword_widget.py:735-742 | otherwise, as written and corrected, the first unfilled clue of the other list from its start (end, for Shift) is chosen |
| TabSpec.TabFallsBackWhenAllFilled | src/ui/crossword_widget.py:744-758 | when every word is filled, Tab as written and corrected takes the adjacent clue, or the other list's first (last) clue |
| TabSpec.ShiftTabFailsWithoutOtherList | src/ui/crossword_widget.py:752-753 | as written, Shift+Tab from a clue whose earlier clues are all filled, with no clues in the other direction, raises with the mode flipped; the corrected version moves to the last clue of the list |
| TabSpec.ShiftTabWitness | src/ui/crossword_widget.py:752-753 | the concrete case: across clues [filled, unfilled], cursor on the second, no down clues; as written it raises in down mode, corrected it moves to the second across clue |
| TabSpec.FilledFlags | src/ui/crossword_widget.py:730 | one flag per clue, true exactly when `word_filled` holds at the clue's start |
| TabSpec.CurrentIndex | src/ui/crossword_widget.py:698-723 | the current clue's index in the list, whose number is that of the word's start cell, or -1 |
| TabSpec.AcrossFlags | src/ui/crossword_widget.py:730 | one flag per across clue |
| TabSpec.DownFlags | src/ui/crossword_widget.py:730 | one flag per down clue |
| TabSpec.SessionTarget | src/ui/crossword_widget.py:694-758 | as written, the target on a session, when Tab does not raise, names an existing clue |
| TabSpec.TabRaisesExactly | src/ui/crossword_widget.py:694-758 | on a session, Tab raises exactly when there is no clue at all or in the Shift+Tab gap, and then it has flipped the mode |
| TabSpec.Tab | src/ui/crossword_widget.py:694-766 | Tab as written changes only the cursor and mode and keeps the cursor on the grid; where it raises, only the mode has changed |
| TabSpec.Navigate | src/ui/crossword_widget.py:682-692 | navigation changes only the cursor and mode, and keeps the cursor on the grid |
| TabSpec.TabKeyEvent | src/ui/crossword_widget.py:214-221 | the Tab key is Tab as written, and marks the widget modified exactly unless Tab raised: no clue at all, or the Shift+Tab gap |
| Widget.KrossWordWidget.constructor | src/ui/crossword_widget.py:26-44 | a new widget has no puzzle, the cursor at (0, 0) in across mode, no pencil mode and zero counts |
| Widget.KrossWordWidget.WriteCell | src/ui/crossword_widget.py:656 | writing a cell is the session's cell update |
| Widget.KrossWordWidget.SelectFirstSquare | src/ui/crossword_widget.py:50-58 | fails exactly when there is no open square; otherwise the cursor goes to the first one |
| Widget.KrossWordWidget.SetPuzzle | src/ui/crossword_widget.py:118-125 | takes the puzzle, across mode, the first open square or (0, 0) when there is none; nothing else changes |
| Widget.KrossWordWidget.GetCurrentCell | src/ui/crossword_widget.py:152-156 | the cell under the cursor exactly when there is a puzzle and the cursor is on it |
| Widget.KrossWordWidget.GetCurrentPosition | src/ui/crossword_widget.py:158-161 | the cursor exactly when there is a puzzle |
| Widget.KrossWordWidget.GetWordBounds | src/ui/crossword_widget.py:998-1018 | None without a puzzle, else the word bounds |
| Widget.KrossWordWidget.FindWordStart | src/ui/crossword_widget.py:97-116 | `find_word_start` (and the same walks at 1020-1030 and 1037-1051) gives the word start |
| Widget.KrossWordWidget.FindWordEnd | src/ui/crossword_widget.py:1010-1016 | the walk to the right or down gives the word end |
| Widget.KrossWordWidget.FindClueForCell | src/ui/crossword_widget.py:85-95 | the clue of the cell's word in the direction |
| Widget.KrossWordWidget.WordFilledAt | src/ui/crossword_widget.py:768-783 | `word_filled` in the given direction, or in the current mode without one |
| Widget.KrossWordWidget.GetCurrentWordCoordinates | src/ui/crossword_widget.py:163-187 | no coordinates without a puzzle; else the word's cells from start to end |
| Widget.KrossWordWidget.HandleDirectionalMove | src/ui/crossword_widget.py:794-818 | the directional move |
| Widget.KrossWordWidget.SkipBlackCells | src/ui/crossword_widget.py:943-956 | the forward skip |
| Widget.KrossWordWidget.SkipBlackCellsReverse | src/ui/crossword_widget.py:958-974 | the backward skip |
| Widget.KrossWordWidget.SkipBlackCellsUp | src/ui/crossword_widget.py:976-996 | the upward skip |
| Widget.KrossWordWidget.MoveRight | src/ui/crossword_widget.py:820-825 | one column right unless at the edge, then the forward skip |
| Widget.KrossWordWidget.MoveDown | src/ui/crossword_widget.py:827-832 | one row down unless at the edge, then the forward skip |
| Widget.KrossWordWidget.MoveToNextEmptyCell | src/ui/crossword_widget.py:846-878 | the next open blank cell along the line, else no move |
| Widget.KrossWordWidget.MoveToNextCell | src/ui/crossword_widget.py:834-838 | the same search in the current mode |
| Widget.KrossWordWidget.MoveToPreviousCell | src/ui/crossword_widget.py:880-941 | the previous open cell, else no move |
| Widget.KrossWordWidget.ToggleHighlightMode | src/ui/crossword_widget.py:677-680 | flips the mode |
| Widget.KrossWordWidget.SetPencilMode | src/ui/crossword_widget.py:1032-1035 | flips pencil mode, marks the widget modified and returns the new mode |
| Widget.KrossWordWidget.Click | src/ui/crossword_widget.py:197-212 | nothing without a puzzle; else the click rules |
| Widget.KrossWordWidget.CheckFilledWord | src/ui/crossword_widget.py:553-558 | appends a grey event for each filled word through the cursor; nothing else changes |
| Widget.KrossWordWidget.UngreyText | src/ui/crossword_widget.py:560-565 | appends an ungrey event for both words through the cursor; nothing else changes |
| Widget.KrossWordWidget.FillCellSignals | src/ui/crossword_widget.py:785-792 | counts the cell in or out, greys or ungreys, announces the new count |
| Widget.KrossWordWidget.CountOut | src/ui/crossword_widget.py:786-788 | the minus branch |
| Widget.KrossWordWidget.CountIn | src/ui/crossword_widget.py:789-791 | the plus branch |
| Widget.KrossWordWidget.CheckFilledPuzzle | src/ui/crossword_widget.py:568-578 | the completion check |
| Widget.KrossWordWidget.LoopToEmptyInEntry | src/ui/crossword_widget.py:581-649 | the search for a blank in the entry |
| Widget.KrossWordWidget.ClearHereCell | src/ui/crossword_widget.py:655-661 | clearing the cursor's cell |
| Widget.KrossWordWidget.WriteLetter | src/ui/crossword_widget.py:505-521 | the cell edits of letter entry |
| Widget.KrossWordWidget.AdvanceAfterLetter | src/ui/crossword_widget.py:523-546 | the move after letter entry, using the word's end for the last-character test |
| Widget.KrossWordWidget.HandleLetterInput | src/ui/crossword_widget.py:488-551 | letter entry from a key code |
| Widget.KrossWordWidget.HandleDelete | src/ui/crossword_widget.py:651-675 | backspace |
| Widget.KrossWordWidget.MoveToNextEntryStart | src/ui/crossword_widget.py:694-766 | Tab as written; reports failure exactly where the source raises, that is with no clue at all or in the Shift+Tab gap, the mode then being flipped and the cursor kept |
| Widget.KrossWordWidget.HandleNavigation | src/ui/crossword_widget.py:682-692 | navigation as written; reports failure exactly for Tab or Backtab with no clue at all or in the Shift+Tab gap |
| Widget.KrossWordWidget.TabEvent | src/ui/crossword_widget.py:214-221 | without a puzzle only the modified flag is set; else the Tab key event as written, whose contract sets the modified flag exactly unless there is no clue at all or the cursor is in the Shift+Tab gap |
| Widget.KrossWordWidget.KeyPressEvent | src/ui/crossword_widget.py:223-274 | nothing without a puzzle; else the key dispatch |
| Widget.WalkLeft | src/ui/crossword_widget.py:101-107 | the walk left stops at the word start |
| Widget.WalkUp | src/ui/crossword_widget.py:110-116 | the walk up stops at the word start |
| Widget.WalkRight | src/ui/crossword_widget.py:1011-1013 | the walk right stops at the word end |
| Widget.WalkDown | src/ui/crossword_widget.py:1014-1016 | the walk down stops at the word end |
| Widget.FirstOpenSquare | src/ui/crossword_widget.py:51-58 | the loops find the first open square |
| Widget.Coordinates | src/ui/crossword_widget.py:173-182 | the loops list the positions from start to end along the mode |
| Widget.SeekOnGrid | src/ui/crossword_widget.py:798-806 | the walk finds the first open cell in its direction |
| Widget.StepOnGrid | src/ui/crossword_widget.py:794-806 | the walk of a directional move |
| Widget.PrevOnGrid | src/ui/crossword_widget.py:880-941 | the two backward walks of `_move_to_previous_cell` |
| Widget.LastOpenOnGrid | src/ui/crossword_widget.py:899-911 | the backward walk from the far end of a line |
| Widget.NextBlankOnGrid | src/ui/crossword_widget.py:846-878 | the forward walk to an open blank cell |
| Widget.SkipForward | src/ui/crossword_widget.py:943-956 | the forward skip's loop lands on the first open cell, else (0, 0) |
| Widget.SkipBackward | src/ui/crossword_widget.py:958-974 | the backward skip's loop lands on the last open cell at or before the cursor, else the bottom-right corner |
| Widget.SkipUpward | src/ui/crossword_widget.py:976-996 | the upward skip's loop lands on the last open cell at or before the cursor in column order, else the bottom-right corner |
| Widget.GreyPasses | src/ui/crossword_widget.py:553-565 | the loop over both directions emits the grey events |
| Widget.GreyStep | src/ui/crossword_widget.py:555-558 | one direction's grey event |
| Widget.RunFilledOnGrid | src/ui/crossword_widget.py:771-783 | the walk of `word_filled` |
| Widget.BoundsOnGrid | src/ui/crossword_widget.py:1002-1016 | the four walks of `_get_word_bounds` give the word start and end indices |
| Widget.FirstEmptyOnGrid | src/ui/crossword_widget.py:605-619 | one loop of `_loop_to_empty_in_entry` |
| Widget.EmptyInOnGrid | src/ui/crossword_widget.py:599-640 | the two loops on the word |
| Widget.EmptyInWordOnGrid | src/ui/crossword_widget.py:581-640 | the search on the word through the cursor |
| Widget.AllCorrectOnGrid | src/ui/crossword_widget.py:570-576 | the scan finds every open cell correct exactly when it is |
| Widget.CurrentIndexOf | src/ui/crossword_widget.py:698-723 | the index of the current clue |
| Widget.ScanClues | src/ui/crossword_widget.py:728-732 | the inner loop over a clue list |
| Widget.TabStep | src/ui/crossword_widget.py:727-742 | one pass of the outer loop |
| Widget.SwitchList | src/ui/crossword_widget.py:735-742 | the switch to the other list |
| Widget.FallbackOf | src/ui/crossword_widget.py:744-758 | the fallback for a filled grid as written, raising where the source indexes past a list |
| Widget.TwoPasses | src/ui/crossword_widget.py:726-742 | the two passes |
| Widget.TabScan | src/ui/crossword_widget.py:704-758 | the passes and the fallback as written give the target, or the mode at the IndexError |
| CheckRevealSpec.Checked | src/ui/check_and_reveal.py:62-71 | the verdict on a cell: a filled cell gains corrected when right and incorrect when wrong; black and blank cells and all other fields are kept; no mark is removed |
| CheckRevealSpec.CheckedIdempotent | src/ui/check_and_reveal.py:62-71 | checking twice is checking once |
| CheckRevealSpec.CheckAtIdempotent | src/ui/check_and_reveal.py:82-91 | checking the same positions twice is checking them once |
| CheckRevealSpec.CheckAtVerdicts | src/ui/check_and_reveal.py:82-91 | checking never changes input, solution, blackness or the revealed mark; an unmarked filled cell gets exactly the mark its input deserves, and a blank cell none |
| CheckRevealSpec.CheckAtFrame | src/ui/check_and_reveal.py:82-91 | cells outside the checked positions are untouched |
| CheckRevealSpec.CheckWord | src/ui/check_and_reveal.py:73-93 | checking a word changes only the cells |
| CheckRevealSpec.CheckWordOutcome | src/ui/check_and_reveal.py:82-91 | in the word, a right filled cell becomes corrected, a wrong uncorrected one becomes incorrect and stays uncorrected, and a blank or black cell is kept |
| CheckRevealSpec.CheckAll | src/ui/check_and_reveal.py:95-107 | checking the grid keeps its shape |
| CheckRevealSpec.CheckAllVerdicts | src/ui/check_and_reveal.py:95-107 | checking the grid twice is checking it once, every filled cell ends up marked, and no input changes |
| CheckRevealSpec.RevealIdempotent | src/ui/check_and_reveal.py:19-23 | revealing twice is revealing once, and keeps blackness and the solution |
| CheckRevealSpec.RevealAt | src/ui/check_and_reveal.py:11-25 | revealing a cell keeps the board, cursor and mode |
| CheckRevealSpec.RevealSeq | src/ui/check_and_reveal.py:33-46 | revealing positions one after another keeps the board, cursor and mode |
| CheckRevealSpec.RevealSeqSnoc | src/ui/check_and_reveal.py:33-46 | one more position is one more reveal |
| CheckRevealSpec.RevealAtCount | src/ui/check_and_reveal.py:19-23 | a reveal counts the cell in exactly when it was open and blank |
| CheckRevealSpec.RevealWord | src/ui/check_and_reveal.py:27-48 | revealing a word keeps the board, cursor and mode |
| CheckRevealSpec.RevealGrid | src/ui/check_and_reveal.py:33-44 | the picture of a reveal: each open listed cell shows its solution; the grid keeps its shape |
| CheckRevealSpec.RevealGridSnoc | src/ui/check_and_reveal.py:33-44 | one more position reveals one more open cell |
| CheckRevealSpec.RevealSeqCells | src/ui/check_and_reveal.py:33-46 | a sequence of reveals leaves exactly that picture |
| CheckRevealSpec.Blanks | src/ui/check_and_reveal.py:40-42 | the number of open blank listed cells is at most the number listed |
| CheckRevealSpec.RevealSeqCount | src/ui/check_and_reveal.py:33-46 | revealing distinct positions raises the counter by the number of open blank ones among them |
| CheckRevealSpec.RevealAtKeepsCount | src/ui/check_and_reveal.py:11-25 | a reveal keeps the counter equal to the number of filled cells, when the cell has a solution |
| CheckRevealSpec.RevealSeqKeepsCount | src/ui/check_and_reveal.py:33-46 | a sequence of reveals keeps the counter equal to the number of filled cells |
| CheckRevealSpec.WordCellsDistinct | src/ui/check_and_reveal.py:32 | a word's coordinates are distinct |
| CheckRevealSpec.RevealWordCells | src/ui/check_and_reveal.py:27-48 | after revealing a word, each open cell of it shows its solution and is marked revealed, and every other cell is unchanged |
| CheckRevealSpec.RevealWordCount | src/ui/check_and_reveal.py:27-48 | revealing a word raises the counter by exactly the number of its blank open cells |
| CheckRevealSpec.RevealWordKeepsCount | src/ui/check_and_reveal.py:27-48 | revealing a word keeps the counter equal to the number of filled cells |
| CheckRevealSpec.RevealLetterEffect | src/ui/check_and_reveal.py:11-25 | revealing an open cell shows its solution and counts it in when it was blank; then solved becomes true exactly when the counts meet and the grid is right |
| CheckRevealSpec.RevealSolvable | src/ui/check_and_reveal.py:54-55 | an open cell with a solution is revealed; any other cell is kept |
| CheckRevealSpec.RevealAll | src/ui/check_and_reveal.py:52-55 | revealing the grid keeps its shape |
| CheckRevealSpec.RevealAnswersAsWritten | src/ui/check_and_reveal.py:50-60 | as written: the cells are revealed and the three notifications go out, but the counter and solved flag keep their old values |
| CheckRevealSpec.RevealAnswers | src/ui/check_and_reveal.py:50-60 | corrected: the same, with the counter set to the fillable count |
| CheckRevealSpec.RevealAllCells | src/ui/check_and_reveal.py:52-55 | exactly the open cells with a solution are revealed |
| CheckRevealSpec.RevealAllFills | src/ui/check_and_reveal.py:52-55 | when every open cell has a solution, the revealed grid is full and correct |
| CheckRevealSpec.CountOpenRevealAll | src/ui/check_and_reveal.py:52-55 | revealing keeps the number of open cells |
| CheckRevealSpec.RevealAnswersKeepsCount | src/ui/check_and_reveal.py:57-58 | corrected, the counter equals the number of filled cells afterwards |
| CheckRevealSpec.RevealAnswersAsWrittenStale | src/ui/check_and_reveal.py:57 | as written, on a one-cell puzzle with a blank cell the grid ends full while the counter stays 0 |
| CheckReveal.CheckAndReveal.constructor | src/ui/check_and_reveal.py:6-9 | remembers the widget and the puzzle |
| CheckReveal.CheckAndReveal.RevealCell | src/ui/check_and_reveal.py:19-24 | the reveal of one open cell with its signals and the completion check |
| CheckReveal.CheckAndReveal.RevealCurrentLetter | src/ui/check_and_reveal.py:11-25 | nothing without a puzzle or on a black cell; else the reveal of the cursor's cell |
| CheckReveal.CheckAndReveal.RevealPositions | src/ui/check_and_reveal.py:33-46 | the loop over the word's coordinates |
| CheckReveal.CheckAndReveal.RevealCurrentWord | src/ui/check_and_reveal.py:27-48 | nothing without a puzzle; else revealing the word |
| CheckReveal.CheckAndReveal.RevealAnswers | src/ui/check_and_reveal.py:50-60 | the grid reveal as written: every open cell with a solution revealed, the clues greyed, the fillable count announced and the solved message sent, the counter left as it was; nothing changes without a puzzle |
| CheckReveal.CheckAndReveal.CheckCurrentLetter | src/ui/check_and_reveal.py:62-71 | the verdict on the cursor's cell, and nothing off the grid or without a puzzle; only the cells change, so size, clue lists and fillable count are unchanged |
| CheckReveal.CheckAndReveal.CheckCurrentWord | src/ui/check_and_reveal.py:73-93 | the verdict on the word's cells; only the cells change |
| CheckReveal.CheckAndReveal.CheckAnswers | src/ui/check_and_reveal.py:95-107 | the verdict on every cell; only the cells change, so size, clue lists and fillable count are unchanged |
| CheckReveal.CheckCells | src/ui/check_and_reveal.py:82-91 | the loop gives the checked positions |
| Progress.Split | src/ui/crossword_window.py:264 | `split(":")` gives at least one piece, none holding the separator; a single piece when there is no separator |
| Progress.JoinSplit | src/ui/crossword_window.py:264 | the pieces joined by the separator give the string back |
| Progress.SplitSplice | src/ui/crossword_window.py:264 | a separator-free piece followed by the separator splits off first |
| Progress.SplitJoin | src/ui/crossword_window.py:264 | splitting joined separator-free pieces gives the pieces: split and join are inverse |
| Progress.ParseTimer | src/ui/crossword_window.py:264 | a timer string is read only if it holds a colon |
| Progress.TimerFromPieces | src/ui/crossword_window.py:264 | a string whose first two pieces are numerals gives 60 × minutes + seconds |
| Progress.TimerRoundTrip | src/ui/crossword_window.py:264 | "MM:SS" written from minutes and seconds reads back as 60 × MM + SS |
| Progress.SplitTwo | src/ui/crossword_window.py:264 | two separator-free pieces split off first |
| Progress.TimerIgnoresRest | src/ui/crossword_window.py:264 | a third piece changes nothing |
| Progress.TimerNeedsColon | src/ui/crossword_window.py:264 | a string without a colon is refused |
| Progress.Mark | src/ui/crossword_window.py:269-276 | setting one flag sets it and keeps every other field and flag |
| Progress.Replay | src/ui/crossword_window.py:269-276 | the replays keep the grid's shape |
| Progress.ReplayCell | src/ui/crossword_window.py:269-276 | each cell gains exactly the flags whose lists name it and keeps what it had; an unnamed cell is untouched; so the order of the replays does not matter |
| Progress.MarkAtCell | src/ui/crossword_window.py:269-270 | one replay sets the flag on each listed cell and keeps the rest |
| Progress.CountFilledSame | src/ui/crossword_window.py:269-276 | grids that agree on which cells are filled have equal counts |
| Progress.ReplayKeepsCount | src/ui/crossword_window.py:269-276 | the replay writes no input, so the count of filled cells is unchanged |
| Progress.RestoreCursor | src/ui/crossword_window.py:257-259 | cursor, mode and solved flag are taken verbatim from the record; nothing else changes |
| Progress.Restore | src/ui/crossword_window.py:257-276 | the restore changes no input, count or log; without a readable timer no flag is set |
| Progress.RestoreGood | src/ui/crossword_window.py:257-276 | a restored widget with its cursor on the grid is valid, and a counter that tracked the filled cells still does |
| Progress.CrosswordWindow.constructor | src/ui/crossword_window.py:263-264 | a new window has an empty label, zero seconds and no calls |
| Progress.RestoreCalls | src/ui/crossword_window.py:260-267 | set_pencil_mode is called exactly when the record had pencil mode, pause_puzzle_timer exactly when the timer was read and not running, in that order |
| Progress.LoadPreviousProgress | src/ui/crossword_window.py:257-276 | the widget becomes the restored session; the label shows the timer string; the seconds are read from it when it can be read; the window calls are the record's; failure exactly when the timer cannot be read |
| Progress.RestoreCursorFields | src/ui/crossword_window.py:257-259 | the cursor assignments |
| Progress.RestoreTimer | src/ui/crossword_window.py:263-267 | the timer lines |
| Progress.ReplayCells | src/ui/crossword_window.py:269-276 | the four loops give the replay |
| Progress.OnGridCovers | src/ui/crossword_window.py:269-276 | positions on the grid can be indexed |
| Progress.MarkCells | src/ui/crossword_window.py:269-270 | one replay loop |
| Progress.SeedFillCounter | src/ui/crossword_window.py:235 | the counter starts from the puzzle's initial filled count, which nothing sets |
| Progress.SeedMissesSavedInput | src/ui/crossword_window.py:235 | a one-cell document with a saved letter decodes to a grid with one filled cell |
| Progress.SeedLagsAfterParse | src/ui/crossword_window.py:235 | parsing that document and seeding the counter from the parsed puzzle leaves the counter at 0 while one cell is filled |
| Ipuz.DecodeOneSaved | src/parsers/ipuz_parser.py:53-61 | a one-cell document with a saved letter decodes to that cell, numbered 1, with solution and input "A", and one cell to fill |
| IpuzGrid.Limit | src/parsers/ipuz_parser.py:90-99 | the number of passes of a break-guarded loop never exceeds its range, and asking a length fails only with a Python error |
| IpuzGrid.Classify | src/parsers/ipuz_parser.py:106-127 | classifying a cell fails only with a Python error |
| IpuzGrid.ParseRow | src/parsers/ipuz_parser.py:97-127 | a parsed row keeps its number of cells |
| IpuzGrid.ParseGrid | src/parsers/ipuz_parser.py:87-127 | a parsed grid keeps its number of rows |
| IpuzGrid.LoadSaved | src/parsers/ipuz_parser.py:78-85 | the grid with saved inputs keeps its number of rows |
| IpuzGrid.LimitMeaning | src/parsers/ipuz_parser.py:90-99 | the row and column loops run while the index is below the bound and both lengths, stop at the first of them, and fail only when a length cannot be taken |
| IpuzGrid.Styled | src/parsers/ipuz_parser.py:108-113 | a truthy highlight shades the cell, a circle background circles it; neither mark is cleared and nothing else changes |
| IpuzGrid.Numbered | src/parsers/ipuz_parser.py:115-123 | a positive number opens and numbers the cell; 0 opens it with an empty solution; a negative number keeps it; a value not comparable with 0 raises |
| IpuzGrid.ClassifyFails | src/parsers/ipuz_parser.py:106-127 | classifying fails exactly on a "cell" value not comparable with 0 |
| IpuzGrid.ClassifyKeeps | src/parsers/ipuz_parser.py:106-127 | classifying never touches input or solve flags |
| IpuzGrid.ClassifyUntouched | src/parsers/ipuz_parser.py:106 | an entry that is not a dictionary with "cell" can change only the solution |
| IpuzGrid.ClassifyOpens | src/parsers/ipuz_parser.py:115-123 | a cell ends up open exactly when it was open or its "cell" value is at least 0 |
| IpuzGrid.ClassifySolution | src/parsers/ipuz_parser.py:120-127 | a one-character solution entry, upper-cased, wins; otherwise a "cell" of 0 clears the solution and anything else keeps it |
| IpuzGrid.ParseRowRaises | src/parsers/ipuz_parser.py:97-127 | a row fails only with a Python error, never a rejection |
| IpuzGrid.ParseGridRaises | src/parsers/ipuz_parser.py:87-127 | `_parse_grid` fails only with a Python error |
| IpuzGrid.ParseGridCell | src/parsers/ipuz_parser.py:87-127 | a cell within all four lengths is the classification of its entries; any other cell is unchanged |
| IpuzGrid.ParseGridRect | src/parsers/ipuz_parser.py:87-127 | `_parse_grid` keeps the grid's shape |
| IpuzGrid.RowPass | src/parsers/ipuz_parser.py:97-127 | one pass of the column loop |
| IpuzGrid.ParseRowCells | src/parsers/ipuz_parser.py:97-127 | the column loop |
| IpuzGrid.GridRow | src/parsers/ipuz_parser.py:94-127 | one row parsed |
| IpuzGrid.GridPass | src/parsers/ipuz_parser.py:90-127 | one pass of the row loop |
| IpuzGrid.ParseGridCells | src/parsers/ipuz_parser.py:90-127 | the row loop |
| IpuzGrid.LoadSavedErrors | src/parsers/ipuz_parser.py:78-85 | `_load_saved` fails only on a malformed value |
| IpuzGrid.LoadSavedCell | src/parsers/ipuz_parser.py:78-85 | a cell in range of the grid and of `saved` takes the saved string as input and keeps everything else; any other cell is unchanged |
| IpuzGrid.LoadSavedRect | src/parsers/ipuz_parser.py:78-85 | `_load_saved` keeps the grid's shape |
| IpuzGrid.SavedRowCells | src/parsers/ipuz_parser.py:82-85 | the column loop of `_load_saved` |
| IpuzGrid.LoadSavedCells | src/parsers/ipuz_parser.py:79-85 | the row loop of `_load_saved` |
| IpuzClues.FirstInRow | src/parsers/ipuz_parser.py:228-231 | the first column of a row carrying the number, none before it; None when none does |
| IpuzClues.FirstWith | src/parsers/ipuz_parser.py:191-194 | the first cell in row-major order carrying the number, none before it |
| IpuzClues.FirstWithIs | src/parsers/ipuz_parser.py:191-194 | a cell with the number and none before it is the first |
| IpuzClues.FirstWithNone | src/parsers/ipuz_parser.py:191-220 | with no cell carrying the number, there is no first |
| IpuzClues.RunLength | src/parsers/ipuz_parser.py:197-202 | the length of the open cells from a start up to a black cell or the edge |
| IpuzClues.RunLengthUnique | src/parsers/ipuz_parser.py:197-202 | any such maximal length is that length |
| IpuzClues.ExtractAnswerSpec | src/parsers/ipuz_parser.py:187-220 | the answer is the solutions of the open cells from the first numbered cell up to a black cell or the edge, and "" when no cell has the number |
| IpuzClues.ExtractAnswerAtBlack | src/parsers/ipuz_parser.py:197-203 | a black start cell gives the empty answer |
| IpuzClues.ClueFields | src/parsers/ipuz_parser.py:145-159 | a dictionary gives clue, upper-cased answer and number; a list gives number and text; anything else is text without a number; only a non-string answer fails |
| IpuzClues.ClueNumber | src/parsers/ipuz_parser.py:166 | the number is 0 for a falsy value and `int()` of it otherwise |
| IpuzClues.BuildClue | src/parsers/ipuz_parser.py:161-173 | a built clue carries the entry's number and text, starts at (0, 0) in the list's direction, and its length is its answer's; a non-string text is `Unsupported` |
| IpuzClues.BuildClueAnswer | src/parsers/ipuz_parser.py:161-168 | the answer is the given one, or the one read off the grid when none is given |
| IpuzClues.BuildClueFromList | src/parsers/ipuz_parser.py:150-166 | a list entry's answer is read off the grid by its first item, which is its number |
| IpuzClues.BuildAll | src/parsers/ipuz_parser.py:144-174 | one clue per entry |
| IpuzClues.BuildAllOk | src/parsers/ipuz_parser.py:144-174 | the list is built exactly when every entry is |
| IpuzClues.BuildAllOrder | src/parsers/ipuz_parser.py:144-174 | list order is kept: clue i is entry i built |
| IpuzClues.FindStart | src/parsers/ipuz_parser.py:222-234 | a cell carrying the number with none before it, or (0, 0) |
| IpuzClues.FindStartMissing | src/parsers/ipuz_parser.py:233-234 | with no such cell, (0, 0) |
| IpuzClues.Placed | src/parsers/ipuz_parser.py:177-179 | a positive number moves the clue to its start; nothing else changes |
| IpuzClues.PlaceAll | src/parsers/ipuz_parser.py:177-179 | placing keeps the number of clues |
| IpuzClues.PlaceAllCell | src/parsers/ipuz_parser.py:177-179 | each clue is placed on its own |
| IpuzClues.ClueListOrder | src/parsers/ipuz_parser.py:140-185 | one clue per entry in order, built and placed, with its answer's length and the list's direction |
| IpuzClues.ClueListErrors | src/parsers/ipuz_parser.py:140-185 | building a list fails only on a malformed value |
| IpuzClues.ListFor | src/parsers/ipuz_parser.py:133 | the lower-case list, or the capitalised one when that is missing or empty |
| IpuzClues.Clues | src/parsers/ipuz_parser.py:130-138 | clues that are not a dictionary raise |
| IpuzClues.CluesErrors | src/parsers/ipuz_parser.py:130-138 | `_parse_clues` fails only on a malformed value |
| IpuzClues.CluesLists | src/parsers/ipuz_parser.py:130-138 | both lists come from the keys named for them, and each clue has its list's direction |
| Ipuz.Dimension | src/parsers/ipuz_parser.py:39 | a dimension compares with 0 exactly when it is a number or boolean |
| Ipuz.Header | src/parsers/ipuz_parser.py:19-40 | an accepted header belongs to a dictionary and has positive width and height |
| Ipuz.Cells | src/parsers/ipuz_parser.py:53-61 | the cells of an accepted document form a width by height grid |
| Ipuz.Metadata | src/parsers/ipuz_parser.py:28-33 | metadata fails only on a value the model's strings cannot hold |
| Ipuz.DecodeParts | src/parsers/ipuz_parser.py:11-69 | an accepted document's puzzle has the header's size, the parsed cells, the parsed clues, the metadata and the open-cell count |
| Ipuz.FinishBuilds | src/parsers/ipuz_parser.py:62-69 | given clues and metadata, the finished puzzle carries them and the open-cell count |
| Ipuz.DecodeLateErrors | src/parsers/ipuz_parser.py:42-69 | after the header, parsing fails only on a malformed value |
| Ipuz.DecodeNotCrossword | src/parsers/ipuz_parser.py:19-22 | the document is rejected as not a crossword exactly when its kind lacks the crossword kind |
| Ipuz.DecodeBadDimensions | src/parsers/ipuz_parser.py:35-40 | the dimensions are rejected exactly when the kind is right and the width, or else the height, compares with 0 and is at most 0 |
| Ipuz.DecodeAccepted | src/parsers/ipuz_parser.py:19-51 | an accepted document lists the crossword kind, and the puzzle has its positive width and height |
| Ipuz.DecodeWellFormed | src/parsers/ipuz_parser.py:42-76 | the puzzle is rectangular, every clue starts on the grid, and the fillable count is the number of open cells |
| Ipuz.ListStartsInGrid | src/parsers/ipuz_parser.py:176-179 | every clue of a list starts on the grid |
| Ipuz.CellsCell | src/parsers/ipuz_parser.py:53-61 | each cell is the blank cell, classified where `_parse_grid` reaches it and given the saved input where `_load_saved` reaches it |
| Ipuz.DecodeClue | src/parsers/ipuz_parser.py:62-65 | clue i of each direction is entry i of the list the document names for it, built and placed |
| Ipuz.DecodeMetadata | src/parsers/ipuz_parser.py:28-33 | the metadata is the document's, "" when missing and "Untitled Crossword" for a missing title |
| Ipuz.DecodeMinimal | src/parsers/ipuz_parser.py:11-69 | the smallest crossword gives two black blank cells, no clues and nothing to fill |
| Ipuz.MinimalHeader | src/parsers/ipuz_parser.py:19-40 | its header gives 2 by 1 |
| Ipuz.MinimalCells | src/parsers/ipuz_parser.py:53-61 | its cells stay blank |
| Ipuz.MinimalClues | src/parsers/ipuz_parser.py:62-65 | it has no clues |
| Ipuz.FirstCell | src/parsers/ipuz_parser.py:191-194 | the row-major search finds the first cell with the number, and nothing for a value no number equals |
| Ipuz.ScanRun | src/parsers/ipuz_parser.py:197-202 | the scan concatenates the solutions of the maximal open cells |
| Ipuz.IpuzParser.constructor | src/parsers/ipuz_parser.py:8-9 | the supported versions are "1.0", "1.1" and "2.0" |
| Ipuz.IpuzParser.Parse | src/parsers/ipuz_parser.py:11-69 | succeeds exactly when the document decodes, with the same error otherwise; the fresh puzzle holds the decoded data; the warning is printed exactly for a crossword with an unsupported version |
| Ipuz.IpuzParser.Build | src/parsers/ipuz_parser.py:42-69 | the rest of `parse`, from the puzzle's creation |
| Ipuz.IpuzParser.Complete | src/parsers/ipuz_parser.py:62-67 | clues, metadata and fillable count on a filled grid |
| Ipuz.IpuzParser.SetMetadata | src/parsers/ipuz_parser.py:28-33 | stores the five metadata strings |
| Ipuz.IpuzParser.NewPuzzle | src/parsers/ipuz_parser.py:42-61 | a fresh puzzle of the size, through the grid and saved passes |
| Ipuz.IpuzParser.FillCells | src/parsers/ipuz_parser.py:55-61 | the grid pass, then the saved pass when "saved" is truthy |
| Ipuz.IpuzParser.GetFillableCellCount | src/parsers/ipuz_parser.py:71-76 | the fillable count is the number of open cells |
| Ipuz.IpuzParser.LoadSaved | src/parsers/ipuz_parser.py:78-85 | `_load_saved` on the puzzle's cells |
| Ipuz.IpuzParser.ParseGrid | src/parsers/ipuz_parser.py:87-127 | `_parse_grid` on the puzzle's cells |
| Ipuz.IpuzParser.ParseClues | src/parsers/ipuz_parser.py:130-138 | `_parse_clues` sets both lists |
| Ipuz.IpuzParser.ParseClueList | src/parsers/ipuz_parser.py:140-185 | sets the direction's list and keeps the other |
| Ipuz.IpuzParser.BuildClues | src/parsers/ipuz_parser.py:144-174 | the first loop builds every entry |
| Ipuz.IpuzParser.BuildOne | src/parsers/ipuz_parser.py:145-173 | one entry built |
| Ipuz.IpuzParser.PlaceClues | src/parsers/ipuz_parser.py:177-179 | the second loop places every numbered clue |
| Ipuz.IpuzParser.ExtractAnswerFromGrid | src/parsers/ipuz_parser.py:187-220 | the answer read off the grid |
| Ipuz.IpuzParser.FindClueStart | src/parsers/ipuz_parser.py:222-234 | the clue's start |

## Left out

- Painting, fonts, cell metrics and the context menu are rendering.
  - The pixel-to-cell conversion of a click uses floats. `Click` takes the row
    and column directly and models the left button only.
- `_get_referenced_cells` runs at paint time. It reads a `references` field that
  the clue type does not have.
- Qt signals are appended to an event log. `cell_selected`, `value_changed` and
  `update()` carry no state and are not logged.
- The Return key calls `_handle_navigation` without its `shift` argument, so it
  raises before doing anything. The model leaves the session unchanged.
  `move_right`/`move_down` are modelled as standalone methods.
- JSON and file I/O are not modelled: the `open` and `json.load` in `parse` and
  in `load_previous_progress`. The document and the progress record are given
  as decoded values.
- JSON numbers are integers. Floats are not modelled.
- A dictionary is iterated in insertion order, which a map does not keep.
  Iterating a non-empty dictionary as a clue list is reported as `Unsupported`.
- `IpuzClues.BuildClue`: a clue text that is not a string (the second item of
  a list entry such as `[1, 5]`, or the "clue" of a dictionary entry such as
  `{"clue": 5}`) is `Unsupported`. Python keeps that value as the clue's text.
- Metadata and saved inputs that are not strings are `Unsupported`: Python
  keeps such values, but the model's string fields cannot hold them.
  - For this reason the metadata is converted after the clues, where Python
    stores it when the puzzle is created.
- `Ipuz.IpuzParser.Parse`: a failing `parse` leaves a half-built puzzle that
  nobody sees. The model says what the successful result holds and nothing
  about the discarded object.
- The version warning printed by `parse` is the `warned` result.
- `int()` accepts surrounding whitespace and underscores; `Base.ParseInt` reads
  an optional sign and ASCII digits.
- `str.upper` is modelled for ASCII letters only.
- Clue objects are values. Python mutates the clue objects of the list in
  place, but nothing else holds them.
- The row-major searches of `_extract_answer_from_grid` and `_find_clue_start`
  share one loop (`Ipuz.FirstCell`). Their across and down branches share the
  scan through `Direction`.
- `select_first_square` raises on a grid without open cells. `SelectFirstSquare`
  and `SetPuzzle` report this as a `false` result.
- The window's `set_pencil_mode` and `pause_puzzle_timer` are not part of this
  model. The restore records them as `WindowCall` values.
- The timer widgets, the title label and the rest of `crossword_window.py` are
  UI.
- `CheckReveal.CheckAndReveal.RevealAnswers`: without a puzzle the source
  raises AttributeError on its first line; the model returns with nothing
  changed. The `filled_cells` attribute it assigns is read by nothing and is
  not modelled. `grey_all_clues` is the reveal object's own signal; the model
  logs it in the widget's event log.
- `Progress.SeedFillCounter`: `initial_filled_cells` is declared and set
  nowhere. In Python, reading it at `src/ui/crossword_window.py:235` raises
  AttributeError unless some code outside this model sets it. Under the
  convention above (undeclared fields start at 0), it is 0 for a parsed
  puzzle, and the counter starts at 0 even when the saved grid filled cells
  (`Progress.SeedLagsAfterParse`).
  `Progress.RestoreGood` and the lemmas that keep the counter equal to the
  number of filled cells hold only from a state whose counter already tracks
  them.
- `Progress.LoadPreviousProgress`: requires every flag coordinate of the
  record to lie on the grid. Python wraps a negative index to the end of its
  row or grid, and raises IndexError on a too-large one after setting the
  flags listed before it; neither is modelled.
- `Krossword.Puzzle.SetCell` and `Krossword.Puzzle.ValidateSolution` require
  the grid to be `height` rows of `width` cells (and, for validation, a positive size and every
  clue starting on the grid). The source does not check this; on a grid that
  disagrees with its size it would raise IndexError, which is not modelled.
  Every puzzle the parser builds meets it. The keyword arguments and the
  defaults of `set_cell` (`is_empty=False`, `clue_number=None`) and of the
  dataclass constructors are explicit arguments in the model.
- `TabSpec.Tab`, `Widget.KrossWordWidget.MoveToNextEntryStart`,
  `Widget.KrossWordWidget.TabEvent`: where Tab raises an IndexError, the model
  keeps the state the handler had reached (the mode flipped, the cursor unmoved,
  the modified flag unset). What Qt does with the exception escaping the event
  handler is not modelled.
- `main_window.py`, `stats_tab.py`, `file_loader.py`, the AI window, the Tab
  event filter and the other UI files are not part of this model.

## Findings

| source | as written | input that shows it | evidently intended | confidence | as-written member | corrected member |
|---|---|---|---|---|---|---|
| src/ui/crossword_widget.py:752-753 | when no unfilled clue is found, Shift+Tab takes `clues[original_index - 1]` after testing only `original_index - 1 >= 0`; by then `clues` may be the other direction's list | across clues [filled, unfilled], cursor on the second, no down clues, Shift+Tab: the scan switches to the empty down list and indexes it, an IndexError | bound the index by the current list's length, as the forward branch does, and otherwise go to the other list's first or last clue | not executed | TabSpec.ShiftTabWitness | TabSpec.TabTargetDefined |
| src/ui/check_and_reveal.py:57 | `reveal_answers` assigns `filled_cells`, an attribute nothing reads, instead of the widget's counter `cells_filled` | a one-cell puzzle whose only cell is blank: after `reveal_answers` the grid is full while the counter stays 0 | set `cells_filled` to the fillable count, the value the next line announces | not executed | CheckRevealSpec.RevealAnswersAsWrittenStale | CheckRevealSpec.RevealAnswersKeepsCount |
