# Nonogram engine in Dafny

A verified model of the engine of a Java nonogram (picross) game and of the small container classes it is built on.

**Board.** A `GameBoard` is built from a boolean solution grid. It holds one `Cell` per position and derives run-length clues for every row and column. Each `Cell` keeps an immutable solution bit and a mutable three-valued state (UNKNOWN, FILLED, MARKED).

**Game state.** A `GameState` logs moves on two stacks, for undo and redo. It also tracks completion, hints used and lives.

**Hints.** The `HintGenerator` reads the board and proposes a `Hint`. It tries three strategies in a fixed order:
1. complete line;
2. edge deduction from the first clue;
3. single-clue overlap.

**Value types.** `Move`, `CellPosition`, `Difficulty` and `Puzzle`.

**Containers.** `MyArrayList`, `MyLinkedList`, `MyStack`, `MyQueue` and `MyHashMap`.

Each source file becomes one module in its own `.dfy` file.
- **Pure code** (cell-state cycling, the clue definition, the hint strategies, moves, positions, difficulties) is datatypes, functions and lemmas.
- **Code that updates state** keeps its form:
  - classes with mutable fields, `modifies` clauses and loops;
  - every method is proved against a function or ghost model: `Contents` for the containers, `States()` for the board, `Abstract()` for the game state, `Value()` for a hint.
- **What is proved about those functions:**
  - round trips: undo after a move, redo after undo, insert then remove, push then pop;
  - preserved invariants: the undo and redo chains, the hash table's representation;
  - the facts the hint code promises: priority order, named cells unknown and in bounds, soundness against the solution, the overlap strategy never winning.

`wrappers.dfy` holds the `Option`/`Result` types; Java exceptions become `Err` values:
- `IndexOutOfBounds`
- `IllegalArgument`
- `Empty` for the stack's and queue's RuntimeException

Java `null` keys and hints become `Option.None` / `null` references.

## Model

| member | source | states |
|---|---|---|
| Cells.Next | src/nonogram/model/Cell.java:24-36 | the click cycle UNKNOWN→FILLED→MARKED→UNKNOWN, each state's successor named in both directions |
| Cells.NextThreeTimes | src/nonogram/model/Cell.java:24-36 | three cycles return every state to itself, and one or two cycles never do |
| Cells.CorrectCases | src/nonogram/model/Cell.java:42-53 | isCorrect is false for UNKNOWN, the solution bit for FILLED, its negation for MARKED |
| Cells.Correct | src/nonogram/model/Cell.java:42-53 | an UNKNOWN cell is never correct; a decided cell is correct iff "filled" agrees with the solution bit |
| Cells.Cell.constructor | src/nonogram/model/Cell.java:9-14 | stores row, col and solution bit; starts UNKNOWN and therefore not correct |
| Cells.Cell.SetState | src/nonogram/model/Cell.java:20-22 | sets exactly the given state |
| Cells.Cell.CycleState | src/nonogram/model/Cell.java:24-36 | the new state is the cycle successor of the old one |
| Cells.Cell.IsCorrect | src/nonogram/model/Cell.java:42-53 | true only for a decided cell, and for a decided cell iff its being FILLED agrees with actualValue |
| Cells.Cell.Reset | src/nonogram/model/Cell.java:63-65 | the state becomes UNKNOWN from any state, after which the cell is not correct |
| Positions.Wrap32 | src/nonogram/model/CellPosition.java:23-25 | Java int wrap-around: the result is a 32-bit int congruent to the input mod 2^32, and equal to it when it fits |
| Positions.EqualsIsValueEquality | src/nonogram/model/CellPosition.java:16-21 | equals holds iff rows and cols agree, so it is value equality, reflexive and symmetric |
| Positions.Equals | src/nonogram/model/CellPosition.java:16-21 | equals on two positions holds exactly when they are the same value |
| Positions.HashCode | src/nonogram/model/CellPosition.java:23-25 | row*31+col in 32-bit arithmetic: always an int, congruent to row*31+col mod 2^32 on every input, and equal to it whenever it fits in an int |
| Positions.EqualsImpliesSameHash | src/nonogram/model/CellPosition.java:16-25 | equal positions have equal hashes |
| Positions.HashInjectiveOnNarrowBoards | src/nonogram/model/CellPosition.java:23-32 | on a board at most 31 columns wide, in-bounds positions with the same hash are the same position |
| Positions.IsValid | src/nonogram/model/CellPosition.java:30-32 | a valid position implies a non-empty grid |
| GameRules.ValidIffInGrid | src/nonogram/model/CellPosition.java:30-32 | against a rows x cols grid, isValid holds exactly for the positions on that grid |
| Moves.Reverse | src/nonogram/model/Move.java:25-27 | getReverse keeps the position and swaps old and new state |
| Moves.ReverseTwice | src/nonogram/model/Move.java:25-27 | reversing twice gives the original move |
| Difficulties.Rows | src/nonogram/model/Difficulty.java:4-7 | every difficulty has 5, 10, 15 or 20 rows |
| Difficulties.Cols | src/nonogram/model/Difficulty.java:4-7 | every difficulty is square: cols == rows |
| Difficulties.TotalCells | src/nonogram/model/Difficulty.java:31-33 | getTotalCells is rows*cols, one of 25/100/225/400 |
| Difficulties.DifficultyTable | src/nonogram/model/Difficulty.java:4-7 | EASY/MEDIUM/HARD/EXPERT have 5/10/15/20 rows and 25/100/225/400 cells |
| Difficulties.DisplayName | src/nonogram/model/Difficulty.java:27-29 | the display name is non-empty and starts with a capital letter |
| Difficulties.DisplayNamesDistinct | src/nonogram/model/Difficulty.java:4-7 | no two difficulties share a display name |
| Clues.LeadingTrue | src/nonogram/model/GameBoard.java:82-91 | the length of the true-block a counter scan sees first: all true up to it, false (or the end) right after |
| Clues.Clue | src/nonogram/model/GameBoard.java:78-99 | a clue list is never empty and every entry lies in [0, line length] |
| Clues.RunsPositive | src/nonogram/model/GameBoard.java:82-94 | every run length recorded by the counter is positive |
| Clues.RunsSum | src/nonogram/model/GameBoard.java:82-94 | the run lengths sum to the number of true cells in the line |
| Clues.RunsEmptyIff | src/nonogram/model/GameBoard.java:92-97 | a line has no runs iff it has no true cell |
| Clues.RunsCount | src/nonogram/model/GameBoard.java:82-94 | there is one run per maximal block of true cells |
| Clues.RunsFit | src/nonogram/model/GameBoard.java:82-94 | runs plus the gaps between them fit the line: sum + count <= length + 1 |
| Clues.RunsBounded | src/nonogram/model/GameBoard.java:82-94 | every run length lies in (0, line length] |
| Clues.FirstRunAt | src/nonogram/model/GameBoard.java:82-94 | the first run is a block of true cells somewhere in the line |
| Clues.ClueFacts | src/nonogram/model/GameBoard.java:78-99 | the clue is [0] exactly for a line without true cells; otherwise it is the runs, positive, bounded by the length, summing to the number of trues |
| Clues.FullClueMeansAllTrue | src/nonogram/model/GameBoard.java:78-99 | a clue [length] means every cell of the line is true |
| Clues.FirstClueOverlap | src/nonogram/model/GameBoard.java:78-99 | cells in [length - first clue, first clue) are true in a line whose first clue is positive |
| Clues.RunsAppend | src/nonogram/model/GameBoard.java:82-91 | runs of two pieces that do not join at a true-true border are the runs of each, concatenated |
| Clues.CloseBlock | src/nonogram/model/GameBoard.java:85-89 | the else branch: a false cell after `count` trues records `count` when it is positive |
| Clues.FinishBlock | src/nonogram/model/GameBoard.java:92-94 | after the scan, a pending positive count is recorded |
| Clues.LineClue | src/nonogram/model/GameBoard.java:79-97 | the counter loop over one line computes exactly Clue(line) |
| Clues.Column | src/nonogram/model/GameBoard.java:106-108 | column c read top to bottom, one entry per row |
| Board.Blank | src/nonogram/model/GameBoard.java:60-66 | a rows x cols grid of UNKNOWN states |
| Board.BlankNotSolved | src/nonogram/model/GameBoard.java:45-54 | a board with at least one cell that is all UNKNOWN is never complete |
| Board.Trim | src/nonogram/model/GameBoard.java:12-24 | the solution.length x solution[0].length part of the grid the board reads |
| Board.CluesOfBounded | src/nonogram/model/GameBoard.java:76-124 | every derived row clue lies in [0, cols] and every column clue in [0, rows] |
| Board.GenerateClues | src/nonogram/model/GameBoard.java:76-124 | exactly `rows` row clue lists and `cols` column clue lists, each the Clue of its row (left to right) or column (top to bottom) |
| Board.GameBoard.constructor | src/nonogram/model/GameBoard.java:12-28 | rows = solution.length, cols = solution[0].length, every cell UNKNOWN with actualValue = solution[r][c], clues derived from the solution |
| Board.GameBoard.States | src/nonogram/model/GameBoard.java:8 | the players' states of the cell array, cell for cell |
| Board.GameBoard.AllUnknownIsBlank | src/nonogram/model/GameBoard.java:60-66 | a board whose cells are all UNKNOWN shows the blank grid |
| Board.GameBoard.SetCellState | src/nonogram/model/GameState.java:39 | setting one cell's state changes exactly that entry of the board's states |
| Board.GameBoard.GetCell | src/nonogram/model/GameBoard.java:30-35 | IndexOutOfBounds exactly when row ∉ [0,rows) or col ∉ [0,cols); otherwise the cell at (row, col), carrying that position and solution bit |
| Board.GameBoard.GetRowClues | src/nonogram/model/GameBoard.java:37-39 | the derived clue list of a row; the list's get throws outside [0, rows) |
| Board.GameBoard.GetColumnClues | src/nonogram/model/GameBoard.java:41-43 | the derived clue list of a column; throws outside [0, cols) |
| Board.GameBoard.IsPuzzleComplete | src/nonogram/model/GameBoard.java:45-54 | true iff every cell is correct for its solution bit |
| Board.GameBoard.IsSolved | src/nonogram/model/GameBoard.java:56-58 | the same answer as isPuzzleComplete |
| Board.GameBoard.Reset | src/nonogram/model/GameBoard.java:60-66 | every cell UNKNOWN; clues and solution are unchanged constants |
| GameRules.SetCellChanges | src/nonogram/model/GameState.java:39 | setting one cell changes that cell and no other, and keeps the grid's shape |
| GameRules.SetCellRestores | src/nonogram/model/GameState.java:58 | writing back the old state undoes a cell write |
| GameRules.CheckCompletion | src/nonogram/model/GameState.java:116-121 | when the board is solved, complete becomes true and endTime = now; otherwise endTime is unchanged; nothing else changes and the flag is never cleared |
| GameRules.MakeMove | src/nonogram/model/GameState.java:30-42 | a move to the current state changes nothing; any other pushes Move(pos, old, new), empties redo, sets only that cell, and when the board is then solved sets complete and endTime = now (endTime unchanged otherwise) |
| GameRules.Undo | src/nonogram/model/GameState.java:52-66 | no-op on an empty history; otherwise the top move goes to the redo stack, its cell gets oldState back, complete is cleared and endTime is reset if it was set |
| GameRules.Reopen | src/nonogram/model/GameState.java:61-64 | a complete game becomes incomplete with endTime 0; nothing else changes |
| GameRules.Redo | src/nonogram/model/GameState.java:68-77 | no-op on an empty redo stack; otherwise the top redo move goes back onto history, its newState is reapplied, and when the board is then solved complete is set and endTime = now (endTime unchanged otherwise) |
| GameRules.LoseLife | src/nonogram/model/GameState.java:106-110 | lives drop by one when positive and never go below 0; nothing else changes |
| GameRules.Reset | src/nonogram/model/GameState.java:123-138 | both stacks empty, not complete, hintsUsed 0, lives 3, all cells UNKNOWN |
| GameRules.MoveThenUndo | src/nonogram/model/GameState.java:30-66 | makeMove then undo restores the grid and the move count, leaving that move on the redo stack |
| GameRules.UndoThenRedo | src/nonogram/model/GameState.java:52-77 | undo then redo restores the grid, history and redo stack |
| GameRules.MakeMoveKeepsConsistent | src/nonogram/model/GameState.java:30-42 | the history and redo stacks stay replayable chains of moves after makeMove |
| GameRules.UndoKeepsConsistent | src/nonogram/model/GameState.java:52-66 | undo keeps the chains replayable, and an undoable move always names a cell on the board |
| GameRules.RedoKeepsConsistent | src/nonogram/model/GameState.java:68-77 | redo keeps the chains replayable, and a redoable move always names a cell on the board |
| GameRules.NewMoveDisablesRedo | src/nonogram/model/GameState.java:37 | after a real move the redo stack is empty and redo is a no-op |
| GameRules.CompletionOnlyClearedByUndo | src/nonogram/model/GameState.java:116-121 | makeMove and redo never clear complete, and set it only when the board is solved |
| GameRules.LivesRunOut | src/nonogram/model/GameState.java:106-114 | from 3 lives, three losses leave 0 lives, hasLives false, and a further loss changes nothing |
| GameRules.HasLivesIff | src/nonogram/model/GameState.java:106-114 | after k losses lives = max(lives - k, 0), and hasLives holds iff k < lives |
| Game.GameState.constructor | src/nonogram/model/GameState.java:15-24 | empty history and redo stacks, not complete, endTime 0, hintsUsed 0, lives 3 |
| Game.GameState.MakeMove | src/nonogram/model/GameState.java:30-42 | an off-board position throws IndexOutOfBounds and changes nothing; otherwise the new state is GameRules.MakeMove of the old one |
| Game.GameState.CheckCompletion | src/nonogram/model/GameState.java:116-121 | the new state is GameRules.CheckCompletion of the old one |
| Game.GameState.CanUndo | src/nonogram/model/GameState.java:44-46 | true iff the history is non-empty |
| Game.GameState.CanRedo | src/nonogram/model/GameState.java:48-50 | true iff the redo stack is non-empty |
| Game.GameState.GetMoveCount | src/nonogram/model/GameState.java:90-92 | the number of moves in the history |
| Game.GameState.Undo | src/nonogram/model/GameState.java:52-66 | the new state is GameRules.Undo of the old one |
| Game.GameState.Reopen | src/nonogram/model/GameState.java:61-64 | the new state is GameRules.Reopen of the old one |
| Game.GameState.Redo | src/nonogram/model/GameState.java:68-77 | the new state is GameRules.Redo of the old one |
| Game.GameState.IncrementHintsUsed | src/nonogram/model/GameState.java:98-100 | hintsUsed goes up by one and nothing else changes |
| Game.GameState.LoseLife | src/nonogram/model/GameState.java:106-110 | the new state is GameRules.LoseLife of the old one |
| Game.GameState.HasLives | src/nonogram/model/GameState.java:112-114 | true iff lives > 0 |
| Game.GameState.SetAllUnknown | src/nonogram/model/GameState.java:133-137 | every cell UNKNOWN; the stacks and fields are untouched |
| Game.GameState.Reset | src/nonogram/model/GameState.java:123-138 | the new state is GameRules.Reset: both stacks empty, not complete, counters back to 0 and 3, all cells UNKNOWN |
| Hints.DigitChar | src/nonogram/model/Hint.java:46 | the decimal digit character of a value in [0, 10) |
| Hints.NatToString | src/nonogram/model/Hint.java:46 | Java's decimal rendering of a non-negative int: digits only, no leading zero |
| Hints.IntToString | src/nonogram/model/Hint.java:46 | Java's decimal rendering of an int: a '-' exactly for negatives, digits otherwise |
| Hints.NatToStringRoundTrip | src/nonogram/model/Hint.java:46 | the decimal rendering of a natural number parses back to it |
| Hints.IntToStringRoundTrip | src/nonogram/model/Hint.java:46 | the decimal rendering of any int parses back to it |
| Hints.Hint.constructor | src/nonogram/model/Hint.java:12-18 | stores type, message, lineIndex and isRowHint, with no affected cells |
| Hints.Hint.AddAffectedCell | src/nonogram/model/Hint.java:32-34 | appends the position at the end and keeps earlier entries |
| Hints.LayoutParts | src/nonogram/model/Hint.java:44-47 | the message starts with the type name and " - ", its next word is "Row" for a row hint and "Column" otherwise (so it starts with 'R' iff it is a row hint), followed by a space, the number in it parses to the given one, and it ends with the message |
| Hints.FullMessageParts | src/nonogram/model/Hint.java:44-47 | getFullMessage begins with the type name, says "Row" iff isRowHint (otherwise "Column"), shows lineIndex + 1, and ends with the message |
| Hints.Hint.FullMessage | src/nonogram/model/Hint.java:44-47 | getFullMessage starts with the type name and " - ", and ends with the hint's message |
| HintRules.FirstUnknown | src/nonogram/controller/HintGenerator.java:106-114 | the first UNKNOWN index in [lo, hi), or none iff that range has no UNKNOWN cell |
| HintRules.IsCompleteLinePattern | src/nonogram/controller/HintGenerator.java:178-183 | the pattern holds exactly for the clue list [lineLength] |
| HintRules.CompleteLinePatternMeansFullLine | src/nonogram/controller/HintGenerator.java:178-183 | for a non-empty line, its derived clue has the complete-line pattern iff every cell of the line is true |
| HintRules.EdgeCell | src/nonogram/controller/HintGenerator.java:98-115 | a cell iff the first clue exceeds half the length (integer division) and an UNKNOWN lies in [length - clue, clue); then the first such cell |
| HintRules.OverlapCell | src/nonogram/controller/HintGenerator.java:154-171 | a cell iff the line has a single positive clue c with length - c < c and an UNKNOWN in [length - c, c); then the first such cell |
| HintRules.EdgeRowFound | src/nonogram/controller/HintGenerator.java:103-112 | a row with a large first clue and an UNKNOWN in range yields the edge hint naming that cell |
| HintRules.EdgeColumnFound | src/nonogram/controller/HintGenerator.java:127-135 | a column with a large first clue and an UNKNOWN in range yields the edge hint naming that cell |
| HintRules.OverlapRowFound | src/nonogram/controller/HintGenerator.java:154-168 | a row with a single overlapping clue and an UNKNOWN in range yields the overlap hint naming that cell |
| HintRules.CompleteFromRowFacts | src/nonogram/controller/HintGenerator.java:34-61 | the complete-line search picks the first row whose clue is exactly [cols] and which has an UNKNOWN cell, names every cell of that row in order, and falls through to the columns when no row qualifies |
| HintRules.CompleteFromColumnFacts | src/nonogram/controller/HintGenerator.java:62-90 | the same for columns: the first qualifying column, all its cells top to bottom, or none when no column qualifies |
| HintRules.EdgeFromRowFacts | src/nonogram/controller/HintGenerator.java:92-117 | an edge hint names exactly one in-bounds UNKNOWN cell; a row hint names its row's EdgeCell |
| HintRules.EdgeFromRowFirst | src/nonogram/controller/HintGenerator.java:92-117 | the row edge pass fires at the first qualifying row, and falls through to the columns only when no row qualifies |
| HintRules.EdgeFromColumnFacts | src/nonogram/controller/HintGenerator.java:119-140 | a column edge hint names one in-bounds UNKNOWN cell: the column's EdgeCell |
| HintRules.EdgeFromColumnFirst | src/nonogram/controller/HintGenerator.java:119-142 | the column edge pass fires at the first qualifying column, and returns null only when no column qualifies |
| HintRules.OverlapFromRowFacts | src/nonogram/controller/HintGenerator.java:145-176 | the overlap pass considers rows only, fires at the first qualifying row, and names one in-bounds UNKNOWN cell |
| HintRules.OverlapLineIsEdgeLine | src/nonogram/controller/HintGenerator.java:103-106 | every line the overlap test accepts is accepted by the edge test: c > L/2 in integer division iff L - c < c, over the same range |
| HintRules.EdgeCoversOverlap | src/nonogram/controller/HintGenerator.java:92-176 | whenever the overlap pass has a hint, the row edge pass has one too |
| HintRules.NeverOverlap | src/nonogram/controller/HintGenerator.java:9-32 | generateHint never returns an OVERLAP_ANALYSIS hint, and it returns a hint iff the complete-line or the edge strategy has one |
| HintRules.HintPointsAtUnknown | src/nonogram/controller/HintGenerator.java:9-183 | every returned hint lies on its line inside the board; a complete-line hint's line has an UNKNOWN cell; any other hint names exactly one cell, which is UNKNOWN |
| HintRules.CompleteLineSound | src/nonogram/controller/HintGenerator.java:34-90 | with clues derived from the solution, every cell named by a complete-line hint is true in the solution |
| HintRules.EdgeCellSound | src/nonogram/controller/HintGenerator.java:102-106 | the cell picked by the edge rule on a line is true in that line's solution |
| HintRules.OverlapCellSound | src/nonogram/controller/HintGenerator.java:146-162 | the cell picked by the overlap rule on a line is true in that line's solution |
| HintRules.EdgeSound | src/nonogram/controller/HintGenerator.java:92-143 | with clues derived from the solution, the edge hint's cell is true in the solution |
| HintRules.OverlapSound | src/nonogram/controller/HintGenerator.java:145-176 | with clues derived from the solution, the overlap hint's cell is true in the solution |
| HintRules.GenerateHintSound | src/nonogram/controller/HintGenerator.java:9-32 | with clues derived from the solution, every cell named by generateHint is true in the solution |
| HintRules.GenerateHint | src/nonogram/controller/HintGenerator.java:9-32 | None iff all three strategies find nothing; a complete-line hint wins whenever one exists, and otherwise an edge hint wins whenever one exists |
| HintGenerator.ScanRow | src/nonogram/controller/HintGenerator.java:106-114 | the scan of a row range returns the first UNKNOWN column in it, or nothing |
| HintGenerator.ScanColumn | src/nonogram/controller/HintGenerator.java:129-137 | the scan of a column range returns the first UNKNOWN row in it, or nothing |
| HintGenerator.CompleteLineAtRow | src/nonogram/controller/HintGenerator.java:37-58 | one row of the complete-line search: a fresh hint equal to the search's answer from this row, or null when the search moves on |
| HintGenerator.CompleteLineAtColumn | src/nonogram/controller/HintGenerator.java:64-85 | one column of the complete-line search, the same way |
| HintGenerator.CompleteLineRows | src/nonogram/controller/HintGenerator.java:36-60 | the row loop returns the complete-line hint, or null when the answer is left to the columns |
| HintGenerator.CompleteLineColumns | src/nonogram/controller/HintGenerator.java:63-87 | the column loop returns the first complete column hint, or null iff there is none |
| HintGenerator.FindCompleteLineHint | src/nonogram/controller/HintGenerator.java:34-90 | null iff no line qualifies; otherwise a fresh hint equal to the specified complete-line hint |
| HintGenerator.EdgeDeductionAtRow | src/nonogram/controller/HintGenerator.java:95-116 | one row of the edge search: the hint from this row, or null when the search moves on |
| HintGenerator.EdgeDeductionAtColumn | src/nonogram/controller/HintGenerator.java:121-139 | one column of the edge search, the same way |
| HintGenerator.EdgeDeductionRows | src/nonogram/controller/HintGenerator.java:94-117 | the row loop returns the edge hint, or null when the answer is left to the columns |
| HintGenerator.EdgeDeductionColumns | src/nonogram/controller/HintGenerator.java:120-140 | the column loop returns the first column edge hint, or null iff there is none |
| HintGenerator.FindEdgeDeductionHint | src/nonogram/controller/HintGenerator.java:92-143 | null iff no line qualifies; otherwise a fresh hint equal to the specified edge hint |
| HintGenerator.OverlapAtRow | src/nonogram/controller/HintGenerator.java:151-172 | one row of the overlap search: the hint from this row, or null when the search moves on |
| HintGenerator.FindOverlapHint | src/nonogram/controller/HintGenerator.java:145-176 | null iff no row qualifies; otherwise a fresh hint equal to the specified overlap hint |
| HintGenerator.GenerateHint | src/nonogram/controller/HintGenerator.java:9-32 | null iff no strategy applies; otherwise a fresh hint equal to the first strategy's answer; it modifies nothing, so no cell changes |
| Puzzles.PaddedRow | src/nonogram/model/Puzzle.java:31-35 | a row copied into a block row of the given width: its own cells, then false |
| Puzzles.Padded | src/nonogram/model/Puzzle.java:30-38 | the copy as a value: one padded row per original row |
| Puzzles.PaddedRectangular | src/nonogram/model/Puzzle.java:30-38 | copying a rectangular grid to its own width gives it back element for element |
| Puzzles.RectangularNotOverlong | src/nonogram/model/Puzzle.java:30-38 | a rectangular grid never makes the copy write past a row |
| Puzzles.NewBlock | src/nonogram/model/Puzzle.java:31 | new boolean[rows][width]: fresh, pairwise distinct rows, all false |
| Puzzles.CopyRow | src/nonogram/model/Puzzle.java:33-35 | the inner copy loop succeeds iff the source row fits, and then copies it cell for cell |
| Puzzles.CopyArray | src/nonogram/model/Puzzle.java:30-38 | throws IndexOutOfBounds iff the grid is empty or a row is longer than the first; otherwise a fresh original.length x original[0].length block with fresh distinct rows holding the padded copy |
| Puzzles.Puzzle.Grid | src/nonogram/model/Puzzle.java:6 | the stored solution is a non-empty rectangular grid |
| Puzzles.Puzzle.Own | src/nonogram/model/Puzzle.java:8-12 | the puzzle owns the copy: id and name as given, storage = the copied outer array and its rows |
| Puzzles.Puzzle.GetSize | src/nonogram/model/Puzzle.java:26-28 | the number of rows, always positive |
| Puzzles.Puzzle.GetSolution | src/nonogram/model/Puzzle.java:22-24 | a fresh grid, with fresh distinct rows, equal element-wise to the stored one |
| Puzzles.NewPuzzle | src/nonogram/model/Puzzle.java:8-12 | fails like copyArray; otherwise a fresh puzzle with fresh storage holding the padded copy of the caller's grid, with id and name as given |
| Puzzles.CallerWriteAfterCopy | src/nonogram/model/Puzzle.java:8-12 | a write to the caller's array after construction leaves the puzzle's grid as it was |
| ArrayLists.FirstIndex | src/nonogram/datastructures/MyArrayList.java:83-90 | -1 iff the element is absent; otherwise the first index holding it |
| ArrayLists.Without | src/nonogram/datastructures/MyArrayList.java:50-58 | the list without element i, later elements moved one place left |
| ArrayLists.Inserted | src/nonogram/datastructures/MyArrayList.java:24-32 | the list with x at i, later elements moved one place right |
| ArrayLists.WithoutInserted | src/nonogram/datastructures/MyArrayList.java:24-58 | removing at the index just inserted at gives the list back |
| ArrayLists.WithoutFirst | src/nonogram/datastructures/MyArrayList.java:59-67 | removing the first occurrence takes exactly one copy of the element out |
| ArrayLists.MyArrayList.constructor | src/nonogram/datastructures/MyArrayList.java:11-18 | an empty list with the given positive capacity |
| ArrayLists.MyArrayList.Default | src/nonogram/datastructures/MyArrayList.java:8-10 | an empty list with capacity 10 |
| ArrayLists.MyArrayList.Create | src/nonogram/datastructures/MyArrayList.java:11-18 | IllegalArgument iff capacity <= 0; otherwise an empty list of that capacity |
| ArrayLists.MyArrayList.Size | src/nonogram/datastructures/MyArrayList.java:68-70 | the number of elements |
| ArrayLists.MyArrayList.IsEmpty | src/nonogram/datastructures/MyArrayList.java:71-73 | true iff there are no elements |
| ArrayLists.MyArrayList.EnsureCapacity | src/nonogram/datastructures/MyArrayList.java:91-98 | a full buffer doubles; the contents are preserved and there is room for one more |
| ArrayLists.MyArrayList.Add | src/nonogram/datastructures/MyArrayList.java:19-23 | appends the element, keeping the earlier ones, and answers true |
| ArrayLists.MyArrayList.Insert | src/nonogram/datastructures/MyArrayList.java:24-32 | IndexOutOfBounds and no change outside [0, size]; otherwise x at i with [i, size) shifted right |
| ArrayLists.MyArrayList.Get | src/nonogram/datastructures/MyArrayList.java:34-39 | element i for i in [0, size), IndexOutOfBounds otherwise |
| ArrayLists.MyArrayList.Set | src/nonogram/datastructures/MyArrayList.java:41-48 | returns the old element i and replaces only slot i; IndexOutOfBounds and no change outside [0, size) |
| ArrayLists.MyArrayList.RemoveAt | src/nonogram/datastructures/MyArrayList.java:50-58 | returns element i and shifts the tail left; IndexOutOfBounds and no change outside [0, size) |
| ArrayLists.MyArrayList.IndexOf | src/nonogram/datastructures/MyArrayList.java:83-90 | the first index holding the element, or -1 |
| ArrayLists.MyArrayList.Contains | src/nonogram/datastructures/MyArrayList.java:80-82 | true iff the element is in the list |
| ArrayLists.MyArrayList.Remove | src/nonogram/datastructures/MyArrayList.java:59-67 | true iff the element was present; then only its first occurrence is removed |
| ArrayLists.MyArrayList.Clear | src/nonogram/datastructures/MyArrayList.java:74-79 | the list becomes empty and the capacity stays |
| ArrayLists.InsertThenRemove | src/nonogram/datastructures/MyArrayList.java:24-58 | add(i, e) followed by remove(i) returns e and restores the list |
| LinkedLists.MyLinkedList.constructor | src/nonogram/datastructures/MyLinkedList.java:18-22 | a new list is empty with size 0 |
| LinkedLists.MyLinkedList.Add | src/nonogram/datastructures/MyLinkedList.java:24-33 | appends at the tail through a fresh node, keeping the earlier nodes |
| LinkedLists.MyLinkedList.Get | src/nonogram/datastructures/MyLinkedList.java:35-45 | the i-th added element for i in [0, size), IndexOutOfBounds otherwise |
| LinkedLists.MyLinkedList.Size | src/nonogram/datastructures/MyLinkedList.java:47-49 | the number of elements |
| LinkedLists.MyLinkedList.IsEmpty | src/nonogram/datastructures/MyLinkedList.java:51-53 | true iff there are no elements |
| Stacks.ChainCons | src/nonogram/datastructures/MyStack.java:22-27 | a new node linked in front of a chain is a chain of one more element |
| Stacks.ChainTail | src/nonogram/datastructures/MyStack.java:29-38 | the rest of a chain after its top node is a chain |
| Stacks.MyStack.constructor | src/nonogram/datastructures/MyStack.java:17-20 | a new stack is empty |
| Stacks.MyStack.Push | src/nonogram/datastructures/MyStack.java:22-27 | the element goes on top of the old contents |
| Stacks.MyStack.Pop | src/nonogram/datastructures/MyStack.java:29-38 | the top element, leaving the rest; Empty and no change on an empty stack |
| Stacks.MyStack.Peek | src/nonogram/datastructures/MyStack.java:40-45 | the top element without change; Empty iff the stack is empty |
| Stacks.MyStack.IsEmpty | src/nonogram/datastructures/MyStack.java:47-49 | true iff there are no elements, iff size is 0 |
| Stacks.MyStack.Size | src/nonogram/datastructures/MyStack.java:51-53 | the number of elements |
| Stacks.MyStack.Clear | src/nonogram/model/GameState.java:37 | the clear GameState calls: the stack becomes empty |
| Stacks.PushThenPop | src/nonogram/datastructures/MyStack.java:22-38 | push then pop returns the pushed element and restores the stack |
| Stacks.LastInFirstOut | src/nonogram/datastructures/MyStack.java:22-38 | two pushes then two pops return the elements in reverse order |
| Queues.MyQueue.constructor | src/nonogram/datastructures/MyQueue.java:18-22 | a new queue is empty |
| Queues.MyQueue.Enqueue | src/nonogram/datastructures/MyQueue.java:24-35 | appends at the rear through a fresh node and answers true |
| Queues.MyQueue.Dequeue | src/nonogram/datastructures/MyQueue.java:37-50 | the front element, leaving the rest; Empty on an empty queue; removing the last element nulls both front and rear |
| Queues.MyQueue.Peek | src/nonogram/datastructures/MyQueue.java:52-57 | the front element without change; Empty iff the queue is empty |
| Queues.MyQueue.IsEmpty | src/nonogram/datastructures/MyQueue.java:59-61 | true iff there are no elements, iff size is 0 |
| Queues.MyQueue.Size | src/nonogram/datastructures/MyQueue.java:63-65 | the number of elements |
| Queues.MyQueue.Clear | src/nonogram/datastructures/MyQueue.java:67-71 | the queue becomes empty with front and rear null |
| Queues.FirstInFirstOut | src/nonogram/datastructures/MyQueue.java:24-50 | on any queue, enqueuing x then y and draining it yields the old contents, then x, then y, leaving the queue empty |
| HashMaps.IndexAsWrittenNegative | src/nonogram/datastructures/MyHashMap.java:166-168 | getIndex as written yields -2 for a hash code of Integer.MIN_VALUE at capacity 3 |
| HashMaps.IndexAsWritten | src/nonogram/datastructures/MyHashMap.java:166-168 | getIndex as written: strictly between -capacity and capacity, and non-negative for every hash code other than Integer.MIN_VALUE |
| HashMaps.Index | src/nonogram/datastructures/MyHashMap.java:166-168 | the bucket index always lies in [0, capacity) and agrees with the code for every hash code except Integer.MIN_VALUE |
| HashMaps.Find | src/nonogram/datastructures/MyHashMap.java:67-82 | the chain walk finds nothing iff no entry of the chain has the key |
| HashMaps.FindAt | src/nonogram/datastructures/MyHashMap.java:74-79 | the walk returns the value of the first entry with the key |
| HashMaps.FindUpdated | src/nonogram/datastructures/MyHashMap.java:50-56 | overwriting one entry's value changes the walk's answer for that key only |
| HashMaps.FindRemoved | src/nonogram/datastructures/MyHashMap.java:92-100 | unlinking an entry makes its key absent and leaves other keys' answers unchanged |
| HashMaps.RemovedDistinct | src/nonogram/datastructures/MyHashMap.java:92-100 | unlinking an entry keeps a chain's keys distinct |
| HashMaps.FlattenMember | src/nonogram/datastructures/MyHashMap.java:142-152 | an entry is visited by the bucket-by-bucket walk iff it sits in some chain |
| HashMaps.FlattenDistinct | src/nonogram/datastructures/MyHashMap.java:142-152 | keys placed in their own buckets and distinct per chain are distinct over the whole walk |
| HashMaps.MapGet | src/nonogram/datastructures/MyHashMap.java:67-82 | a map's value for a key, or null exactly for absent keys |
| HashMaps.TableEmpty | src/nonogram/datastructures/MyHashMap.java:24-35 | empty buckets represent the empty map |
| HashMaps.EntryIsMapping | src/nonogram/datastructures/MyHashMap.java:113-125 | every entry of every chain is one of the mappings, sitting in its key's bucket |
| HashMaps.MappingIsEntry | src/nonogram/datastructures/MyHashMap.java:113-125 | every mapping is an entry of the chain in its key's bucket |
| HashMaps.TableUpdate | src/nonogram/datastructures/MyHashMap.java:50-56 | overwriting a present key's value in place represents the map with that one mapping updated |
| HashMaps.TablePrepend | src/nonogram/datastructures/MyHashMap.java:59-64 | a new entry at the head of its chain represents the map with that one mapping added |
| HashMaps.TableUnlink | src/nonogram/datastructures/MyHashMap.java:84-107 | unlinking an entry represents the map without that key |
| HashMaps.FlattenExactlyOnce | src/nonogram/datastructures/MyHashMap.java:142-164 | the entries keySet and values visit are exactly the mappings, each once, as many as there are mappings |
| HashMaps.FirstWith | src/nonogram/datastructures/MyHashMap.java:74-79 | a key the walk finds sits at a first position, whose value the walk returns |
| HashMaps.AppendKeys | src/nonogram/datastructures/MyHashMap.java:144-148 | one chain's keys appended head to tail |
| HashMaps.AppendValues | src/nonogram/datastructures/MyHashMap.java:156-160 | one chain's values appended head to tail |
| HashMaps.MyHashMap.constructor | src/nonogram/datastructures/MyHashMap.java:30-35 | an empty map with the given positive capacity |
| HashMaps.MyHashMap.Default | src/nonogram/datastructures/MyHashMap.java:24-28 | an empty map with 16 buckets |
| HashMaps.MyHashMap.Size | src/nonogram/datastructures/MyHashMap.java:127-129 | the number of mappings |
| HashMaps.MyHashMap.IsEmpty | src/nonogram/datastructures/MyHashMap.java:131-133 | true iff there are no mappings |
| HashMaps.MyHashMap.Put | src/nonogram/datastructures/MyHashMap.java:37-65 | a null key throws IllegalArgument; otherwise returns the old value (null for a new key) and maps the key to the value, size up by one exactly for a new key; capacity doubles iff the load check fires |
| HashMaps.MyHashMap.Resize | src/nonogram/datastructures/MyHashMap.java:171-185 | doubles the capacity into fresh buckets, keeping every mapping and the size |
| HashMaps.MyHashMap.Reinsert | src/nonogram/datastructures/MyHashMap.java:178-183 | putting back one old chain adds exactly that bucket's mappings, and its puts never resize |
| HashMaps.MyHashMap.Get | src/nonogram/datastructures/MyHashMap.java:67-82 | the key's value, or null for an absent or null key |
| HashMaps.MyHashMap.Remove | src/nonogram/datastructures/MyHashMap.java:84-107 | returns the key's value and drops the mapping, size down by one; an absent or null key returns null and changes nothing |
| HashMaps.MyHashMap.ContainsKey | src/nonogram/datastructures/MyHashMap.java:109-111 | true iff the key is non-null and mapped |
| HashMaps.MyHashMap.ContainsValue | src/nonogram/datastructures/MyHashMap.java:113-125 | true iff some key maps to the value |
| HashMaps.MyHashMap.Clear | src/nonogram/datastructures/MyHashMap.java:135-140 | no mappings and size 0, so every get returns null; the capacity stays |
| HashMaps.MyHashMap.KeySet | src/nonogram/datastructures/MyHashMap.java:142-152 | every key exactly once, bucket by bucket, as many keys as mappings |
| HashMaps.MyHashMap.Values | src/nonogram/datastructures/MyHashMap.java:154-164 | one value per mapping, in keySet's order, as many as mappings |

## Left out

- Wall-clock time is not modelled. System.currentTimeMillis for startTime and endTime becomes a `now` parameter. `getElapsedTime` is the unspecified `Game.GameState.ElapsedTime`. The Move timestamp is dropped.
- Hint message and type-name texts are kept as plain strings. No property is stated about their wording beyond `Hints.FullMessageParts`.
- GameBoard's `getRows`/`getCols` are the constant fields `rows`/`cols`. Cell's getters are its constant fields. Puzzle's `getPuzzleId`/`getName` are its constant fields `puzzleId`/`name`.
- The clue lists, MyLinkedList<MyLinkedList<Integer>> in the source, are `seq<seq<int>>` values. MyLinkedList is modelled on its own in `linked_list.dfy`.
- The Hint's affected-cell MyArrayList is a `seq<CellPosition>` field. MyArrayList is modelled on its own in `array_list.dfy`.
- GameState calls `cell.setCurrentState`, which Cell does not define. It is modelled as `Cell.setState`, through `Board.GameBoard.SetCellState`.
- GameState calls `MyStack.clear`, which MyStack does not define. It is modelled as emptying the stack (`Stacks.MyStack.Clear`).
- Java `null` elements in the containers are not modelled: lists, stacks, queues and map values hold non-null elements. So MyHashMap.containsKey is not modelled on a key mapped to `null`, where the source answers false.
- Board.GameBoard.constructor: requires at least one row and no row shorter than the first. On an empty grid Java throws ArrayIndexOutOfBounds at `solution[0]`, and on a shorter row at `solution[row][col]`; those failures are not modelled. The board is always built from a Puzzle's copy, which is non-empty and rectangular.
- HashMaps.MyHashMap.constructor: requires a positive capacity. MyHashMap(int) accepts any int and fails later: a negative array size, or a remainder by zero in getIndex.
- Key hash codes are an abstract function `hashCode: K -> Int32` fixed per map. Object.hashCode and Object.equals are value equality on `K`.
- The load factor test `size >= capacity * 0.75` is the integer test `4 * size >= 3 * capacity`.
- Integer overflow of sizes and capacities (int) is not modelled; they are unbounded. Position hashing is the exception: its 32-bit wrap-around is explicit in `Positions.HashCode`.
- MyHashMap's node chains are sequences of entries, head first. Relinking `prev.next` or the bucket head is one update of the bucket's sequence, so node identity and aliasing inside a chain are not modelled.
- Puzzles.CopyArray: a `null` grid or `null` row is not modelled.
- Some Java loops are split into helper methods, each proved against the same specification as the loop it carries:
  - HintGenerator: `CompleteLineAtRow`, `EdgeDeductionAtRow`, …
  - Puzzle: `NewBlock`, `CopyRow`
  - MyHashMap: `Reinsert`, `AppendKeys`, `AppendValues`
  - GameState: `SetAllUnknown`, `Reopen`
- The Swing view, GameController, PuzzleLoader, and CellState helpers the source does not define (`getNextState`, `getDisplaySymbol`) are not part of this model.

## Findings

| source | as written | input that shows it | evidently intended | confidence | as-written member | corrected member |
|---|---|---|---|---|---|---|
| src/nonogram/datastructures/MyHashMap.java:166-168 | `Math.abs(key.hashCode()) % capacity`: Math.abs(Integer.MIN_VALUE) is Integer.MIN_VALUE, so the index is negative | a key whose hashCode is Integer.MIN_VALUE, put into `new MyHashMap<>(3)`: index -2, and `buckets[-2]` throws | an index in [0, capacity) for every hash code | not executed | HashMaps.IndexAsWrittenNegative | HashMaps.Index |
