# Sudoku game core in Dafny

This project models the core of a Windows Forms Sudoku game.

- **Cells.** The board holds 81 cells. Each cell has a position, a solution digit (`RealValue`), the digit the player sees (`DisplayedValue`, possibly empty), a clue flag (`IsInitial`) and a set of pencil notes.
- **Generator.** A new game fills an empty 9×9 matrix by randomized backtracking (`Fill`, using `IsValid`), and copies it into the solution digits (`GenerateFullBoard`).
- **Masking.** `ApplyDifficulty` then reveals every cell as a clue and hides random cells until 40 (Easy), 32 (Medium) or 24 (Hard) clues remain.
- **Player input.** The player types digits, toggles notes with Ctrl+digit, and erases a cell with Backspace or Delete.
- **Window buttons.** The window offers New game, Check, Solve and Difficulty.

Modules, one per source file plus two helpers:

- `Options`: the `Option` datatype. It models C#'s `int?`.
- `Cells` (`Sudoku/Cell.cs`): the `Cell` class, and its field values as a `CellState` value.
- `SudokuRules`: the placement rules that `IsValid` and `Fill` rely on, stated over a grid value `seq<seq<int>>`.
  - `Allowed`: a digit is absent from the cell's row, column and box.
  - `Consistent`: no digit repeats in a row, column or box.
  - `Solved`: every entry is 1..9 and the grid is consistent.
  - `Keeps`: a grid keeps another's non-empty entries.
  - `Completes`: a grid keeps another's entries and fills all of its empty cells.
- `Boards` (`Sudoku/SudokuBoard.cs`): `Difficulty`, and the `SudokuBoard` class with its 9×9 `array2<Cell>`.
  - The generator and the check work in place on an `array2<int>`.
  - Each of those methods is proved against the grid value `GridOf(grid)`.
- `CellControls` (`Sudoku/UserControlCell.cs`): the state change made by the key handler.
  - The pure function `KeyEffect` describes it.
  - `UserControlCell.KeyDown` performs it field by field on the shared `Cell`.
- `Forms` (`Sudoku/SudokuForm.cs`): the window's state and its button handlers, plus the difficulty dialog.

Randomness becomes nondeterministic choice (`:|`). A property proved therefore holds for every outcome of the random number generator:

- `Fill`'s `OrderBy(rnd.Next())` is modelled by `Shuffle`, which may return any ordering of 1..9.
- `ApplyDifficulty`'s random draws are modelled as picks of any cell that is still visible.

## Model

| member | source | states |
|---|---|---|
| `Cells.Cell.constructor` | Sudoku/Cell.cs:14-19 | A new cell has the given row and column. Its solution digit is 0, it shows nothing, it is not a clue and it has no notes. |
| `Boards.OpenCount` | Sudoku/SudokuBoard.cs:73-76 | The number of clues for a difficulty (40, 32, 24) is strictly between 0 and 81. So masking always hides at least one cell and keeps at least one clue. |
| `Boards.Shuffle` | Sudoku/SudokuBoard.cs:38 | The random ordering of the candidate digits is a permutation of its input (the multisets are equal). |
| `Boards.DigitOrderEntries` | Sudoku/SudokuBoard.cs:38-39 | A permutation of 1..9 has exactly nine entries, each a digit 1..9. |
| `Boards.SudokuBoard.constructor` | Sudoku/SudokuBoard.cs:13-19 | A new board holds 81 new, distinct cells. The cell at [i, j] has row i and column j, and all other fields at their defaults. |
| `Boards.SudokuBoard.GenerateFullBoard` | Sudoku/SudokuBoard.cs:21-28 | Only the solution digits change, and they equal the generated grid cell by cell. If the generator succeeded, that grid is solved (every entry 1..9, no repeats in any row, column or box). If it failed, every solution digit is 0. |
| `Boards.SudokuBoard.CopyRealValues` | Sudoku/SudokuBoard.cs:25-27 | After the copy, every cell's solution digit equals the matrix entry at its position. No other field changes. |
| `Boards.SudokuBoard.Fill` | Sudoku/SudokuBoard.cs:30-53 | No non-empty entry is overwritten. On success, every previously empty entry holds a digit 1..9. On failure, the grid is exactly as it was. A grid without repeats keeps having none. Termination: the set of empty cells shrinks with each recursive call. |
| `Boards.SudokuBoard.FirstEmpty` | Sudoku/SudokuBoard.cs:32-37 | Finds the first zero entry in row-major order: it is zero and every earlier entry is non-zero. If it reports none, no entry is zero. |
| `Boards.WriteEntry` | Sudoku/SudokuBoard.cs:43-45 | Writing one matrix entry changes the grid value at that position only. |
| `Boards.SudokuBoard.IsValid` | Sudoku/SudokuBoard.cs:55-69 | The result is true iff `num` occurs nowhere in the row, the column or the 3×3 box of (row, col). The grid is only read. |
| `Boards.SudokuBoard.ApplyDifficulty` | Sudoku/SudokuBoard.cs:71-99 | Exactly 81 − OpenCount cells are hidden: they show nothing and are not clues. Every other cell is a clue showing its solution digit. The clue count is OpenCount(difficulty). Solution digits, notes and positions do not change. |
| `Boards.SudokuBoard.RevealAll` | Sudoku/SudokuBoard.cs:79-83 | Every cell becomes a clue showing its solution digit. Nothing else changes. |
| `Boards.SudokuBoard.HideAt` | Sudoku/SudokuBoard.cs:91-96 | The chosen cell shows nothing and stops being a clue. |
| `Boards.UnhiddenPosition` | Sudoku/SudokuBoard.cs:87-92 | While fewer than 81 cells are hidden, some cell is still visible, so a random draw can succeed. |
| `Boards.SudokuBoard.GivenPositionsOutsideHidden` | Sudoku/SudokuBoard.cs:86-98 | When exactly the cells outside `hidden` are clues, there are 81 − \|hidden\| clue positions, and they are the complement of `hidden`. |
| `SudokuRules.PlaceKeepsConsistent` | Sudoku/SudokuBoard.cs:41-43 | Writing a digit that `IsValid` accepted into an empty cell keeps a grid free of repeats. |
| `SudokuRules.PlaceShrinksZeros` | Sudoku/SudokuBoard.cs:43-44 | Writing a non-zero digit into an empty cell strictly shrinks the set of empty cells. This is the measure on which the recursion terminates. |
| `SudokuRules.CompletesAfterPlace` | Sudoku/SudokuBoard.cs:43-44 | Suppose a digit is written and the recursive call then completes the grid. That completion also completes the grid as it was before the write. |
| `SudokuRules.PlaceUndo` | Sudoku/SudokuBoard.cs:43-45 | Writing a digit into an empty cell and clearing it again gives back the original grid. |
| `SudokuRules.CompletedEmptyGridIsSolved` | Sudoku/SudokuBoard.cs:23-24 | A completion of the all-zero matrix that has no repeats is a solved grid. |
| `SudokuRules.SolvedUnitsHoldEveryDigit` | Sudoku/SudokuBoard.cs:30-53 | In a solved grid, every row, every column and every box contains each digit 1..9. This is the usual definition of a completed puzzle, proved by pigeonhole. |
| `CellControls.DigitOf` | Sudoku/UserControlCell.cs:100 | A digit key stands for a digit 1..9, and the key code is D0 plus that digit. |
| `CellControls.ToggleNote` | Sudoku/UserControlCell.cs:101-102 | The note is present afterwards iff it was absent before. Every other note is unchanged. |
| `CellControls.KeyEffect` | Sudoku/UserControlCell.cs:94-117 | A clue ignores every key. Otherwise: Ctrl+digit toggles that note and keeps the display. A digit alone shows the digit and clears the notes. Backspace or Delete empties the display and clears the notes. Any other key changes nothing. Position, solution digit and clue flag never change. |
| `CellControls.KeyEffectKeepsPlayerEntry` | Sudoku/UserControlCell.cs:98-114 | No key puts anything but an empty display or a digit 1..9 on screen. No key adds a note outside 1..9. |
| `CellControls.ToggleNoteTwice` | Sudoku/UserControlCell.cs:98-103 | Pressing the same Ctrl+digit twice restores the cell exactly. |
| `CellControls.EntryKeyIdempotent` | Sudoku/UserControlCell.cs:104-114 | Repeating a plain digit, Backspace, Delete or any other non-note key changes nothing more. |
| `CellControls.TypedDigitWins` | Sudoku/UserControlCell.cs:104-109 | On a non-clue cell, typing a digit gives the same cell whatever key was pressed before. |
| `CellControls.UserControlCell.constructor` | Sudoku/UserControlCell.cs:15-17 | The control wraps the given cell. |
| `CellControls.UserControlCell.KeyDown` | Sudoku/UserControlCell.cs:94-117 | The shared cell's new state is `KeyEffect` of its old state and the key. |
| `Forms.SolveCell` | Sudoku/SudokuForm.cs:185-190 | A solved cell is accepted by the check. A clue is unchanged. Position, solution digit and clue flag never change. |
| `Forms.SolveCellIdempotent` | Sudoku/SudokuForm.cs:181-194 | Solving twice is the same as solving once. |
| `Forms.CellCorrectIffSolveKeepsDisplay` | Sudoku/SudokuForm.cs:143-150 | The check accepts a cell iff solving it would not change its display. |
| `Forms.MaskedCorrectIffClue` | Sudoku/SudokuForm.cs:143-150 | Right after masking, the check accepts a cell iff it is a clue. |
| `Forms.ItemIndex` | Sudoku/SudokuForm.cs:213 | Each difficulty has an entry among the three in the dialog's list. |
| `Forms.DifficultyAt` | Sudoku/SudokuForm.cs:216-220 | Entry 0, 1 or 2 selects Easy, Medium or Hard. Any other index keeps the previous choice. |
| `Forms.DifficultyAtItemIndex` | Sudoku/SudokuForm.cs:213-220 | Selecting the entry of a difficulty chooses that difficulty. |
| `Forms.DifficultyDialog.constructor` | Sudoku/SudokuForm.cs:200-215 | The dialog opens with Medium chosen and no OK result. |
| `Forms.DifficultyDialog.SelectedIndexChanged` | Sudoku/SudokuForm.cs:216-223 | Picking an entry records `DifficultyAt(index, previous)` and closes the dialog with OK. |
| `Forms.CheckCells` | Sudoku/SudokuForm.cs:143-150 | Returns true iff every cell is a clue or shows its solution digit. The cells are only read. |
| `Forms.Sudoku.constructor` | Sudoku/SudokuForm.cs:15-23 | A new window has no game, the clock and the check counter at 0, and Medium as the difficulty. |
| `Forms.Sudoku.InitializeBoard` | Sudoku/SudokuForm.cs:24-28 | The window gets a fresh 81-cell board. Each cell holds the generated solution digit and shows it iff it is one of OpenCount(difficulty) clues. The check never accepts the new puzzle as it stands. |
| `Forms.Sudoku.NewGameClick` | Sudoku/SudokuForm.cs:160-166 | The clock and the check counter go back to 0. A new board is built for the last chosen difficulty, and the choice itself is unchanged. |
| `Forms.Sudoku.DifficultyClick` | Sudoku/SudokuForm.cs:170-179 | An OK from the dialog adopts its choice. Otherwise the previous choice is kept. |
| `Forms.Sudoku.CheckClick` | Sudoku/SudokuForm.cs:138-158 | The attempt counter grows by exactly 1. With a board, the result is whether every non-clue cell shows its solution digit, and no cell changes. Before the first game, the handler fails after counting. |
| `Forms.Sudoku.SolveClick` | Sudoku/SudokuForm.cs:181-194 | Every non-clue cell shows its solution digit with no notes, and clues are untouched. Afterwards the check accepts the board. Before the first game, the handler fails and nothing changes. |

## Left out

- **Rendering.** Not modelled: colours, repainting (`UpdateDisplay`), focus handling and group highlighting, the table layout, and the message boxes. They have no effect on game state.
- **Control grid.** The window's `UserControlCell` grid is not modelled separately. It wraps `board.Cells[i, j]` one to one, so the Check and Solve handlers walk the board's cells directly.
- **Clock.** The game clock (`Timer`, `StartTimer`, its one-second ticks) is outside the model. `timeElapsed` is kept only as a number of seconds that New game resets to 0.
- **Randomness.** The random number generator is replaced by nondeterministic choice, so no distribution is modelled.
- **Masking draws.** The masking loop's draws of cells that are already hidden change nothing in the source, and they are not modelled. Each modelled step picks a visible cell. This keeps the loop's termination provable, while the source only terminates with probability 1.
- **Generator success.** There is no proof that `Fill` succeeds on the empty grid, and none that the puzzle has a unique solution. The model states what holds in both outcomes.
- **First empty cell.** `Fill`'s scan for the first empty cell is factored into `FirstEmpty`. Its result is the same cell the source's nested loops stop at.
- **Row and column.** `Cell.Row` and `Cell.Col` have public setters in C#, but nothing assigns them after construction. They are modelled as constants.
- **Null board.** Before the first New game, the window's board and cell grid are null, and Check and Solve throw a null-reference exception. This is modelled as a failure result: Check has already counted the attempt, and Solve has changed nothing.
- `Forms.Sudoku.CheckClick`: `checkAttempts` is an unbounded integer, so the 32-bit overflow after 2^31 − 1 checks is not modelled.
- `Boards.SudokuBoard.GenerateFullBoard`: its results `filled` and `solution` are ghost values. The source ignores `Fill`'s result and keeps no copy of the matrix.
