/**
 * The game window (Sudoku/SudokuForm.cs): starting a new game, checking the
 * player's answers, revealing the solution, and choosing the difficulty.
 * The window's grid of cell controls wraps board.cells one to one, so the
 * handlers below walk the board's cells directly; colours, message boxes and
 * the clock's ticking are not modelled.
 */
module Forms {
  import opened Options
  import opened Cells
  import opened SudokuRules
  import opened Boards

  /** A cell the check accepts: a clue, or a cell showing its solution digit. */
  predicate CellCorrect(s: CellState) {
    s.isInitial || s.displayedValue == Some(s.realValue)
  }

  /** Every cell of the board is accepted by the check. */
  ghost predicate AllCorrect(b: SudokuBoard)
    requires b.Valid()
    reads b.cells, b.Objects()
  {
    forall a, c :: 0 <= a < 9 && 0 <= c < 9 ==> CellCorrect(b.cells[a, c].State())
  }

  /** A cell after "Solve": a non-clue shows its solution digit and loses its notes. */
  function SolveCell(s: CellState): (r: CellState)
    ensures CellCorrect(r)
    ensures s.isInitial ==> r == s
    ensures r.row == s.row && r.col == s.col && r.realValue == s.realValue && r.isInitial == s.isInitial
  {
    if s.isInitial then s else s.(displayedValue := Some(s.realValue), notes := {})
  }

  /** Solving a solved cell changes nothing. */
  lemma SolveCellIdempotent(s: CellState)
    ensures SolveCell(SolveCell(s)) == SolveCell(s)
  {
  }

  /** The check accepts a cell exactly when solving it would leave its display alone. */
  lemma CellCorrectIffSolveKeepsDisplay(s: CellState)
    ensures CellCorrect(s) <==> SolveCell(s).displayedValue == s.displayedValue
  {
  }

  /** A masked cell is accepted by the check exactly when it is a clue. */
  lemma MaskedCorrectIffClue(s: CellState, hidden: set<(int, int)>)
    ensures CellCorrect(Masked(s, hidden)) <==> (s.row, s.col) !in hidden
  {
  }

  /** The combo box entry of a difficulty: Easy, Medium, Hard in that order. */
  function ItemIndex(d: Difficulty): (i: int)
    ensures 0 <= i < 3
  {
    match d
    case Easy => 0
    case Medium => 1
    case Hard => 2
  }

  /** The difficulty chosen by selecting entry `index`; any other index keeps `current`. */
  function DifficultyAt(index: int, current: Difficulty): (d: Difficulty)
    ensures index == 0 ==> d == Easy
    ensures index == 1 ==> d == Medium
    ensures index == 2 ==> d == Hard
    ensures !(0 <= index < 3) ==> d == current
  {
    if index == 0 then Easy
    else if index == 1 then Medium
    else if index == 2 then Hard
    else current
  }

  /** Selecting the entry of a difficulty chooses that difficulty. */
  lemma DifficultyAtItemIndex(d: Difficulty, current: Difficulty)
    ensures DifficultyAt(ItemIndex(d), current) == d
  {
  }

  /** The dialog that asks for a difficulty. */
  class DifficultyDialog {
    var selectedDifficulty: Difficulty
    /** Whether the dialog was closed with an OK result. */
    var dialogResultOk: bool

    /** The dialog opens with Medium chosen and no result yet. */
    constructor ()
      ensures selectedDifficulty == Medium && !dialogResultOk
    {
      selectedDifficulty := Medium;
      dialogResultOk := false;
    }

    /** The player picks entry `index`: the choice is recorded and the dialog closes with OK. */
    method SelectedIndexChanged(index: int)
      modifies this
      ensures selectedDifficulty == DifficultyAt(index, old(selectedDifficulty))
      ensures dialogResultOk
    {
      if index == 0 {
        selectedDifficulty := Easy;
      } else if index == 1 {
        selectedDifficulty := Medium;
      } else if index == 2 {
        selectedDifficulty := Hard;
      }
      dialogResultOk := true;
    }
  }

  /**
   * Walks every cell and reports whether the check accepts all of them; the
   * cells are only read.
   */
  method CheckCells(b: SudokuBoard) returns (isCorrect: bool)
    requires b.Valid()
    ensures isCorrect == AllCorrect(b)
  {
    isCorrect := true;
    for i := 0 to 9
      invariant isCorrect <==> forall a, c :: 0 <= a < i && 0 <= c < 9 ==> CellCorrect(b.cells[a, c].State())
    {
      for j := 0 to 9
        invariant isCorrect <==>
          (forall a, c :: 0 <= a < i && 0 <= c < 9 ==> CellCorrect(b.cells[a, c].State())) &&
          (forall c :: 0 <= c < j ==> CellCorrect(b.cells[i, c].State()))
      {
        var cell := b.cells[i, j];
        if !cell.isInitial && (cell.displayedValue == None || cell.displayedValue != Some(cell.realValue)) {
          isCorrect := false;
        }
      }
    }
  }

  /** The game window's state. */
  class Sudoku {
    /** The current game; there is none before the first "New game". */
    var board: SudokuBoard?
    /** Seconds on the game clock. */
    var timeElapsed: int
    var checkAttempts: int
    var lastSelectedDifficulty: Difficulty

    /** A new window: no game yet, clock and counter at zero, Medium difficulty. */
    constructor ()
      ensures board == null && timeElapsed == 0 && checkAttempts == 0
      ensures lastSelectedDifficulty == Medium
    {
      board := null;
      timeElapsed := 0;
      checkAttempts := 0;
      lastSelectedDifficulty := Medium;
    }

    /**
     * Replaces the game by a new board: generated, then masked for
     * `difficulty`. Each cell holds its digit of `solution` and is a clue
     * exactly when its position is not in `hidden`; the new puzzle is never
     * already accepted by the check.
     */
    method InitializeBoard(difficulty: Difficulty)
      returns (ghost filled: bool, ghost solution: seq<seq<int>>, ghost hidden: set<(int, int)>)
      modifies this`board
      ensures board != null && fresh(board) && fresh(board.cells) && fresh(board.Objects()) && board.Valid()
      ensures IsGrid(solution) && (filled ==> Solved(solution)) && (!filled ==> solution == EmptyGrid())
      ensures hidden <= Positions() && |hidden| == 81 - OpenCount(difficulty)
      ensures forall a, c :: 0 <= a < 9 && 0 <= c < 9 ==>
        board.cells[a, c].State() == Masked(CellState(a, c, solution[a][c], None, false, {}), hidden)
      ensures |board.GivenPositions()| == OpenCount(difficulty)
      ensures !AllCorrect(board)
    {
      var b := new SudokuBoard();
      board := b;
      filled, solution := b.GenerateFullBoard();
      assert forall a, c :: 0 <= a < 9 && 0 <= c < 9 ==>
        b.cells[a, c].State() == CellState(a, c, solution[a][c], None, false, {});
      hidden := b.ApplyDifficulty(difficulty);
      ghost var r, c := HiddenPosition(hidden);
      MaskedCorrectIffClue(b.cells[r, c].State(), hidden);
    }

    /** "New game": the clock and the check counter restart and a game of the chosen difficulty begins. */
    method NewGameClick()
      returns (ghost filled: bool, ghost solution: seq<seq<int>>, ghost hidden: set<(int, int)>)
      modifies this`board, this`timeElapsed, this`checkAttempts
      ensures timeElapsed == 0 && checkAttempts == 0
      ensures board != null && fresh(board) && fresh(board.cells) && fresh(board.Objects()) && board.Valid()
      ensures IsGrid(solution) && (filled ==> Solved(solution)) && (!filled ==> solution == EmptyGrid())
      ensures hidden <= Positions() && |hidden| == 81 - OpenCount(lastSelectedDifficulty)
      ensures forall a, c :: 0 <= a < 9 && 0 <= c < 9 ==>
        board.cells[a, c].State() == Masked(CellState(a, c, solution[a][c], None, false, {}), hidden)
      ensures |board.GivenPositions()| == OpenCount(lastSelectedDifficulty)
    {
      timeElapsed := 0;
      checkAttempts := 0;
      filled, solution, hidden := InitializeBoard(lastSelectedDifficulty);
    }

    /** "Difficulty": an OK from the dialog adopts its choice for the next game; otherwise nothing changes. */
    method DifficultyClick(dlg: DifficultyDialog)
      modifies this`lastSelectedDifficulty
      ensures lastSelectedDifficulty == if dlg.dialogResultOk then dlg.selectedDifficulty else old(lastSelectedDifficulty)
    {
      if dlg.dialogResultOk {
        lastSelectedDifficulty := dlg.selectedDifficulty;
      }
    }

    /**
     * "Check": counts the attempt, then reports whether every cell is
     * accepted (Some(true) or Some(false)). Before the first game there are
     * no cells and the handler fails after counting (None). No cell changes.
     */
    method CheckClick() returns (result: Option<bool>)
      requires board != null ==> board.Valid()
      modifies this`checkAttempts
      ensures checkAttempts == old(checkAttempts) + 1
      ensures board == null ==> result == None
      ensures board != null ==> result == Some(AllCorrect(board))
    {
      checkAttempts := checkAttempts + 1;
      if board == null {
        return None;
      }
      var isCorrect := CheckCells(board);
      return Some(isCorrect);
    }

    /**
     * "Solve": every non-clue cell shows its solution digit and loses its
     * notes, after which the check accepts the board. Before the first game
     * the handler fails and nothing changes (`failed`).
     */
    method SolveClick() returns (failed: bool)
      requires board != null ==> board.Valid()
      modifies if board == null then {} else board.Objects()
      ensures failed == (board == null)
      ensures board != null ==> forall a, c :: 0 <= a < 9 && 0 <= c < 9 ==>
        board.cells[a, c].State() == SolveCell(old(board.cells[a, c].State()))
      ensures board != null ==> AllCorrect(board)
    {
      if board == null {
        return true;
      }
      var b := board;
      for i := 0 to 9
        modifies b.Objects()
        invariant forall a, c :: 0 <= a < i && 0 <= c < 9 ==> b.cells[a, c].State() == SolveCell(old(b.cells[a, c].State()))
        invariant forall a, c :: i <= a < 9 && 0 <= c < 9 ==> b.cells[a, c].State() == old(b.cells[a, c].State())
      {
        for j := 0 to 9
          modifies b.Objects()
          invariant forall a, c :: (0 <= a < i || (a == i && c < j)) && 0 <= c < 9 ==>
            b.cells[a, c].State() == SolveCell(old(b.cells[a, c].State()))
          invariant forall a, c :: ((i < a < 9 && 0 <= c < 9) || (a == i && j <= c < 9)) ==>
            b.cells[a, c].State() == old(b.cells[a, c].State())
        {
          var cell := b.cells[i, j];
          if !cell.isInitial {
            cell.displayedValue := Some(cell.realValue);
            cell.notes := {};
          }
        }
      }
      return false;
    }
  }
}
