/**
 * One of the 81 positions of the board (Sudoku/Cell.cs): its position, the
 * solution digit, the digit the player currently sees (or none), whether it
 * is a fixed clue, and the player's pencil notes.
 */
module Cells {
  import opened Options

  /** The value of every field of a cell at one moment. */
  datatype CellState = CellState(
    row: int,
    col: int,
    realValue: int,
    displayedValue: Option<int>,
    isInitial: bool,
    notes: set<int>)

  /** The state of a cell just after `new Cell(row, col)`: all other fields at their defaults. */
  function FreshCell(row: int, col: int): CellState {
    CellState(row, col, 0, None, false, {})
  }

  class Cell {
    // Row and Col are never reassigned after construction.
    const row: int
    const col: int
    var realValue: int
    var displayedValue: Option<int>
    var isInitial: bool
    var notes: set<int>

    constructor (row: int, col: int)
      ensures State() == FreshCell(row, col)
    {
      this.row := row;
      this.col := col;
      realValue := 0;
      displayedValue := None;
      isInitial := false;
      notes := {};
    }

    function State(): CellState
      reads this
    {
      CellState(row, col, realValue, displayedValue, isInitial, notes)
    }
  }
}
