/**
 * The key handling of one on-screen cell (Sudoku/UserControlCell.cs): what a
 * key press does to the cell it shows. Colours and repainting are not modelled.
 */
module CellControls {
  import opened Options
  import opened Cells

  /** Key codes of the Windows Forms `Keys` enumeration used by the cell. */
  const Back: int := 8
  const Delete: int := 46
  const D0: int := 48
  const D1: int := 49
  const D9: int := 57

  /** A key press: whether Ctrl was held, and the key code without modifiers. */
  datatype KeyEvent = KeyEvent(control: bool, keyCode: int)

  /** The key is one of the top-row digits 1..9. */
  predicate IsDigitKey(keyCode: int) {
    D1 <= keyCode <= D9
  }

  /** The digit a digit key stands for. */
  function DigitOf(keyCode: int): (d: int)
    requires IsDigitKey(keyCode)
    ensures 1 <= d <= 9
    ensures keyCode == D0 + d
  {
    keyCode - D0
  }

  /** Pencil notes with `note` added when it was absent and removed when it was present. */
  function ToggleNote(notes: set<int>, note: int): (r: set<int>)
    ensures note in r <==> note !in notes
    ensures forall n :: n != note ==> (n in r <==> n in notes)
  {
    if note in notes then notes - {note} else notes + {note}
  }

  /**
   * The cell after a key press. A clue ignores every key. On any other cell:
   * Ctrl with a digit toggles that pencil note; a digit alone shows the
   * digit and clears the notes; Backspace or Delete empties the cell and
   * clears the notes; any other key does nothing. Position, solution digit
   * and clue flag never change.
   */
  function KeyEffect(s: CellState, e: KeyEvent): (r: CellState)
    ensures r.row == s.row && r.col == s.col
    ensures r.realValue == s.realValue && r.isInitial == s.isInitial
    ensures s.isInitial ==> r == s
    ensures !s.isInitial && e.control && IsDigitKey(e.keyCode) ==>
      r.displayedValue == s.displayedValue && r.notes == ToggleNote(s.notes, DigitOf(e.keyCode))
    ensures !s.isInitial && !e.control && IsDigitKey(e.keyCode) ==>
      r.displayedValue == Some(DigitOf(e.keyCode)) && r.notes == {}
    ensures !s.isInitial && !IsDigitKey(e.keyCode) && (e.keyCode == Back || e.keyCode == Delete) ==>
      r.displayedValue == None && r.notes == {}
    ensures !IsDigitKey(e.keyCode) && e.keyCode != Back && e.keyCode != Delete ==> r == s
  {
    if s.isInitial then s
    else if e.control && IsDigitKey(e.keyCode) then
      s.(notes := ToggleNote(s.notes, DigitOf(e.keyCode)))
    else if IsDigitKey(e.keyCode) then
      s.(displayedValue := Some(DigitOf(e.keyCode)), notes := {})
    else if e.keyCode == Back || e.keyCode == Delete then
      s.(displayedValue := None, notes := {})
    else s
  }

  /** What the player can put in a cell: an empty or 1..9 display and notes among 1..9. */
  predicate PlayerEntry(s: CellState) {
    (s.displayedValue.None? || 1 <= s.displayedValue.value <= 9) &&
    forall n :: n in s.notes ==> 1 <= n <= 9
  }

  /** No key press puts anything but a digit 1..9 into a cell's display or notes. */
  lemma KeyEffectKeepsPlayerEntry(s: CellState, e: KeyEvent)
    requires PlayerEntry(s)
    ensures PlayerEntry(KeyEffect(s, e))
  {
    if !s.isInitial && e.control && IsDigitKey(e.keyCode) {
      var r := KeyEffect(s, e);
      forall n | n in r.notes
        ensures 1 <= n <= 9
      {
        if n != DigitOf(e.keyCode) {
          assert n in s.notes;
        }
      }
    }
  }

  /** Pressing the same Ctrl+digit twice leaves the cell as it was. */
  lemma ToggleNoteTwice(s: CellState, e: KeyEvent)
    requires e.control && IsDigitKey(e.keyCode)
    ensures KeyEffect(KeyEffect(s, e), e) == s
  {
    if !s.isInitial {
      var note := DigitOf(e.keyCode);
      var once := ToggleNote(s.notes, note);
      var twice := ToggleNote(once, note);
      assert twice == s.notes by {
        forall n ensures n in twice <==> n in s.notes {
          if n != note {
            assert n in twice <==> n in once;
          }
        }
      }
    }
  }

  /** Pressing the same key again after a digit, Backspace or Delete changes nothing more. */
  lemma EntryKeyIdempotent(s: CellState, e: KeyEvent)
    requires !e.control || !IsDigitKey(e.keyCode)
    ensures KeyEffect(KeyEffect(s, e), e) == KeyEffect(s, e)
  {
  }

  /** Whatever the key, an edited cell ends up showing the typed digit once the digit is typed. */
  lemma TypedDigitWins(s: CellState, e: KeyEvent, d: KeyEvent)
    requires !s.isInitial && !d.control && IsDigitKey(d.keyCode)
    ensures KeyEffect(KeyEffect(s, e), d) == KeyEffect(s, d)
  {
  }

  /** The control drawing one cell of the board. */
  class UserControlCell {
    const cell: Cell

    constructor (cell: Cell)
      ensures this.cell == cell
    {
      this.cell := cell;
    }

    /** Applies a key press to the cell, field by field as the handler does. */
    method KeyDown(e: KeyEvent)
      modifies cell
      ensures cell.State() == KeyEffect(old(cell.State()), e)
    {
      if cell.isInitial {
        return;
      }
      if e.control && D1 <= e.keyCode <= D9 {
        var note := e.keyCode - D0;
        if note in cell.notes {
          cell.notes := cell.notes - {note};
        } else {
          cell.notes := cell.notes + {note};
        }
      } else if D1 <= e.keyCode <= D9 {
        cell.displayedValue := Some(e.keyCode - D0);
        cell.notes := {};
      } else if e.keyCode == Back || e.keyCode == Delete {
        cell.displayedValue := None;
        cell.notes := {};
      }
    }
  }
}
