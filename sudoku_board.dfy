/**
 * The board engine (Sudoku/SudokuBoard.cs): the 81 cells, the randomized
 * backtracking generator of a full grid, the placement check it uses, and the
 * difficulty masking that turns a solved board into a puzzle.
 */
module Boards {
  import opened Options
  import opened Cells
  import opened SudokuRules

  datatype Difficulty = Easy | Medium | Hard

  /** The number of cells left visible for a difficulty. */
  function OpenCount(difficulty: Difficulty): (n: int)
    ensures 0 < n < 81
  {
    if difficulty == Easy then 40
    else if difficulty == Medium then 32
    else 24
  }

  /** The entries of a two-dimensional array as a grid value, indexed [row][col]. */
  ghost function GridOf(a: array2<int>): (g: seq<seq<int>>)
    reads a
    ensures |g| == a.Length0
    ensures forall i :: 0 <= i < a.Length0 ==> |g[i]| == a.Length1
    ensures forall i, j :: 0 <= i < a.Length0 && 0 <= j < a.Length1 ==> g[i][j] == a[i, j]
  {
    seq(a.Length0, i requires 0 <= i < a.Length0 reads a =>
      seq(a.Length1, j requires 0 <= j < a.Length1 reads a => a[i, j]))
  }

  /** The digits 1..9 in increasing order. */
  const Digits: seq<int> := [1, 2, 3, 4, 5, 6, 7, 8, 9]

  /** `nums` is a permutation of the digits 1..9. */
  ghost predicate IsDigitOrder(nums: seq<int>) {
    multiset(nums) == multiset(Digits)
  }

  /** A permutation of 1..9 has nine entries, each a digit 1..9. */
  lemma DigitOrderEntries(nums: seq<int>)
    requires IsDigitOrder(nums)
    ensures |nums| == 9 && forall k :: 0 <= k < |nums| ==> 1 <= nums[k] <= 9
  {
    assert |multiset(Digits)| == |Digits|;
    forall k | 0 <= k < |nums|
      ensures 1 <= nums[k] <= 9
    {
      assert nums[k] in multiset(nums);
      assert nums[k] in Digits;
    }
  }

  /** Taking the k-th element out of a sequence removes just that element from its multiset. */
  lemma TakeAt(s: seq<int>, k: int)
    requires 0 <= k < |s|
    ensures multiset(s) == multiset(s[..k] + s[k + 1..]) + multiset{s[k]}
  {
    assert s == s[..k] + [s[k]] + s[k + 1..];
  }

  /**
   * The entries of `items` in an arbitrary order, standing for the source's
   * sort by random keys: each step moves any one of the entries not yet
   * taken to the end of the result.
   */
  method Shuffle(items: seq<int>) returns (shuffled: seq<int>)
    ensures multiset(shuffled) == multiset(items)
  {
    var rest := items;
    shuffled := [];
    while rest != []
      invariant multiset(shuffled) + multiset(rest) == multiset(items)
    {
      var k :| 0 <= k < |rest|;
      TakeAt(rest, k);
      shuffled := shuffled + [rest[k]];
      rest := rest[..k] + rest[k + 1..];
    }
  }

  /* ---------------------------------------------------------------------- */
  /* Positions and the masking of a cell.                                   */

  /** The 81 positions of the board. */
  ghost function Positions(): set<(int, int)> {
    set r, c | 0 <= r < 9 && 0 <= c < 9 :: (r, c)
  }

  /** A clue: the cell shows its solution digit and cannot be edited. */
  function Reveal(s: CellState): CellState {
    s.(displayedValue := Some(s.realValue), isInitial := true)
  }

  /** A hidden cell: it shows nothing and the player may fill it. */
  function Hide(s: CellState): CellState {
    s.(displayedValue := None, isInitial := false)
  }

  /** A cell after masking: hidden when its position is in `hidden`, a clue otherwise. */
  function Masked(s: CellState, hidden: set<(int, int)>): CellState {
    if (s.row, s.col) in hidden then Hide(s) else Reveal(s)
  }

  /** The first n positions of row r. */
  ghost function RowPrefix(r: int, n: int): set<(int, int)> {
    set c | 0 <= c < n :: (r, c)
  }

  /** The positions of the first n rows. */
  ghost function RowsPrefix(n: int): set<(int, int)> {
    set r, c | 0 <= r < n && 0 <= c < 9 :: (r, c)
  }

  lemma {:induction false} RowPrefixCount(r: int, n: nat)
    ensures |RowPrefix(r, n)| == n
  {
    if n > 0 {
      RowPrefixCount(r, n - 1);
      assert RowPrefix(r, n) == RowPrefix(r, n - 1) + {(r, n - 1)};
    }
  }

  lemma {:induction false} RowsCount(n: nat)
    ensures |RowsPrefix(n)| == 9 * n
  {
    if n > 0 {
      RowsCount(n - 1);
      RowPrefixCount(n - 1, 9);
      assert RowsPrefix(n) == RowsPrefix(n - 1) + RowPrefix(n - 1, 9);
      assert RowsPrefix(n - 1) * RowPrefix(n - 1, 9) == {};
    }
  }

  /** The board has 81 positions. */
  lemma PositionsCount()
    ensures |Positions()| == 81
  {
    RowsCount(9);
    assert RowsPrefix(9) == Positions();
  }

  /** Hiding k of the 81 positions leaves 81 - k others. */
  lemma UnhiddenCount(hidden: set<(int, int)>)
    requires hidden <= Positions()
    ensures |Positions() - hidden| == 81 - |hidden|
  {
    PositionsCount();
    assert Positions() == (Positions() - hidden) + hidden;
  }

  /** While fewer than 81 positions are hidden, some position is not. */
  lemma {:induction false} UnhiddenPosition(hidden: set<(int, int)>) returns (r: int, c: int)
    requires hidden <= Positions() && |hidden| < 81
    ensures 0 <= r < 9 && 0 <= c < 9 && (r, c) !in hidden
  {
    PositionsCount();
    var outside := Positions() - hidden;
    assert Positions() == outside + hidden;
    assert |outside| > 0;
    if forall p :: p !in outside {
      assert false;
    }
    var p :| p in outside;
    r, c := p.0, p.1;
  }

  /** A non-empty set of hidden positions has a member on the board. */
  lemma {:induction false} HiddenPosition(hidden: set<(int, int)>) returns (r: int, c: int)
    requires hidden <= Positions() && |hidden| > 0
    ensures 0 <= r < 9 && 0 <= c < 9 && (r, c) in hidden
  {
    if forall p :: p !in hidden {
      assert false;
    }
    var p :| p in hidden;
    r, c := p.0, p.1;
  }

  /** Writes one entry of a 9×9 matrix; its grid value changes at that position only. */
  method WriteEntry(grid: array2<int>, i: int, j: int, v: int)
    requires grid.Length0 == 9 && grid.Length1 == 9 && 0 <= i < 9 && 0 <= j < 9
    modifies grid
    ensures GridOf(grid) == Place(old(GridOf(grid)), i, j, v)
  {
    grid[i, j] := v;
    GridExtensionality(GridOf(grid), Place(old(GridOf(grid)), i, j, v));
  }

  class SudokuBoard {
    const cells: array2<Cell>

    /** 9×9 cells, the cell at [i, j] being the one for row i and column j. */
    ghost predicate Valid()
      reads cells
    {
      cells.Length0 == 9 && cells.Length1 == 9 &&
      forall i, j :: 0 <= i < 9 && 0 <= j < 9 ==> cells[i, j].row == i && cells[i, j].col == j
    }

    /** The cell objects of the board. */
    ghost function Objects(): set<Cell>
      reads cells
    {
      set i, j | 0 <= i < cells.Length0 && 0 <= j < cells.Length1 :: cells[i, j]
    }

    /** The positions of the clue cells. */
    ghost function GivenPositions(): set<(int, int)>
      requires Valid()
      reads cells, Objects()
    {
      set a, b | 0 <= a < 9 && 0 <= b < 9 && cells[a, b].isInitial :: (a, b)
    }

    /** A new board holds 81 fresh cells, each at its own position with default fields. */
    constructor ()
      ensures Valid() && fresh(cells) && fresh(Objects())
      ensures forall i, j :: 0 <= i < 9 && 0 <= j < 9 ==> cells[i, j].State() == FreshCell(i, j)
    {
      var first := new Cell(0, 0);
      var grid := new Cell[9, 9]((_, _) => first);
      for i := 0 to 9
        invariant forall a, b :: 0 <= a < i && 0 <= b < 9 ==>
          fresh(grid[a, b]) && grid[a, b].State() == FreshCell(a, b)
      {
        for j := 0 to 9
          invariant forall a, b :: 0 <= a < i && 0 <= b < 9 ==>
            fresh(grid[a, b]) && grid[a, b].State() == FreshCell(a, b)
          invariant forall b :: 0 <= b < j ==>
            fresh(grid[i, b]) && grid[i, b].State() == FreshCell(i, b)
        {
          grid[i, j] := new Cell(i, j);
        }
      }
      cells := grid;
    }

    /**
     * Runs the generator on an all-zero 9×9 matrix and copies the matrix into
     * every cell's solution digit, leaving the other fields alone. The
     * generator's result is ignored: when it succeeds the solution digits
     * form a solved grid; when it fails they are all 0.
     */
    method GenerateFullBoard() returns (ghost filled: bool, ghost solution: seq<seq<int>>)
      requires Valid()
      modifies Objects()`realValue
      ensures IsGrid(solution)
      ensures forall i, j :: 0 <= i < 9 && 0 <= j < 9 ==> cells[i, j].realValue == solution[i][j]
      ensures filled ==> Solved(solution)
      ensures !filled ==> solution == EmptyGrid()
    {
      var matrix := new int[9, 9]((_, _) => 0);
      GridExtensionality(GridOf(matrix), EmptyGrid());
      filled := Fill(matrix);
      solution := GridOf(matrix);
      if filled {
        CompletedEmptyGridIsSolved(solution);
      }
      CopyRealValues(matrix);
    }

    /** Copies a 9×9 matrix into the solution digits of the cells. */
    method CopyRealValues(matrix: array2<int>)
      requires Valid() && matrix.Length0 == 9 && matrix.Length1 == 9
      modifies Objects()`realValue
      ensures forall i, j :: 0 <= i < 9 && 0 <= j < 9 ==> cells[i, j].realValue == matrix[i, j]
    {
      for i := 0 to 9
        modifies Objects()`realValue
        invariant forall a, b :: 0 <= a < i && 0 <= b < 9 ==> cells[a, b].realValue == matrix[a, b]
      {
        for j := 0 to 9
          modifies Objects()`realValue
          invariant forall a, b :: 0 <= a < i && 0 <= b < 9 ==> cells[a, b].realValue == matrix[a, b]
          invariant forall b :: 0 <= b < j ==> cells[i, b].realValue == matrix[i, b]
        {
          cells[i, j].realValue := matrix[i, j];
        }
      }
    }

    /**
     * Turns the solved board into a puzzle: every cell first shows its
     * solution digit as a clue, then cells are hidden one at a time until
     * 81 - OpenCount(difficulty) of them are hidden. Solution digits, notes
     * and positions are left alone.
     */
    method ApplyDifficulty(difficulty: Difficulty) returns (ghost hidden: set<(int, int)>)
      requires Valid()
      modifies Objects()`displayedValue, Objects()`isInitial
      ensures hidden <= Positions() && |hidden| == 81 - OpenCount(difficulty)
      ensures forall a, b :: 0 <= a < 9 && 0 <= b < 9 ==>
        cells[a, b].State() == Masked(old(cells[a, b].State()), hidden)
      ensures GivenPositions() == Positions() - hidden
      ensures |GivenPositions()| == OpenCount(difficulty)
    {
      var openCount := OpenCount(difficulty);
      RevealAll();

      hidden := {};
      var totalToRemove := 81 - openCount;
      while totalToRemove > 0
        modifies Objects()`displayedValue, Objects()`isInitial
        invariant 0 <= totalToRemove && |hidden| + totalToRemove == 81 - openCount
        invariant hidden <= Positions()
        invariant forall a, b :: 0 <= a < 9 && 0 <= b < 9 ==>
          cells[a, b].State() == Masked(old(cells[a, b].State()), hidden)
        decreases totalToRemove
      {
        ghost var r0, c0 := UnhiddenPosition(hidden);
        assert cells[r0, c0].displayedValue != None;
        var row, col :| 0 <= row < 9 && 0 <= col < 9 && cells[row, col].displayedValue != None;
        assert (row, col) in Positions() - hidden;
        HideAt(row, col);
        hidden := hidden + {(row, col)};
        totalToRemove := totalToRemove - 1;
      }
      GivenPositionsOutsideHidden(hidden);
    }

    /** When exactly the cells outside `hidden` are clues, the clue positions are the complement of `hidden`. */
    lemma GivenPositionsOutsideHidden(hidden: set<(int, int)>)
      requires Valid() && hidden <= Positions()
      requires forall a, b :: 0 <= a < 9 && 0 <= b < 9 ==> (cells[a, b].isInitial <==> (a, b) !in hidden)
      ensures GivenPositions() == Positions() - hidden
      ensures |GivenPositions()| == 81 - |hidden|
    {
      forall p | p in Positions() - hidden
        ensures p in GivenPositions()
      {
        assert cells[p.0, p.1].isInitial;
      }
      UnhiddenCount(hidden);
    }

    /** Hides the cell at (row, col): it shows nothing and is no longer a clue. */
    method HideAt(row: int, col: int)
      requires Valid() && 0 <= row < 9 && 0 <= col < 9
      modifies cells[row, col]`displayedValue, cells[row, col]`isInitial
      ensures cells[row, col].State() == Hide(old(cells[row, col].State()))
    {
      var cell := cells[row, col];
      cell.displayedValue := None;
      cell.isInitial := false;
    }

    /** Makes every cell a clue showing its solution digit. */
    method RevealAll()
      requires Valid()
      modifies Objects()`displayedValue, Objects()`isInitial
      ensures forall a, b :: 0 <= a < 9 && 0 <= b < 9 ==> cells[a, b].State() == Reveal(old(cells[a, b].State()))
    {
      for i := 0 to 9
        modifies Objects()`displayedValue, Objects()`isInitial
        invariant forall a, b :: 0 <= a < i && 0 <= b < 9 ==> cells[a, b].State() == Reveal(old(cells[a, b].State()))
        invariant forall a, b :: i <= a < 9 && 0 <= b < 9 ==> cells[a, b].State() == old(cells[a, b].State())
      {
        for j := 0 to 9
          modifies Objects()`displayedValue, Objects()`isInitial
          invariant forall a, b :: (0 <= a < i || (a == i && b < j)) && 0 <= b < 9 ==>
            cells[a, b].State() == Reveal(old(cells[a, b].State()))
          invariant forall a, b :: ((i < a < 9 && 0 <= b < 9) || (a == i && j <= b < 9)) ==>
            cells[a, b].State() == old(cells[a, b].State())
        {
          var cell := cells[i, j];
          cell.displayedValue := Some(cell.realValue);
          cell.isInitial := true;
        }
      }
    }

    /**
     * Whether `num` may be written at (row, col): it is absent from that row,
     * that column and that 3×3 box; the grid is only read.
     */
    method IsValid(grid: array2<int>, row: int, col: int, num: int) returns (valid: bool)
      requires grid.Length0 == 9 && grid.Length1 == 9
      requires 0 <= row < 9 && 0 <= col < 9
      ensures valid == Allowed(GridOf(grid), row, col, num)
    {
      for i := 0 to 9
        invariant forall k :: 0 <= k < i ==> grid[row, k] != num && grid[k, col] != num
      {
        if grid[row, i] == num || grid[i, col] == num {
          assert GridOf(grid)[row][i] == grid[row, i] && GridOf(grid)[i][col] == grid[i, col];
          assert SameUnit(row, col, row, i) && SameUnit(row, col, i, col);
          return false;
        }
      }
      var boxRow := (row / 3) * 3;
      var boxCol := (col / 3) * 3;
      for i := 0 to 3
        invariant forall r, c :: boxRow <= r < boxRow + i && boxCol <= c < boxCol + 3 ==> grid[r, c] != num
      {
        var r := boxRow + i;
        for j := 0 to 3
          invariant forall r, c :: boxRow <= r < boxRow + i && boxCol <= c < boxCol + 3 ==> grid[r, c] != num
          invariant forall c :: boxCol <= c < boxCol + j ==> grid[r, c] != num
        {
          if grid[boxRow + i, boxCol + j] == num {
            assert GridOf(grid)[boxRow + i][boxCol + j] == num;
            assert SameUnit(row, col, boxRow + i, boxCol + j);
            return false;
          }
        }
      }
      return true;
    }

    /**
     * Backtracking search: finds the first empty cell in row-major order,
     * tries the digits 1..9 in a shuffled order, writes each allowed one,
     * recurses, and clears the cell again when the recursion fails.
     * It never overwrites a non-empty entry; on success every empty cell
     * holds a digit 1..9; on failure the grid is exactly as it was; and a
     * grid without repeated digits keeps that property.
     */
    method Fill(grid: array2<int>) returns (ok: bool)
      requires grid.Length0 == 9 && grid.Length1 == 9
      modifies grid
      ensures Keeps(old(GridOf(grid)), GridOf(grid))
      ensures ok ==> Completes(old(GridOf(grid)), GridOf(grid))
      ensures !ok ==> GridOf(grid) == old(GridOf(grid))
      ensures Consistent(old(GridOf(grid))) ==> Consistent(GridOf(grid))
      decreases Zeros(GridOf(grid))
    {
      ghost var start := GridOf(grid);
      var found, i, j := FirstEmpty(grid);
      if !found {
        return true;
      }
      var nums := Shuffle(Digits);
      DigitOrderEntries(nums);
      for k := 0 to |nums|
        invariant GridOf(grid) == start
      {
        var num := nums[k];
        var valid := IsValid(grid, i, j, num);
        if valid {
          WriteEntry(grid, i, j, num);
          PlaceShrinksZeros(start, i, j, num);
          PlaceKeepsConsistent(start, i, j, num);
          ok := Fill(grid);
          if ok {
            CompletesAfterPlace(start, i, j, num, GridOf(grid));
            return;
          }
          WriteEntry(grid, i, j, 0);
          PlaceUndo(start, i, j, num);
        }
      }
      return false;
    }

    /** The first empty cell in row-major order, if any. */
    method FirstEmpty(grid: array2<int>) returns (found: bool, row: int, col: int)
      requires grid.Length0 == 9 && grid.Length1 == 9
      ensures found ==> 0 <= row < 9 && 0 <= col < 9 && grid[row, col] == 0
      ensures found ==> forall r, c :: 0 <= r < 9 && 0 <= c < 9 && (r < row || (r == row && c < col)) ==> grid[r, c] != 0
      ensures !found ==> forall r, c :: 0 <= r < 9 && 0 <= c < 9 ==> grid[r, c] != 0
    {
      for i := 0 to 9
        invariant forall r, c :: 0 <= r < i && 0 <= c < 9 ==> grid[r, c] != 0
      {
        for j := 0 to 9
          invariant forall r, c :: 0 <= r < i && 0 <= c < 9 ==> grid[r, c] != 0
          invariant forall c :: 0 <= c < j ==> grid[i, c] != 0
        {
          if grid[i, j] == 0 {
            return true, i, j;
          }
        }
      }
      return false, 0, 0;
    }
  }
}
