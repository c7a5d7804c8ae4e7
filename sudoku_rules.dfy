/**
 * The placement rules of the 9×9 puzzle over a plain grid of integers, as the
 * board engine (Sudoku/SudokuBoard.cs) uses them: 0 is an empty cell, a digit
 * may not repeat within a row, a column or one of the nine 3×3 boxes.
 */
module SudokuRules {

  /** A 9×9 grid indexed [row][col]. */
  predicate IsGrid(g: seq<seq<int>>) {
    |g| == 9 && forall r :: 0 <= r < 9 ==> |g[r]| == 9
  }

  /** The two positions lie in the same 3×3 box (boxes start at rows/columns 0, 3, 6). */
  predicate SameBox(r1: int, c1: int, r2: int, c2: int) {
    r1 / 3 == r2 / 3 && c1 / 3 == c2 / 3
  }

  /** The two positions share a row, a column or a box. */
  predicate SameUnit(r1: int, c1: int, r2: int, c2: int) {
    r1 == r2 || c1 == c2 || SameBox(r1, c1, r2, c2)
  }

  /**
   * `num` occurs nowhere in the row, the column or the box of (row, col),
   * the cell (row, col) itself included.
   */
  predicate Allowed(g: seq<seq<int>>, row: int, col: int, num: int)
    requires IsGrid(g) && 0 <= row < 9 && 0 <= col < 9
  {
    forall r, c :: 0 <= r < 9 && 0 <= c < 9 && SameUnit(row, col, r, c) ==> g[r][c] != num
  }

  /** The entry at (row, col) is empty or no other cell of its row, column or box repeats it. */
  predicate NoClashAt(g: seq<seq<int>>, row: int, col: int)
    requires IsGrid(g) && 0 <= row < 9 && 0 <= col < 9
  {
    g[row][col] == 0 ||
    forall r, c :: 0 <= r < 9 && 0 <= c < 9 && (r != row || c != col) && SameUnit(row, col, r, c)
      ==> g[r][c] != g[row][col]
  }

  /** No non-empty entry is repeated by another cell of its row, column or box. */
  predicate Consistent(g: seq<seq<int>>)
    requires IsGrid(g)
  {
    forall r, c :: 0 <= r < 9 && 0 <= c < 9 ==> NoClashAt(g, r, c)
  }

  /** Every entry is a digit 1..9 and no row, column or box repeats one. */
  predicate Solved(g: seq<seq<int>>)
    requires IsGrid(g)
  {
    (forall r, c :: 0 <= r < 9 && 0 <= c < 9 ==> 1 <= g[r][c] <= 9) && Consistent(g)
  }

  /** Every non-empty entry of `g` is still there in `h`. */
  predicate Keeps(g: seq<seq<int>>, h: seq<seq<int>>)
    requires IsGrid(g) && IsGrid(h)
  {
    forall r, c :: 0 <= r < 9 && 0 <= c < 9 && g[r][c] != 0 ==> h[r][c] == g[r][c]
  }

  /** `h` keeps the entries of `g` and puts a digit 1..9 in each of its empty cells. */
  predicate Completes(g: seq<seq<int>>, h: seq<seq<int>>)
    requires IsGrid(g) && IsGrid(h)
  {
    Keeps(g, h) && forall r, c :: 0 <= r < 9 && 0 <= c < 9 && g[r][c] == 0 ==> 1 <= h[r][c] <= 9
  }

  /** `g` with `num` written at (row, col). */
  function Place(g: seq<seq<int>>, row: int, col: int, num: int): (h: seq<seq<int>>)
    requires IsGrid(g) && 0 <= row < 9 && 0 <= col < 9
    ensures IsGrid(h)
  {
    g[row := g[row][col := num]]
  }

  /** The empty cells of `g`. */
  ghost function Zeros(g: seq<seq<int>>): set<(int, int)>
    requires IsGrid(g)
  {
    set r, c | 0 <= r < 9 && 0 <= c < 9 && g[r][c] == 0 :: (r, c)
  }

  /** The all-zero grid that the generator starts from. */
  function EmptyGrid(): (g: seq<seq<int>>)
    ensures IsGrid(g)
  {
    seq(9, _ => seq(9, _ => 0))
  }

  /** Two 9×9 grids with the same entries are equal. */
  lemma GridExtensionality(g: seq<seq<int>>, h: seq<seq<int>>)
    requires IsGrid(g) && IsGrid(h)
    requires forall r, c :: 0 <= r < 9 && 0 <= c < 9 ==> g[r][c] == h[r][c]
    ensures g == h
  {
    forall r | 0 <= r < 9
      ensures g[r] == h[r]
    {
      assert forall c :: 0 <= c < 9 ==> g[r][c] == h[r][c];
    }
  }

  /** Writing an allowed digit into an empty cell keeps a consistent grid consistent. */
  lemma PlaceKeepsConsistent(g: seq<seq<int>>, row: int, col: int, num: int)
    requires IsGrid(g) && 0 <= row < 9 && 0 <= col < 9
    requires g[row][col] == 0 && num != 0 && Allowed(g, row, col, num)
    ensures Consistent(g) ==> Consistent(Place(g, row, col, num))
  {
    if !Consistent(g) {
      return;
    }
    var h := Place(g, row, col, num);
    forall r1, c1 | 0 <= r1 < 9 && 0 <= c1 < 9
      ensures NoClashAt(h, r1, c1)
    {
      if r1 == row && c1 == col {
        forall r2, c2 | 0 <= r2 < 9 && 0 <= c2 < 9 && (r2 != row || c2 != col) && SameUnit(row, col, r2, c2)
          ensures h[r2][c2] != num
        {
          assert h[r2][c2] == g[r2][c2];
        }
      } else if h[r1][c1] != 0 {
        assert NoClashAt(g, r1, c1);
        forall r2, c2 | 0 <= r2 < 9 && 0 <= c2 < 9 && (r2 != r1 || c2 != c1) && SameUnit(r1, c1, r2, c2)
          ensures h[r2][c2] != h[r1][c1]
        {
          if r2 == row && c2 == col {
            assert SameUnit(row, col, r1, c1);
            assert g[r1][c1] != num;
          } else {
            assert h[r2][c2] == g[r2][c2];
          }
        }
      }
    }
  }

  /** Writing a non-zero digit into an empty cell strictly shrinks the set of empty cells. */
  lemma PlaceShrinksZeros(g: seq<seq<int>>, row: int, col: int, num: int)
    requires IsGrid(g) && 0 <= row < 9 && 0 <= col < 9
    requires g[row][col] == 0 && num != 0
    ensures Zeros(Place(g, row, col, num)) < Zeros(g)
  {
    var h := Place(g, row, col, num);
    assert (row, col) in Zeros(g);
    assert (row, col) !in Zeros(h);
    forall p | p in Zeros(h)
      ensures p in Zeros(g)
    {
      var r, c := p.0, p.1;
      assert h[r][c] == 0;
      assert g[r][c] == 0;
    }
  }

  /**
   * If a digit 1..9 was written into an empty cell and the result was then
   * completed, the completion also completes the grid before the write.
   */
  lemma CompletesAfterPlace(g: seq<seq<int>>, row: int, col: int, num: int, h: seq<seq<int>>)
    requires IsGrid(g) && IsGrid(h) && 0 <= row < 9 && 0 <= col < 9
    requires g[row][col] == 0 && 1 <= num <= 9
    requires Completes(Place(g, row, col, num), h)
    ensures Completes(g, h)
  {
    var m := Place(g, row, col, num);
    forall r, c | 0 <= r < 9 && 0 <= c < 9
      ensures g[r][c] != 0 ==> h[r][c] == g[r][c]
      ensures g[r][c] == 0 ==> 1 <= h[r][c] <= 9
    {
      if r == row && c == col {
        assert m[r][c] == num;
      } else {
        assert m[r][c] == g[r][c];
      }
    }
  }

  /** Clearing again the entry just written restores the grid. */
  lemma PlaceUndo(g: seq<seq<int>>, row: int, col: int, num: int)
    requires IsGrid(g) && 0 <= row < 9 && 0 <= col < 9 && g[row][col] == 0
    ensures Place(Place(g, row, col, num), row, col, 0) == g
  {
    GridExtensionality(Place(Place(g, row, col, num), row, col, 0), g);
  }

  /** A consistent completion of the empty grid is a solved grid. */
  lemma CompletedEmptyGridIsSolved(h: seq<seq<int>>)
    requires IsGrid(h) && Completes(EmptyGrid(), h) && Consistent(h)
    ensures Solved(h)
  {
    forall r, c | 0 <= r < 9 && 0 <= c < 9
      ensures 1 <= h[r][c] <= 9
    {
      assert EmptyGrid()[r][c] == 0;
    }
  }

  /** The digits 1..9 as a set. */
  const DigitSet: set<int> := {1, 2, 3, 4, 5, 6, 7, 8, 9}

  /** Pairwise distinct entries, all drawn from `s`, are at most |s| many. */
  lemma {:induction false} DistinctEntriesBound(xs: seq<int>, s: set<int>)
    requires forall i :: 0 <= i < |xs| ==> xs[i] in s
    requires forall i, j :: 0 <= i < j < |xs| ==> xs[i] != xs[j]
    ensures |xs| <= |s|
  {
    if xs != [] {
      forall i | 0 <= i < |xs[1..]|
        ensures xs[1..][i] in s - {xs[0]}
      {
        assert xs[1..][i] == xs[i + 1];
      }
      DistinctEntriesBound(xs[1..], s - {xs[0]});
    }
  }

  /** Nine pairwise distinct digits 1..9 include every digit. */
  lemma NineDistinctDigits(xs: seq<int>, d: int)
    requires |xs| == 9 && forall i :: 0 <= i < 9 ==> 1 <= xs[i] <= 9
    requires forall i, j :: 0 <= i < j < 9 ==> xs[i] != xs[j]
    requires 1 <= d <= 9
    ensures d in xs
  {
    if d !in xs {
      assert |DigitSet| == 9 && d in DigitSet;
      DistinctEntriesBound(xs, DigitSet - {d});
    }
  }

  /** The entries of row r. */
  function RowOf(g: seq<seq<int>>, r: int): (xs: seq<int>)
    requires IsGrid(g) && 0 <= r < 9
    ensures |xs| == 9 && forall c :: 0 <= c < 9 ==> xs[c] == g[r][c]
  {
    g[r]
  }

  /** The entries of column c, top to bottom. */
  function ColumnOf(g: seq<seq<int>>, c: int): (xs: seq<int>)
    requires IsGrid(g) && 0 <= c < 9
    ensures |xs| == 9 && forall r :: 0 <= r < 9 ==> xs[r] == g[r][c]
  {
    seq(9, r requires 0 <= r < 9 => g[r][c])
  }

  /** The entries of box b (boxes numbered 0..8 row by row), read row by row. */
  function BoxOf(g: seq<seq<int>>, b: int): (xs: seq<int>)
    requires IsGrid(g) && 0 <= b < 9
    ensures |xs| == 9
    ensures forall k :: 0 <= k < 9 ==> xs[k] == g[BoxRow(b, k)][BoxCol(b, k)]
  {
    seq(9, k requires 0 <= k < 9 => g[BoxRow(b, k)][BoxCol(b, k)])
  }

  /** The row of the k-th cell of box b. */
  function BoxRow(b: int, k: int): (r: int)
    requires 0 <= b < 9 && 0 <= k < 9
    ensures 0 <= r < 9 && r / 3 == b / 3
  {
    (b / 3) * 3 + k / 3
  }

  /** The column of the k-th cell of box b. */
  function BoxCol(b: int, k: int): (c: int)
    requires 0 <= b < 9 && 0 <= k < 9
    ensures 0 <= c < 9 && c / 3 == b % 3
  {
    (b % 3) * 3 + k % 3
  }

  /**
   * In a solved grid every row, every column and every box holds each digit
   * 1..9: the usual definition of a completed puzzle.
   */
  lemma SolvedUnitsHoldEveryDigit(g: seq<seq<int>>, i: int, d: int)
    requires IsGrid(g) && Solved(g) && 0 <= i < 9 && 1 <= d <= 9
    ensures d in RowOf(g, i) && d in ColumnOf(g, i) && d in BoxOf(g, i)
  {
    var row, col, box := RowOf(g, i), ColumnOf(g, i), BoxOf(g, i);
    forall j, k | 0 <= j < k < 9
      ensures row[j] != row[k] && col[j] != col[k] && box[j] != box[k]
    {
      assert NoClashAt(g, i, j) && NoClashAt(g, j, i);
      assert SameUnit(i, j, i, k) && SameUnit(j, i, k, i);
      var rj, cj, rk, ck := BoxRow(i, j), BoxCol(i, j), BoxRow(i, k), BoxCol(i, k);
      assert rj != rk || cj != ck;
      assert NoClashAt(g, rj, cj) && SameUnit(rj, cj, rk, ck);
    }
    NineDistinctDigits(row, d);
    NineDistinctDigits(col, d);
    NineDistinctDigits(box, d);
  }
}
