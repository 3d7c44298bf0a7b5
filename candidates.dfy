/**
  The 9x9 board and the candidate digits of a cell (get_candidates).

  A board is the list of rows the game record stores, 0 meaning an empty cell.
  The hint engine only ever indexes rows and columns 0..8, so a board is usable
  when it has at least nine rows of at least nine cells.
*/
module Candidates {

  predicate IsGrid(b: seq<seq<int>>) {
    |b| >= 9 && forall i | 0 <= i < 9 :: |b[i]| >= 9
  }

  predicate InGrid(r: int, c: int) {
    0 <= r < 9 && 0 <= c < 9
  }

  /** First row (or column) of the 3x3 box that holds row (or column) k. */
  function BoxStart(k: int): int
    requires 0 <= k < 9
  {
    3 * (k / 3)
  }

  ghost predicate InRow(board: seq<seq<int>>, r: int, d: int)
    requires IsGrid(board) && 0 <= r < 9
  {
    exists j | 0 <= j < 9 :: board[r][j] == d
  }

  ghost predicate InColumn(board: seq<seq<int>>, c: int, d: int)
    requires IsGrid(board) && 0 <= c < 9
  {
    exists i | 0 <= i < 9 :: board[i][c] == d
  }

  ghost predicate InBox(board: seq<seq<int>>, r: int, c: int, d: int)
    requires IsGrid(board) && InGrid(r, c)
  {
    exists i, j | BoxStart(r) <= i < BoxStart(r) + 3 && BoxStart(c) <= j < BoxStart(c) + 3 :: board[i][j] == d
  }

  /** The digits 1..9 absent from the row, the column and the box of (r, c). */
  ghost function CandidateSet(board: seq<seq<int>>, r: int, c: int): (s: set<int>)
    requires IsGrid(board) && InGrid(r, c)
    ensures forall d | d in s :: 1 <= d <= 9
    ensures |s| <= 9
  {
    var s := set d | 1 <= d <= 9 && !InRow(board, r, d) && !InColumn(board, c, d) && !InBox(board, r, c, d);
    AtMostNineDigits(s);
    s
  }

  ghost function CandidateCount(board: seq<seq<int>>, r: int, c: int): nat
    requires IsGrid(board) && InGrid(r, c)
  {
    |CandidateSet(board, r, c)|
  }

  lemma AtMostNineDigits(s: set<int>)
    requires forall d | d in s :: 1 <= d <= 9
    ensures |s| <= 9
  {
    var digits := {1, 2, 3, 4, 5, 6, 7, 8, 9};
    forall d | d in s ensures d in digits {
      assert d == 1 || d == 2 || d == 3 || d == 4 || d == 5 || d == 6 || d == 7 || d == 8 || d == 9;
    }
    var rest := digits - s;
    assert digits == s + rest && s !! rest;
  }

  /** `d` is in none of the first `n` cells of row `r`. */
  ghost predicate RowPrefixAvoids(board: seq<seq<int>>, r: int, n: int, d: int)
    requires IsGrid(board) && 0 <= r < 9 && 0 <= n <= 9
  {
    forall j | 0 <= j < n :: board[r][j] != d
  }

  /** `d` is in none of the first `n` cells of column `c`. */
  ghost predicate ColumnPrefixAvoids(board: seq<seq<int>>, c: int, n: int, d: int)
    requires IsGrid(board) && 0 <= c < 9 && 0 <= n <= 9
  {
    forall i | 0 <= i < n :: board[i][c] != d
  }

  /** `d` is in none of the cells of the box of (r, c) that come before (i, j), row by row. */
  ghost predicate BoxPrefixAvoids(board: seq<seq<int>>, r: int, c: int, i: int, j: int, d: int)
    requires IsGrid(board) && InGrid(r, c)
  {
    forall i', j' | BoxStart(r) <= i' < BoxStart(r) + 3 && BoxStart(c) <= j' < BoxStart(c) + 3 &&
                    (i' < i || (i' == i && j' < j)) :: board[i'][j'] != d
  }

  /**
    The candidate digits of cell (row, col): starting from 1..9, every non-zero
    digit of the row, of the column and of the 3x3 box is removed. The value of
    the cell itself takes part like any other cell of its row.
  */
  method GetCandidates(board: seq<seq<int>>, row: int, col: int) returns (candidates: set<int>)
    requires IsGrid(board) && InGrid(row, col)
    ensures candidates == CandidateSet(board, row, col)
  {
    candidates := {1, 2, 3, 4, 5, 6, 7, 8, 9};
    for j := 0 to 9
      invariant forall d :: d in candidates <==> 1 <= d <= 9 && RowPrefixAvoids(board, row, j, d)
    {
      if board[row][j] != 0 {
        candidates := candidates - {board[row][j]};
      }
    }
    for i := 0 to 9
      invariant forall d :: d in candidates <==>
        1 <= d <= 9 && RowPrefixAvoids(board, row, 9, d) && ColumnPrefixAvoids(board, col, i, d)
    {
      if board[i][col] != 0 {
        candidates := candidates - {board[i][col]};
      }
    }
    var startRow, startCol := BoxStart(row), BoxStart(col);
    for i := startRow to startRow + 3
      invariant forall d :: d in candidates <==>
        1 <= d <= 9 && RowPrefixAvoids(board, row, 9, d) && ColumnPrefixAvoids(board, col, 9, d) &&
        BoxPrefixAvoids(board, row, col, i, startCol, d)
    {
      for j := startCol to startCol + 3
        invariant forall d :: d in candidates <==>
          1 <= d <= 9 && RowPrefixAvoids(board, row, 9, d) && ColumnPrefixAvoids(board, col, 9, d) &&
          BoxPrefixAvoids(board, row, col, i, j, d)
      {
        if board[i][j] != 0 {
          candidates := candidates - {board[i][j]};
        }
      }
    }
    assert forall d :: d in candidates <==> d in CandidateSet(board, row, col);
  }
}
