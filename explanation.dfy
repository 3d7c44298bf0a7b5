/**
  The digit lists of the hint explanation (row_nums, col_nums and box_nums in
  get_hint). Only the lists are modelled; the surrounding sentence templates
  are not.
*/
module Explanations {
  import opened Wrappers
  import opened Candidates
  import opened Hints

  /** The entries of `cells` that are neither 0 nor equal to `target`. */
  function RowDigits(cells: seq<int>, target: int): (r: seq<int>)
    ensures multiset(r) == multiset(cells)[0 := 0][target := 0]
    ensures |r| <= |cells|
  {
    if cells == [] then []
    else
      assert cells == [cells[0]] + cells[1..];
      (if cells[0] != 0 && cells[0] != target then [cells[0]] else []) + RowDigits(cells[1..], target)
  }

  /**
    The non-zero entries of `cells`, except the one at position
    `skip`; a `skip` outside the sequence excludes nothing.
  */
  function NonZeroExcept(cells: seq<int>, skip: int): (r: seq<int>)
    ensures 0 !in r
    ensures forall x | x != 0 ::
              multiset(r)[x] + (if 0 <= skip < |cells| && cells[skip] == x then 1 else 0) == multiset(cells)[x]
    ensures |r| <= |cells|
  {
    if cells == [] then []
    else
      assert cells == [cells[0]] + cells[1..];
      assert 0 < skip < |cells| ==> cells[skip] == cells[1..][skip - 1];
      (if cells[0] != 0 && skip != 0 then [cells[0]] else []) + NonZeroExcept(cells[1..], skip - 1)
  }

  /** Column `col`, top to bottom. */
  function ColumnCells(board: seq<seq<int>>, col: int): (cells: seq<int>)
    requires IsGrid(board) && 0 <= col < 9
    ensures |cells| == 9 && forall i | 0 <= i < 9 :: cells[i] == board[i][col]
  {
    seq(9, i requires 0 <= i < 9 => board[i][col])
  }

  /** The 3x3 box of (row, col), row by row, as the source's comprehension visits it. */
  function BoxCells(board: seq<seq<int>>, row: int, col: int): (cells: seq<int>)
    requires IsGrid(board) && InGrid(row, col)
    ensures |cells| == 9
    ensures forall k | 0 <= k < 9 :: cells[k] == board[BoxStart(row) + k / 3][BoxStart(col) + k % 3]
  {
    seq(9, k requires 0 <= k < 9 => board[BoxStart(row) + k / 3][BoxStart(col) + k % 3])
  }

  /**
    What the explanation of a hint lists: the wrong value being corrected (for
    a correction hint), then the digits present in the row, the column and the box.
  */
  datatype Explanation = Explanation(wrongValue: Option<int>, rowDigits: seq<int>, colDigits: seq<int>, boxDigits: seq<int>)

  /**
    The row list drops every entry equal to the target cell's value, while the
    column and box lists drop only the target cell itself, and only for a
    correction hint.
  */
  function Explain(board: seq<seq<int>>, h: Hint): (e: Explanation)
    requires IsGrid(board) && InGrid(h.row, h.col)
    ensures e.wrongValue == if h.isIncorrect then Some(board[h.row][h.col]) else None
    ensures multiset(e.rowDigits) == multiset(board[h.row])[0 := 0][board[h.row][h.col] := 0]
    ensures board[h.row][h.col] !in e.rowDigits
    ensures forall x | x != 0 ::
              multiset(e.colDigits)[x] + (if h.isIncorrect && x == board[h.row][h.col] then 1 else 0) ==
              multiset(ColumnCells(board, h.col))[x]
    ensures forall x | x != 0 ::
              multiset(e.boxDigits)[x] + (if h.isIncorrect && x == board[h.row][h.col] then 1 else 0) ==
              multiset(BoxCells(board, h.row, h.col))[x]
    ensures 0 !in e.rowDigits && 0 !in e.colDigits && 0 !in e.boxDigits
  {
    var target := board[h.row][h.col];
    var boxSkip := 3 * (h.row % 3) + h.col % 3;
    var box := BoxCells(board, h.row, h.col);
    assert box[boxSkip] == target;
    var rowDigits := RowDigits(board[h.row], target);
    assert multiset(rowDigits)[target] == 0 && multiset(rowDigits)[0] == 0;
    Explanation(
      if h.isIncorrect then Some(target) else None,
      rowDigits,
      NonZeroExcept(ColumnCells(board, h.col), if h.isIncorrect then h.row else -1),
      NonZeroExcept(box, if h.isIncorrect then boxSkip else -1))
  }

  /**
    For a completion hint on a board that agrees with a valid solution, the
    explanation's claim holds: the suggested digit is absent from all three lists.
  */
  lemma CompletionExplanationIsTrue(board: seq<seq<int>>, solution: seq<seq<int>>, h: Hint)
    requires IsGrid(board) && IsGrid(solution) && ValidSolution(solution)
    requires NoIncorrectBefore(board, solution, 9, 0)
    requires CompletionHint(board, solution, h)
    requires |board[h.row]| == 9
    ensures h.value !in Explain(board, h).rowDigits
    ensures h.value !in Explain(board, h).colDigits
    ensures h.value !in Explain(board, h).boxDigits
  {
    var e := Explain(board, h);
    var v := h.value;
    CorrectCellsAvoidDigit(board, solution, h.row, h.col);
    assert v !in board[h.row];
    assert multiset(e.rowDigits)[v] == 0;
    var column := ColumnCells(board, h.col);
    assert v !in column;
    assert multiset(e.colDigits)[v] == 0;
    var box := BoxCells(board, h.row, h.col);
    forall k | 0 <= k < 9 ensures box[k] != v {
      assert BoxStart(h.row) <= BoxStart(h.row) + k / 3 < BoxStart(h.row) + 3;
    }
    assert v !in box;
    assert multiset(e.boxDigits)[v] == 0;
  }
}
