/**
  Hint selection (the selection loop of get_hint).

  The board is scanned twice in row-major order. The correction phase picks the
  first filled cell that disagrees with the solution. Only when there is none,
  the completion phase picks the empty cell with the fewest candidates among
  those with at least one, keeping the first such cell on ties.
*/
module Hints {
  import opened Wrappers
  import opened Candidates

  /** The advised cell, the solution's digit there, and which phase chose it. */
  datatype Hint = Hint(row: int, col: int, value: int, isIncorrect: bool)

  /** A cell is incorrect when it is filled and differs from the solution. */
  function IsIncorrectCell(board: seq<seq<int>>, solution: seq<seq<int>>, row: int, col: int): (r: bool)
    requires IsGrid(board) && IsGrid(solution) && InGrid(row, col)
    ensures board[row][col] == 0 ==> !r
    ensures r ==> board[row][col] != solution[row][col]
    ensures board[row][col] != 0 && board[row][col] != solution[row][col] ==> r
  {
    if board[row][col] == 0 then false else board[row][col] != solution[row][col]
  }

  /** Row-major order: (r1, c1) is scanned before (r2, c2). */
  predicate Before(r1: int, c1: int, r2: int, c2: int) {
    r1 < r2 || (r1 == r2 && c1 < c2)
  }

  /** No cell scanned before (r, c) is incorrect; with (9, 0), no cell at all. */
  ghost predicate NoIncorrectBefore(board: seq<seq<int>>, solution: seq<seq<int>>, r: int, c: int)
    requires IsGrid(board) && IsGrid(solution)
  {
    forall i, j | InGrid(i, j) && Before(i, j, r, c) :: !IsIncorrectCell(board, solution, i, j)
  }

  /** An empty cell with at least one candidate: what the completion phase considers. */
  ghost predicate Qualifies(board: seq<seq<int>>, r: int, c: int)
    requires IsGrid(board) && InGrid(r, c)
  {
    board[r][c] == 0 && CandidateCount(board, r, c) > 0
  }

  ghost predicate AnyQualifies(board: seq<seq<int>>)
    requires IsGrid(board)
  {
    exists i, j | InGrid(i, j) :: Qualifies(board, i, j)
  }

  /** The hint of the correction phase: the first incorrect cell, with the solution's digit. */
  ghost predicate CorrectionHint(board: seq<seq<int>>, solution: seq<seq<int>>, h: Hint)
    requires IsGrid(board) && IsGrid(solution)
  {
    && InGrid(h.row, h.col)
    && h.isIncorrect
    && IsIncorrectCell(board, solution, h.row, h.col)
    && h.value == solution[h.row][h.col]
    && NoIncorrectBefore(board, solution, h.row, h.col)
  }

  /**
    The hint of the completion phase: a qualifying cell whose candidate count is
    minimal among qualifying cells and strictly smaller than that of every
    qualifying cell before it, with the solution's digit.
  */
  ghost predicate CompletionHint(board: seq<seq<int>>, solution: seq<seq<int>>, h: Hint)
    requires IsGrid(board) && IsGrid(solution)
  {
    && InGrid(h.row, h.col)
    && !h.isIncorrect
    && Qualifies(board, h.row, h.col)
    && h.value == solution[h.row][h.col]
    && (forall i, j | InGrid(i, j) && Qualifies(board, i, j) ::
          CandidateCount(board, h.row, h.col) <= CandidateCount(board, i, j))
    && (forall i, j | InGrid(i, j) && Before(i, j, h.row, h.col) && Qualifies(board, i, j) ::
          CandidateCount(board, h.row, h.col) < CandidateCount(board, i, j))
  }

  /** What get_hint selects: correction first, then completion, otherwise no hint. */
  ghost predicate HintSpec(board: seq<seq<int>>, solution: seq<seq<int>>, h: Option<Hint>)
    requires IsGrid(board) && IsGrid(solution)
  {
    if !NoIncorrectBefore(board, solution, 9, 0) then
      h.Some? && CorrectionHint(board, solution, h.value)
    else if AnyQualifies(board) then
      h.Some? && CompletionHint(board, solution, h.value)
    else
      h.None?
  }

  /** State of the completion scan once every cell before (r, c) has been visited. */
  ghost predicate CompletionScan(board: seq<seq<int>>, solution: seq<seq<int>>, hint: Option<Hint>,
                                 minCandidates: int, r: int, c: int)
    requires IsGrid(board) && IsGrid(solution)
  {
    if hint.None? then
      && minCandidates == 10
      && forall i, j | InGrid(i, j) && Before(i, j, r, c) :: !Qualifies(board, i, j)
    else
      var h := hint.value;
      && InGrid(h.row, h.col)
      && Before(h.row, h.col, r, c)
      && !h.isIncorrect
      && Qualifies(board, h.row, h.col)
      && h.value == solution[h.row][h.col]
      && minCandidates == CandidateCount(board, h.row, h.col)
      && (forall i, j | InGrid(i, j) && Before(i, j, r, c) && Qualifies(board, i, j) ::
            minCandidates <= CandidateCount(board, i, j))
      && (forall i, j | InGrid(i, j) && Before(i, j, h.row, h.col) && Qualifies(board, i, j) ::
            minCandidates < CandidateCount(board, i, j))
  }

  /** The correction phase: the first incorrect cell in row-major order, if any. */
  method FindIncorrectCell(board: seq<seq<int>>, solution: seq<seq<int>>) returns (hint: Option<Hint>)
    requires IsGrid(board) && IsGrid(solution)
    ensures hint.None? ==> NoIncorrectBefore(board, solution, 9, 0)
    ensures hint.Some? ==> CorrectionHint(board, solution, hint.value)
  {
    hint := None;
    for i := 0 to 9
      invariant hint.None?
      invariant NoIncorrectBefore(board, solution, i, 0)
    {
      for j := 0 to 9
        invariant hint.None?
        invariant NoIncorrectBefore(board, solution, i, j)
      {
        if IsIncorrectCell(board, solution, i, j) {
          hint := Some(Hint(i, j, solution[i][j], true));
          break;
        }
      }
      if hint.Some? {
        break;
      }
    }
  }

  /**
    The completion phase: the empty cell with the fewest candidates, counting
    only cells with at least one, and the first such cell on ties because a
    later cell replaces the choice only when its count is strictly smaller.
  */
  method FindFewestCandidates(board: seq<seq<int>>, solution: seq<seq<int>>) returns (hint: Option<Hint>)
    requires IsGrid(board) && IsGrid(solution)
    ensures hint.None? ==> !AnyQualifies(board)
    ensures hint.Some? ==> CompletionHint(board, solution, hint.value)
  {
    hint := None;
    var minCandidates := 10;
    for i := 0 to 9
      invariant CompletionScan(board, solution, hint, minCandidates, i, 0)
    {
      for j := 0 to 9
        invariant CompletionScan(board, solution, hint, minCandidates, i, j)
      {
        if board[i][j] == 0 {
          var candidates := GetCandidates(board, i, j);
          if |candidates| < minCandidates && |candidates| > 0 {
            minCandidates := |candidates|;
            hint := Some(Hint(i, j, solution[i][j], false));
          }
        }
      }
    }
  }

  /** The selection of get_hint: the correction phase, and the completion phase only when it finds nothing. */
  method SelectHint(board: seq<seq<int>>, solution: seq<seq<int>>) returns (hint: Option<Hint>)
    requires IsGrid(board) && IsGrid(solution)
    ensures HintSpec(board, solution, hint)
  {
    hint := FindIncorrectCell(board, solution);
    if hint.None? {
      hint := FindFewestCandidates(board, solution);
    }
  }

  /** The selection is a function of the board and the solution: at most one hint meets HintSpec. */
  lemma HintSpecDeterministic(board: seq<seq<int>>, solution: seq<seq<int>>, h1: Option<Hint>, h2: Option<Hint>)
    requires IsGrid(board) && IsGrid(solution)
    requires HintSpec(board, solution, h1) && HintSpec(board, solution, h2)
    ensures h1 == h2
  {
  }

  /** Every cell of the board is empty. */
  ghost predicate AllEmpty(board: seq<seq<int>>)
    requires IsGrid(board)
  {
    forall i, j | InGrid(i, j) :: board[i][j] == 0
  }

  lemma EmptyBoardCandidates(board: seq<seq<int>>, r: int, c: int)
    requires IsGrid(board) && AllEmpty(board) && InGrid(r, c)
    ensures CandidateSet(board, r, c) == {1, 2, 3, 4, 5, 6, 7, 8, 9}
    ensures CandidateCount(board, r, c) == 9
  {
    forall d | 1 <= d <= 9
      ensures !InRow(board, r, d) && !InColumn(board, c, d) && !InBox(board, r, c, d)
    {
    }
    assert CandidateSet(board, r, c) == {1, 2, 3, 4, 5, 6, 7, 8, 9};
  }

  /**
    On a board with no entries every cell has nine candidates, so the tie-break
    selects the first cell, (0, 0).
  */
  lemma EmptyBoardHintsFirstCell(board: seq<seq<int>>, solution: seq<seq<int>>, h: Option<Hint>)
    requires IsGrid(board) && IsGrid(solution) && AllEmpty(board)
    requires HintSpec(board, solution, h)
    ensures h == Some(Hint(0, 0, solution[0][0], false))
  {
    EmptyBoardCandidates(board, 0, 0);
    assert Qualifies(board, 0, 0);
    assert NoIncorrectBefore(board, solution, 9, 0);
    var x := h.value;
    EmptyBoardCandidates(board, x.row, x.col);
  }

  /**
    A filled cell that disagrees with the solution at the first position is
    advised on, with the solution's digit, whatever the rest of the board holds.
  */
  lemma WrongFirstCellIsCorrected(board: seq<seq<int>>, solution: seq<seq<int>>, h: Option<Hint>)
    requires IsGrid(board) && IsGrid(solution)
    requires board[0][0] != 0 && board[0][0] != solution[0][0]
    requires HintSpec(board, solution, h)
    ensures h == Some(Hint(0, 0, solution[0][0], true))
  {
    assert IsIncorrectCell(board, solution, 0, 0);
  }

  ghost predicate RowsDistinct(s: seq<seq<int>>)
    requires IsGrid(s)
  {
    forall i, j1, j2 | 0 <= i < 9 && 0 <= j1 < 9 && 0 <= j2 < 9 && j1 != j2 :: s[i][j1] != s[i][j2]
  }

  ghost predicate ColumnsDistinct(s: seq<seq<int>>)
    requires IsGrid(s)
  {
    forall i1, i2, j | 0 <= i1 < 9 && 0 <= i2 < 9 && 0 <= j < 9 && i1 != i2 :: s[i1][j] != s[i2][j]
  }

  ghost predicate BoxesDistinct(s: seq<seq<int>>)
    requires IsGrid(s)
  {
    forall i1, j1, i2, j2 |
      InGrid(i1, j1) && InGrid(i2, j2) && BoxStart(i1) == BoxStart(i2) && BoxStart(j1) == BoxStart(j2) &&
      (i1 != i2 || j1 != j2) :: s[i1][j1] != s[i2][j2]
  }

  /** A completely filled grid of digits 1..9 with no repeat in a row, a column or a box. */
  ghost predicate ValidSolution(s: seq<seq<int>>)
    requires IsGrid(s)
  {
    && (forall i, j | InGrid(i, j) :: 1 <= s[i][j] <= 9)
    && RowsDistinct(s)
    && ColumnsDistinct(s)
    && BoxesDistinct(s)
  }

  /** Every row (or column) of the box that starts at BoxStart(k) has that same box start. */
  lemma SameBoxStart(k: int, i: int)
    requires 0 <= k < 9 && BoxStart(k) <= i < BoxStart(k) + 3
    ensures 0 <= i < 9 && BoxStart(i) == BoxStart(k)
  {
  }

  lemma CorrectRowAvoidsDigit(board: seq<seq<int>>, solution: seq<seq<int>>, r: int, c: int)
    requires IsGrid(board) && IsGrid(solution) && ValidSolution(solution)
    requires NoIncorrectBefore(board, solution, 9, 0)
    requires InGrid(r, c) && board[r][c] == 0
    ensures !InRow(board, r, solution[r][c])
  {
    var d := solution[r][c];
    forall j | 0 <= j < 9 ensures board[r][j] != d {
      assert !IsIncorrectCell(board, solution, r, j);
      if j != c {
        assert RowsDistinct(solution);
      }
    }
  }

  lemma CorrectColumnAvoidsDigit(board: seq<seq<int>>, solution: seq<seq<int>>, r: int, c: int)
    requires IsGrid(board) && IsGrid(solution) && ValidSolution(solution)
    requires NoIncorrectBefore(board, solution, 9, 0)
    requires InGrid(r, c) && board[r][c] == 0
    ensures !InColumn(board, c, solution[r][c])
  {
    var d := solution[r][c];
    forall i | 0 <= i < 9 ensures board[i][c] != d {
      assert !IsIncorrectCell(board, solution, i, c);
      if i != r {
        assert ColumnsDistinct(solution);
      }
    }
  }

  lemma CorrectBoxAvoidsDigit(board: seq<seq<int>>, solution: seq<seq<int>>, r: int, c: int)
    requires IsGrid(board) && IsGrid(solution) && ValidSolution(solution)
    requires NoIncorrectBefore(board, solution, 9, 0)
    requires InGrid(r, c) && board[r][c] == 0
    ensures !InBox(board, r, c, solution[r][c])
  {
    var d := solution[r][c];
    forall i, j | BoxStart(r) <= i < BoxStart(r) + 3 && BoxStart(c) <= j < BoxStart(c) + 3
      ensures board[i][j] != d
    {
      SameBoxStart(r, i);
      SameBoxStart(c, j);
      assert !IsIncorrectCell(board, solution, i, j);
      if i != r || j != c {
        assert BoxesDistinct(solution);
      }
    }
  }

  /**
    With a valid solution and no incorrect entry, the solution's digit of an
    empty cell appears nowhere in its row, its column or its box.
  */
  lemma CorrectCellsAvoidDigit(board: seq<seq<int>>, solution: seq<seq<int>>, r: int, c: int)
    requires IsGrid(board) && IsGrid(solution) && ValidSolution(solution)
    requires NoIncorrectBefore(board, solution, 9, 0)
    requires InGrid(r, c) && board[r][c] == 0
    ensures !InRow(board, r, solution[r][c])
    ensures !InColumn(board, c, solution[r][c])
    ensures !InBox(board, r, c, solution[r][c])
  {
    CorrectRowAvoidsDigit(board, solution, r, c);
    CorrectColumnAvoidsDigit(board, solution, r, c);
    CorrectBoxAvoidsDigit(board, solution, r, c);
  }

  /**
    When the board agrees with a valid solution wherever it is filled, the
    solution's digit of an empty cell is one of its candidates; in particular
    every empty cell has at least one.
  */
  lemma SolutionDigitIsCandidate(board: seq<seq<int>>, solution: seq<seq<int>>, r: int, c: int)
    requires IsGrid(board) && IsGrid(solution) && ValidSolution(solution)
    requires NoIncorrectBefore(board, solution, 9, 0)
    requires InGrid(r, c)
    ensures board[r][c] == 0 ==> solution[r][c] in CandidateSet(board, r, c) && Qualifies(board, r, c)
  {
    if board[r][c] == 0 {
      CorrectCellsAvoidDigit(board, solution, r, c);
      assert solution[r][c] in CandidateSet(board, r, c);
    }
  }

  /**
    With a valid solution and no incorrect entry, "no hint available" happens
    exactly when the board is the solution.
  */
  lemma NoHintIffSolved(board: seq<seq<int>>, solution: seq<seq<int>>)
    requires IsGrid(board) && IsGrid(solution) && ValidSolution(solution)
    requires NoIncorrectBefore(board, solution, 9, 0)
    ensures HintSpec(board, solution, None) <==> forall i, j | InGrid(i, j) :: board[i][j] == solution[i][j]
  {
    forall i, j | InGrid(i, j) ensures board[i][j] == 0 ==> Qualifies(board, i, j) {
      SolutionDigitIsCandidate(board, solution, i, j);
    }
  }
}
