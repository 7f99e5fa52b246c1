/**
 * The grid and the move rules of SearchGraph (planpath.py): the operator
 * table, the diagonal test, the move cost, the ridge test, the goal test and
 * the heuristic.  They only read the map `MAP`, here an `array2<char>`, and
 * the goal coordinates.
 */
module Moves {

  /** A grid cell (row, column). */
  type Cell = (int, int)

  /** `MAP` has as many columns as rows. */
  predicate IsSquare(grid: array2<char>) {
    grid.Length0 == grid.Length1
  }

  predicate InGrid(grid: array2<char>, x: int, y: int) {
    0 <= x < grid.Length0 && 0 <= y < grid.Length1
  }

  /** One of the eight neighbour offsets, (0, 0) excluded. */
  predicate IsOffset(i: int, j: int) {
    -1 <= i <= 1 && -1 <= j <= 1 && (i != 0 || j != 0)
  }

  /** `ACTIONS`, indexed by (row offset + 1, column offset + 1). */
  const ACTIONS: seq<seq<string>> := [["LU", "U", "RU"], ["L", "O", "R"], ["LD", "D", "RD"]]

  /** The label `ACTIONS[i + 1][j + 1]` of the move by offset (i, j). */
  function Label(i: int, j: int): string
    requires -1 <= i <= 1 && -1 <= j <= 1
  {
    ACTIONS[i + 1][j + 1]
  }

  /** The offsets in the order expand's two nested loops visit them. */
  const OFFSETS: seq<Cell> := [(-1, -1), (-1, 0), (-1, 1), (0, -1), (0, 1), (1, -1), (1, 0), (1, 1)]

  /** check_diagonal: true for the four corner offsets (Python returns None, i.e. false, otherwise). */
  function CheckDiagonal(i: int, j: int): (r: bool)
    ensures r <==> Abs(i) == 1 && Abs(j) == 1
  {
    (i == -1 && j == -1) || (i == -1 && j == 1) || (i == 1 && j == -1) || (i == 1 && j == 1)
  }

  /** get_cost: a diagonal step costs 1, a straight step 2. */
  function GetCost(diagonal: bool): (r: nat)
    ensures 1 <= r <= 2 && (r == 1 <==> diagonal)
  {
    if diagonal then 1 else 2
  }

  /**
   * check_ridge, as written: the target is blocked, or (diagonal moves only)
   * one of its four neighbours that is in the grid and is not two rows or
   * two columns away from the current cell is blocked.
   */
  function CheckRidge(grid: array2<char>, currentX: int, currentY: int, newX: int, newY: int, diagonal: bool): (r: bool)
    reads grid
    requires IsSquare(grid) && InGrid(grid, newX, newY)
    ensures grid[newX, newY] == 'X' ==> r
    ensures !diagonal ==> (r <==> grid[newX, newY] == 'X')
    ensures r ==>
      grid[newX, newY] == 'X' ||
      (newX > 0 && grid[newX - 1, newY] == 'X') || (newX + 1 < grid.Length0 && grid[newX + 1, newY] == 'X') ||
      (newY > 0 && grid[newX, newY - 1] == 'X') || (newY + 1 < grid.Length1 && grid[newX, newY + 1] == 'X')
  {
    var n := grid.Length0;
    if grid[newX, newY] == 'X' then true
    else if diagonal && newX - 1 >= 0 && newX - 1 != currentX - 2 && grid[newX - 1, newY] == 'X' then true
    else if diagonal && newX + 1 < n && newX + 1 != currentX + 2 && grid[newX + 1, newY] == 'X' then true
    else if diagonal && newY - 1 >= 0 && newY - 1 != currentY - 2 && grid[newX, newY - 1] == 'X' then true
    else if diagonal && newY + 1 < n && newY + 1 != currentY + 2 && grid[newX, newY + 1] == 'X' then true
    else false
  }

  /** check_goal: the cell holds 'G'. */
  function CheckGoal(grid: array2<char>, x: int, y: int): (r: bool)
    reads grid
    requires InGrid(grid, x, y)
    ensures r <==> grid[x, y] == 'G'
  {
    grid[x, y] == 'G'
  }

  function Abs(x: int): nat {
    if x < 0 then -x else x
  }

  function Max(a: int, b: int): int {
    if a < b then b else a
  }

  /** heuristic: Chebyshev distance from (x, y) to the stored `GOAL_COORD`. */
  function Heuristic(goalRow: int, goalCol: int, x: int, y: int): (r: int)
    ensures Abs(x - goalRow) <= r && Abs(y - goalCol) <= r
    ensures r == Abs(x - goalRow) || r == Abs(y - goalCol)
    ensures r == 0 <==> x == goalRow && y == goalCol
  {
    Max(Abs(x - goalRow), Abs(y - goalCol))
  }

  /** A step from cell `a` to cell `b` that expand accepts: a neighbour, in the grid, not across a ridge. */
  predicate LegalMove(grid: array2<char>, a: Cell, b: Cell)
    reads grid
    requires IsSquare(grid)
  {
    IsOffset(b.0 - a.0, b.1 - a.1) && InGrid(grid, b.0, b.1) &&
    !CheckRidge(grid, a.0, a.1, b.0, b.1, CheckDiagonal(b.0 - a.0, b.1 - a.1))
  }

  /**
   * For a move by offset (i, j) out of an in-grid cell, check_ridge rejects
   * exactly when the target is blocked or, for a diagonal move, one of the
   * two cells the move cuts across, (cx, cy + j) and (cx + i, cy), is.
   */
  lemma RidgeBridges(grid: array2<char>, cx: int, cy: int, i: int, j: int)
    requires IsSquare(grid) && InGrid(grid, cx, cy) && IsOffset(i, j) && InGrid(grid, cx + i, cy + j)
    ensures CheckRidge(grid, cx, cy, cx + i, cy + j, CheckDiagonal(i, j)) <==>
      grid[cx + i, cy + j] == 'X' ||
      (i != 0 && j != 0 && (grid[cx, cy + j] == 'X' || grid[cx + i, cy] == 'X'))
  {
    if i != 0 && j != 0 {
      assert CheckDiagonal(i, j);
      if i == 1 && j == 1 {
        assert CheckRidge(grid, cx, cy, cx + i, cy + j, true) <==>
          grid[cx + 1, cy + 1] == 'X' || grid[cx, cy + 1] == 'X' || grid[cx + 1, cy] == 'X';
      } else if i == 1 && j == -1 {
        assert CheckRidge(grid, cx, cy, cx + i, cy + j, true) <==>
          grid[cx + 1, cy - 1] == 'X' || grid[cx, cy - 1] == 'X' || grid[cx + 1, cy] == 'X';
      } else if i == -1 && j == 1 {
        assert CheckRidge(grid, cx, cy, cx + i, cy + j, true) <==>
          grid[cx - 1, cy + 1] == 'X' || grid[cx, cy + 1] == 'X' || grid[cx - 1, cy] == 'X';
      } else {
        assert CheckRidge(grid, cx, cy, cx + i, cy + j, true) <==>
          grid[cx - 1, cy - 1] == 'X' || grid[cx, cy - 1] == 'X' || grid[cx - 1, cy] == 'X';
      }
    }
  }

  /** Among the eight offsets, the diagonal ones are those that change both coordinates; they cost 1, the others 2. */
  lemma DiagonalMoves(i: int, j: int)
    requires IsOffset(i, j)
    ensures CheckDiagonal(i, j) <==> i != 0 && j != 0
    ensures GetCost(CheckDiagonal(i, j)) == if i != 0 && j != 0 then 1 else 2
  {
  }

  /** OFFSETS holds eight neighbour offsets. */
  lemma OffsetsValid()
    ensures |OFFSETS| == 8 && forall t | 0 <= t < 8 :: IsOffset(OFFSETS[t].0, OFFSETS[t].1)
  {
  }

  /** The offsets expand visits are exactly the eight neighbours. */
  lemma OffsetsCover()
    ensures forall i, j :: IsOffset(i, j) <==> (i, j) in OFFSETS
  {
    forall i, j | IsOffset(i, j)
      ensures (i, j) in OFFSETS
    {
      assert (i, j) == OFFSETS[if i == -1 then j + 1 else if i == 0 then (if j == -1 then 3 else 4) else j + 6];
    }
  }

  /** expand visits the offsets in row-major order. */
  lemma OffsetsRowMajor()
    ensures forall t | 0 <= t < 7 ::
      (OFFSETS[t].0 < OFFSETS[t + 1].0 || (OFFSETS[t].0 == OFFSETS[t + 1].0 && OFFSETS[t].1 < OFFSETS[t + 1].1))
  {
  }

  /** The labels of the moves, in the order expand tries them: LU, U, RU, L, R, LD, D, RD. */
  lemma OffsetLabels()
    ensures seq(8, t requires 0 <= t < 8 => Label(OFFSETS[t].0, OFFSETS[t].1)) ==
      ["LU", "U", "RU", "L", "R", "LD", "D", "RD"]
  {
  }

  /**
   * GOAL_COORD[0] holds the goal's row plus one, so the heuristic is zero at
   * no cell of the goal's row: at the goal it is 1, and everywhere it is
   * within 1 of the Chebyshev distance to the goal itself.
   */
  lemma HeuristicOffByOne(goalRow: int, goalCol: int, x: int, y: int)
    requires goalRow >= 1
    ensures Heuristic(goalRow, goalCol, goalRow - 1, goalCol) == 1
    ensures Heuristic(goalRow, goalCol, x, y) != 0 || x != goalRow - 1
    ensures -1 <= Heuristic(goalRow, goalCol, x, y) - Heuristic(goalRow - 1, goalCol, x, y) <= 1
  {
  }

  /**
   * The heuristic never drops by more than a move costs, so along any
   * accepted move `f` never decreases.
   */
  lemma HeuristicConsistent(goalRow: int, goalCol: int, x: int, y: int, i: int, j: int)
    requires IsOffset(i, j)
    ensures Heuristic(goalRow, goalCol, x, y) <= GetCost(CheckDiagonal(i, j)) + Heuristic(goalRow, goalCol, x + i, y + j)
    ensures Heuristic(goalRow, goalCol, x, y) - 1 <= Heuristic(goalRow, goalCol, x + i, y + j) <= Heuristic(goalRow, goalCol, x, y) + 1
  {
  }
}
