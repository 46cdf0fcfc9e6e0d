/**
 * The grid model of the robot library: cells, weights, walkability, the
 * per-cell value and cost, the shape and budget validators, and the move
 * model (which pairs of cells one step may join).
 */
module RobotGrid {

  /** A cell (row, col), counted from 0. */
  type Cell = (int, int)

  /** A grid of signed cell weights, one sequence per row. */
  type Grid = seq<seq<int>>

  /** The weight of a cell that cannot be traversed. */
  const Unwalkable: int := -1

  /** Largest budget (exclusive) accepted by the budget validator. */
  const BudgetCap: int := 100

  /**
   * How Python reads an index `k` into a list of length `n`: a negative
   * index counts from the end.
   */
  function PyIndex(k: int, n: int): (r: int)
    requires -n <= k < n
    ensures 0 <= r < n
    ensures r == k || r == k + n
    ensures k >= 0 ==> r == k
  {
    if k < 0 then k + n else k
  }

  /** A non-empty rectangular grid: every row as long as the first, which is not empty. */
  predicate IsMatrix(g: Grid) {
    |g| > 0 && |g[0]| > 0 && forall r :: 0 <= r < |g| ==> |g[r]| == |g[0]|
  }

  /** The cell lies inside the rectangular grid `g`. */
  predicate InGrid(g: Grid, cell: Cell)
    requires IsMatrix(g)
  {
    0 <= cell.0 < |g| && 0 <= cell.1 < |g[0]|
  }

  /**
   * `check_matrix_shape`: false for an empty grid or an empty first row,
   * otherwise true exactly when every row is as long as the first.
   */
  method CheckMatrixShape(f: Grid) returns (ok: bool)
    ensures |f| == 0 ==> !ok
    ensures |f| > 0 && |f[0]| == 0 ==> !ok
    ensures |f| > 0 && |f[0]| > 0 ==> (ok <==> forall r :: 0 <= r < |f| ==> |f[r]| == |f[0]|)
    ensures ok <==> IsMatrix(f)
  {
    if |f| == 0 {
      return false;
    }
    var cols := |f[0]|;
    if cols == 0 {
      return false;
    }
    for i := 0 to |f|
      invariant forall r :: 0 <= r < i ==> |f[r]| == cols
    {
      if |f[i]| != cols {
        return false;
      }
    }
    return true;
  }

  /** `check_budget_bounds`: the budget lies strictly between 0 and 100. */
  predicate CheckBudgetBounds(budget: int) {
    0 < budget < BudgetCap
  }

  /** `shape`: (number of rows, length of the first row); the source indexes `grid[0]`, so it needs a row. */
  function Shape(grid: Grid): (s: (int, int))
    requires |grid| > 0
    ensures s.0 > 0 && s.0 == |grid|
    ensures s.1 >= 0 && s.1 == |grid[0]|
  {
    (|grid|, |grid[0]|)
  }

  /** `check_contains_cell`: the coordinates fall inside the shape of the grid. */
  function CheckContainsCell(grid: Grid, cell: Cell): (ok: bool)
    requires |grid| > 0
    ensures ok <==> 0 <= cell.0 < |grid| && 0 <= cell.1 < |grid[0]|
    ensures ok && IsMatrix(grid) ==> InGrid(grid, cell) && PyIndex(cell.0, |grid|) == cell.0
  {
    var (rows, cols) := Shape(grid);
    0 <= cell.0 < rows && 0 <= cell.1 < cols
  }

  /**
   * `walkable`: the cell's weight is not the blocked marker. Coordinates are
   * read the Python way, so `(-1, i)` names a cell of the last row.
   */
  predicate Walkable(g: Grid, cell: Cell)
    requires IsMatrix(g)
    requires -|g| <= cell.0 < |g| && -|g[0]| <= cell.1 < |g[0]|
  {
    g[PyIndex(cell.0, |g|)][PyIndex(cell.1, |g[0]|)] != Unwalkable
  }

  /** `value`: what a cell pays, max(weight, 0). */
  function Value(x: int): (v: int)
    ensures v >= 0 && v >= x
    ensures v == x || v == 0
  {
    if x > 0 then x else 0
  }

  /** `cost`: what a cell charges to the budget, max(-weight, 0). */
  function Cost(x: int): (c: int)
    ensures c >= 0 && c >= -x
    ensures c == -x || c == 0
  {
    if -x > 0 then -x else 0
  }

  /** A weight splits into its value and its cost, and at most one of them is non-zero. */
  lemma ValueCostSplit(x: int)
    ensures Value(x) - Cost(x) == x
    ensures Value(x) == 0 || Cost(x) == 0
    ensures x == Unwalkable ==> Value(x) == 0 && Cost(x) == 1
  {
  }

  /** `build_cost_table`: the grid of per-cell costs, of the grid's own shape. */
  function BuildCostTable(g: Grid): (costs: Grid)
    requires IsMatrix(g)
    ensures IsMatrix(costs) && |costs| == |g| && |costs[0]| == |g[0]|
    ensures forall r, c :: 0 <= r < |g| && 0 <= c < |g[0]| ==> costs[r][c] == Cost(g[r][c]) && costs[r][c] >= 0
  {
    seq(|g|, r requires 0 <= r < |g| => seq(|g[0]|, c requires 0 <= c < |g[0]| => Cost(g[r][c])))
  }

  /** The offsets (drow, dcol) of one move: down, right and, when allowed, diagonal. */
  function MoveOffsets(diag: bool): set<(int, int)> {
    if diag then {(1, 0), (0, 1), (1, 1)} else {(1, 0), (0, 1)}
  }

  /**
   * `check_cell_contiguity`: `c1` is reached from `c0` by one move, that is
   * their difference is a move offset.
   */
  function CheckCellContiguity(c0: Cell, c1: Cell, diag: bool): (ok: bool)
    ensures ok <==> (c1.0 - c0.0, c1.1 - c0.1) in MoveOffsets(diag)
  {
    if c1.0 == c0.0 + 1 && c1.1 == c0.1 then
      true
    else if c1.0 == c0.0 && c1.1 == c0.1 + 1 then
      true
    else if diag && c1.0 == c0.0 + 1 && c1.1 == c0.1 + 1 then
      true
    else
      false
  }

  /** Every consecutive pair of the path is one move apart. */
  predicate Feasible(path: seq<Cell>, diag: bool) {
    forall i :: 0 <= i < |path| - 1 ==> CheckCellContiguity(path[i], path[i + 1], diag)
  }

  /**
   * `check_path_feasible`: true exactly when every consecutive pair is
   * contiguous, so every path of length 0 or 1 passes.
   */
  method CheckPathFeasible(path: seq<Cell>, diag: bool) returns (ok: bool)
    ensures |path| <= 1 ==> ok
    ensures ok <==> forall i :: 0 <= i < |path| - 1 ==> (path[i + 1].0 - path[i].0, path[i + 1].1 - path[i].1) in MoveOffsets(diag)
    ensures ok <==> Feasible(path, diag)
  {
    for i := 0 to if |path| > 0 then |path| - 1 else 0
      invariant forall k :: 0 <= k < i ==> CheckCellContiguity(path[k], path[k + 1], diag)
    {
      if !CheckCellContiguity(path[i], path[i + 1], diag) {
        return false;
      }
    }
    return true;
  }

  /** Every cell of the path lies on the grid. */
  predicate OnGrid(g: Grid, path: seq<Cell>)
    requires IsMatrix(g)
  {
    forall k :: 0 <= k < |path| ==> InGrid(g, path[k])
  }

  /** Every stretch of consecutive cells of a feasible path is feasible. */
  lemma FeasibleSlice(path: seq<Cell>, diag: bool, lo: int, hi: int)
    requires Feasible(path, diag) && 0 <= lo <= hi <= |path|
    ensures Feasible(path[lo..hi], diag)
  {
    var part := path[lo..hi];
    forall i | 0 <= i < |part| - 1
      ensures CheckCellContiguity(part[i], part[i + 1], diag)
    {
      assert part[i] == path[lo + i] && part[i + 1] == path[lo + i + 1];
    }
  }

  /** A feasible path stays feasible when extended by one move. */
  lemma FeasibleExtend(path: seq<Cell>, next: Cell, diag: bool)
    requires |path| > 0 && Feasible(path, diag) && CheckCellContiguity(path[|path| - 1], next, diag)
    ensures Feasible(path + [next], diag)
  {
    var q := path + [next];
    forall i | 0 <= i < |q| - 1
      ensures CheckCellContiguity(q[i], q[i + 1], diag)
    {
      if i < |path| - 1 {
        assert q[i] == path[i] && q[i + 1] == path[i + 1];
      }
    }
  }

  /**
   * How far a feasible path travels: each move advances the row by at most
   * one, the column by at most one, and the two together by at least one
   * (exactly one without diagonal moves).
   */
  lemma {:induction false} FeasibleSpan(path: seq<Cell>, diag: bool)
    requires |path| > 0 && Feasible(path, diag)
    ensures var dr, dc := path[|path| - 1].0 - path[0].0, path[|path| - 1].1 - path[0].1;
      0 <= dr <= |path| - 1 && 0 <= dc <= |path| - 1 && |path| - 1 <= dr + dc
      && (!diag ==> dr + dc == |path| - 1)
  {
    if |path| > 1 {
      var front := path[..|path| - 1];
      FeasibleSlice(path, diag, 0, |path| - 1);
      FeasibleSpan(front, diag);
      assert CheckCellContiguity(path[|path| - 2], path[|path| - 1], diag);
    }
  }

  /**
   * A feasible path from the top-left to the bottom-right corner of an
   * R x C grid has between max(R, C) and R + C - 1 cells, exactly R + C - 1
   * without diagonal moves.
   */
  lemma CornerPathLength(path: seq<Cell>, rows: int, cols: int, diag: bool)
    requires rows > 0 && cols > 0
    requires |path| > 0 && Feasible(path, diag)
    requires path[0] == (0, 0) && path[|path| - 1] == (rows - 1, cols - 1)
    ensures rows <= |path| && cols <= |path| && |path| <= rows + cols - 1
    ensures !diag ==> |path| == rows + cols - 1
  {
    FeasibleSpan(path, diag);
  }
}
