/**
 * The walkability-aware path-count tables of the robot library:
 * `dptable_num_to` (paths from the top-left corner, together with its
 * "budget left" table) and `dptable_num_from` (paths to the bottom-right
 * corner).
 */
module RobotPathCount {
  import opened RobotGrid
  import opened Tables

  function Max(a: int, b: int): (m: int)
    ensures m >= a && m >= b && (m == a || m == b)
  {
    if a >= b then a else b
  }

  /** No cell of the grid is blocked. */
  predicate AllWalkable(g: Grid)
    requires IsMatrix(g)
  {
    forall r, c :: 0 <= r < |g| && 0 <= c < |g[0]| ==> g[r][c] != Unwalkable
  }

  /**
   * The count `dptable_num_to` stores at (i, j): 0 at a blocked cell, 1 at a
   * walkable origin, otherwise the sum of the counts of the in-range
   * predecessors (left, up and, with diagonal moves, up-left).
   */
  function NumTo(g: Grid, diag: bool, i: int, j: int): (n: int)
    requires IsMatrix(g) && 0 <= i < |g| && 0 <= j < |g[0]|
    ensures n >= 0
    decreases i + j
  {
    if g[i][j] == Unwalkable then 0
    else if i == 0 && j == 0 then 1
    else
      var left := if j > 0 then NumTo(g, diag, i, j - 1) else 0;
      var up := if i > 0 then NumTo(g, diag, i - 1, j) else 0;
      var corner := if diag && i > 0 && j > 0 then NumTo(g, diag, i - 1, j - 1) else 0;
      left + up + corner
  }

  /**
   * The "budget left" value `dptable_num_to` stores at (i, j): the budget at
   * the origin; elsewhere the larger of the left and upper values (0 when out
   * of range), one less at a blocked cell, where the diagonal neighbour also
   * competes (only there: a walkable cell ignores it). No entry exceeds the
   * budget, or 0 when the budget is negative (an out-of-range neighbour
   * counts as 0).
   */
  function BudgetLeft(g: Grid, budget: int, diag: bool, i: int, j: int): (v: int)
    requires IsMatrix(g) && 0 <= i < |g| && 0 <= j < |g[0]|
    ensures v <= Max(budget, 0)
    decreases i + j
  {
    if i == 0 && j == 0 then budget
    else
      var left := if j > 0 then BudgetLeft(g, budget, diag, i, j - 1) else 0;
      var up := if i > 0 then BudgetLeft(g, budget, diag, i - 1, j) else 0;
      if g[i][j] != Unwalkable then Max(left, up)
      else if diag && i > 0 && j > 0 then Max(Max(left, up), BudgetLeft(g, budget, diag, i - 1, j - 1)) - 1
      else Max(left, up) - 1
  }

  /** Cell (p, q) comes before (i, j) in row-major order. */
  predicate Before(p: int, q: int, i: int, j: int) {
    p < i || (p == i && q < j)
  }

  /**
   * `dptable_num_to`: fills the "budget left" table and the count table in
   * row-major order and returns the pair [t, b]. On the first row and column
   * the code reads index -1, which Python takes from the end of the list;
   * those entries are not written yet, so the reads give 0.
   */
  method DptableNumTo(grid: Grid, budget: int, diag: bool) returns (t: seq<seq<int>>, b: seq<seq<int>>)
    requires IsMatrix(grid)
    ensures |t| == |grid| && |b| == |grid|
    ensures forall i :: 0 <= i < |grid| ==> |t[i]| == |grid[0]| && |b[i]| == |grid[0]|
    ensures forall i, j :: 0 <= i < |grid| && 0 <= j < |grid[0]| ==>
      t[i][j] == NumTo(grid, diag, i, j) && b[i][j] == BudgetLeft(grid, budget, diag, i, j)
  {
    var rows, cols := |grid|, |grid[0]|;
    var bt := new int[rows, cols]((_, _) => 0);
    FillBudgetLeft(bt, grid, budget, diag);
    var tt := new int[rows, cols]((_, _) => 0);
    FillNumTo(tt, grid, diag);
    t, b := Snapshot2(tt), Snapshot2(bt);
  }

  /** The first double loop of `dptable_num_to`: the "budget left" table `b`. */
  method FillBudgetLeft(bt: array2<int>, grid: Grid, budget: int, diag: bool)
    requires IsMatrix(grid) && bt.Length0 == |grid| && bt.Length1 == |grid[0]|
    requires forall p, q :: 0 <= p < bt.Length0 && 0 <= q < bt.Length1 ==> bt[p, q] == 0
    modifies bt
    ensures forall p, q :: 0 <= p < bt.Length0 && 0 <= q < bt.Length1 ==>
      bt[p, q] == BudgetLeft(grid, budget, diag, p, q)
  {
    for i := 0 to |grid|
      invariant BudgetLeftDone(bt, grid, budget, diag, i, 0)
    {
      for j := 0 to |grid[0]|
        invariant BudgetLeftDone(bt, grid, budget, diag, i, j)
      {
        FillBudgetLeftCell(bt, grid, budget, diag, i, j);
      }
    }
  }

  /** The cells before (i, j) in row-major order hold `BudgetLeft`; the rest still hold 0. */
  ghost predicate BudgetLeftDone(bt: array2<int>, grid: Grid, budget: int, diag: bool, i: int, j: int)
    requires IsMatrix(grid)
    reads bt
  {
    bt.Length0 == |grid| && bt.Length1 == |grid[0]|
    && forall p, q :: 0 <= p < |grid| && 0 <= q < |grid[0]| ==>
      bt[p, q] == if Before(p, q, i, j) then BudgetLeft(grid, budget, diag, p, q) else 0
  }

  /** One cell of the "budget left" sweep. */
  method FillBudgetLeftCell(bt: array2<int>, grid: Grid, budget: int, diag: bool, i: int, j: int)
    requires IsMatrix(grid) && 0 <= i < |grid| && 0 <= j < |grid[0]|
    requires BudgetLeftDone(bt, grid, budget, diag, i, j)
    modifies bt
    ensures BudgetLeftDone(bt, grid, budget, diag, i, j + 1)
  {
    var rows, cols := |grid|, |grid[0]|;
    // b[i][j - 1] and b[i - 1][j], read the Python way
    var left, up := bt[i, PyIndex(j - 1, cols)], bt[PyIndex(i - 1, rows), j];
    assert left == if j > 0 then BudgetLeft(grid, budget, diag, i, j - 1) else 0;
    assert up == if i > 0 then BudgetLeft(grid, budget, diag, i - 1, j) else 0;
    var v;
    if i == 0 && j == 0 {
      v := budget;
    } else if diag {
      if i - 1 < 0 || j - 1 < 0 {
        if grid[i][j] != Unwalkable {
          v := Max(left, up);
        } else {
          v := Max(left, up) - 1;
        }
      } else {
        if grid[i][j] != Unwalkable {
          v := Max(left, up);
        } else {
          v := Max(Max(left, up), bt[i - 1, j - 1]) - 1;
        }
      }
    } else {
      if grid[i][j] != Unwalkable {
        v := Max(left, up);
      } else {
        v := Max(left, up) - 1;
      }
    }
    assert v == BudgetLeft(grid, budget, diag, i, j);
    bt[i, j] := v;
  }

  /** The second double loop of `dptable_num_to`: the count table `t`. */
  method FillNumTo(tt: array2<int>, grid: Grid, diag: bool)
    requires IsMatrix(grid) && tt.Length0 == |grid| && tt.Length1 == |grid[0]|
    requires forall p, q :: 0 <= p < tt.Length0 && 0 <= q < tt.Length1 ==> tt[p, q] == 0
    modifies tt
    ensures forall p, q :: 0 <= p < tt.Length0 && 0 <= q < tt.Length1 ==>
      tt[p, q] == NumTo(grid, diag, p, q)
  {
    for i := 0 to |grid|
      invariant NumToDone(tt, grid, diag, i, 0)
    {
      for j := 0 to |grid[0]|
        invariant NumToDone(tt, grid, diag, i, j)
      {
        FillNumToCell(tt, grid, diag, i, j);
      }
    }
  }

  /** The cells before (i, j) in row-major order hold `NumTo`; the rest still hold 0. */
  ghost predicate NumToDone(tt: array2<int>, grid: Grid, diag: bool, i: int, j: int)
    requires IsMatrix(grid)
    reads tt
  {
    tt.Length0 == |grid| && tt.Length1 == |grid[0]|
    && forall p, q :: 0 <= p < |grid| && 0 <= q < |grid[0]| ==>
      tt[p, q] == if Before(p, q, i, j) then NumTo(grid, diag, p, q) else 0
  }

  /** One cell of the count sweep: a blocked cell keeps its 0. */
  method FillNumToCell(tt: array2<int>, grid: Grid, diag: bool, i: int, j: int)
    requires IsMatrix(grid) && 0 <= i < |grid| && 0 <= j < |grid[0]|
    requires NumToDone(tt, grid, diag, i, j)
    modifies tt
    ensures NumToDone(tt, grid, diag, i, j + 1)
  {
    var rows, cols := |grid|, |grid[0]|;
    if Walkable(grid, (i, j)) {
      // t[i][j - 1] and t[i - 1][j], read the Python way
      var left, up := tt[i, PyIndex(j - 1, cols)], tt[PyIndex(i - 1, rows), j];
      assert left == if j > 0 then NumTo(grid, diag, i, j - 1) else 0;
      assert up == if i > 0 then NumTo(grid, diag, i - 1, j) else 0;
      var v;
      if i == 0 && j == 0 {
        v := 1;
      } else if diag {
        if i - 1 < 0 || j - 1 < 0 {
          v := left + up;
        } else {
          v := left + up + tt[i - 1, j - 1];
        }
      } else {
        v := left + up;
      }
      assert v == NumTo(grid, diag, i, j);
      tt[i, j] := v;
    }
  }

  /**
   * The count `dptable_num_from` stores at (i, j): 1 at the bottom-right
   * corner (walkable or not), 0 at any other blocked cell, otherwise the sum
   * over the in-range successors (right, down and, with diagonal moves,
   * down-right).
   */
  function NumFrom(g: Grid, diag: bool, i: int, j: int): (n: int)
    requires IsMatrix(g) && 0 <= i < |g| && 0 <= j < |g[0]|
    ensures n >= 0
    decreases (|g| - i) + (|g[0]| - j)
  {
    if i == |g| - 1 && j == |g[0]| - 1 then 1
    else if g[i][j] == Unwalkable then 0
    else if i == |g| - 1 then NumFrom(g, diag, i, j + 1)
    else if j == |g[0]| - 1 then NumFrom(g, diag, i + 1, j)
    else
      var right := NumFrom(g, diag, i, j + 1);
      var down := NumFrom(g, diag, i + 1, j);
      var corner := if diag then NumFrom(g, diag, i + 1, j + 1) else 0;
      right + down + corner
  }

  /** Which cells `dptable_num_from` has filled when its interior sweep is about to fill (i, j). */
  predicate FromDone(rows: int, cols: int, p: int, q: int, i: int, j: int) {
    p == rows - 1 || q == cols - 1 || p > i || (p == i && q >= j)
  }

  /**
   * `dptable_num_from`: the bottom-right corner, then the last row and the
   * last column from the end, then the rest in reverse row-major order.
   */
  method DptableNumFrom(g: Grid, diag: bool) returns (t: seq<seq<int>>)
    requires IsMatrix(g)
    ensures |t| == |g| && forall i :: 0 <= i < |g| ==> |t[i]| == |g[0]|
    ensures forall i, j :: 0 <= i < |g| && 0 <= j < |g[0]| ==> t[i][j] == NumFrom(g, diag, i, j)
  {
    var rows, cols := |g|, |g[0]|;
    var tt := new int[rows, cols]((_, _) => 0);
    tt[rows - 1, cols - 1] := 1;
    FillNumFromLastRow(tt, g, diag);
    FillNumFromLastCol(tt, g, diag);
    if diag {
      FillNumFromInteriorDiag(tt, g);
    } else {
      FillNumFromInteriorOrth(tt, g);
    }
    t := Snapshot2(tt);
  }

  /** The last row of `dptable_num_from`, swept from the end: a walkable cell copies its right neighbour. */
  method FillNumFromLastRow(tt: array2<int>, g: Grid, diag: bool)
    requires IsMatrix(g) && tt.Length0 == |g| && tt.Length1 == |g[0]|
    requires forall p, q :: 0 <= p < tt.Length0 && 0 <= q < tt.Length1 ==>
      tt[p, q] == if p == |g| - 1 && q == |g[0]| - 1 then 1 else 0
    modifies tt
    ensures forall p, q :: 0 <= p < tt.Length0 && 0 <= q < tt.Length1 ==>
      tt[p, q] == if p == |g| - 1 then NumFrom(g, diag, p, q) else 0
  {
    var rows, cols := |g|, |g[0]|;
    for i := cols - 1 downto 0
      invariant forall p, q :: 0 <= p < rows && 0 <= q < cols ==>
        tt[p, q] == if p == rows - 1 && q >= i then NumFrom(g, diag, p, q) else 0
    {
      if Walkable(g, (-1, i)) {
        tt[rows - 1, i] := tt[rows - 1, i + 1];
      }
    }
  }

  /** The last column of `dptable_num_from`, swept from the end: a walkable cell copies the cell below. */
  method FillNumFromLastCol(tt: array2<int>, g: Grid, diag: bool)
    requires IsMatrix(g) && tt.Length0 == |g| && tt.Length1 == |g[0]|
    requires forall p, q :: 0 <= p < tt.Length0 && 0 <= q < tt.Length1 ==>
      tt[p, q] == if p == |g| - 1 then NumFrom(g, diag, p, q) else 0
    modifies tt
    ensures forall p, q :: 0 <= p < tt.Length0 && 0 <= q < tt.Length1 ==>
      tt[p, q] == if p == |g| - 1 || q == |g[0]| - 1 then NumFrom(g, diag, p, q) else 0
  {
    var rows, cols := |g|, |g[0]|;
    for i := rows - 1 downto 0
      invariant forall p, q :: 0 <= p < rows && 0 <= q < cols ==>
        tt[p, q] == if p == rows - 1 || (q == cols - 1 && p >= i) then NumFrom(g, diag, p, q) else 0
    {
      if Walkable(g, (i, -1)) {
        tt[i, cols - 1] := tt[i + 1, cols - 1];
      }
    }
  }

  /** The interior sweep of `dptable_num_from` with diagonal moves: right + down + down-right. */
  method FillNumFromInteriorDiag(tt: array2<int>, g: Grid)
    requires IsMatrix(g) && tt.Length0 == |g| && tt.Length1 == |g[0]|
    requires forall p, q :: 0 <= p < tt.Length0 && 0 <= q < tt.Length1 ==>
      tt[p, q] == if p == |g| - 1 || q == |g[0]| - 1 then NumFrom(g, true, p, q) else 0
    modifies tt
    ensures forall p, q :: 0 <= p < tt.Length0 && 0 <= q < tt.Length1 ==> tt[p, q] == NumFrom(g, true, p, q)
  {
    var rows, cols := |g|, |g[0]|;
    for i := rows - 1 downto 0
      invariant forall p, q :: 0 <= p < rows && 0 <= q < cols ==>
        tt[p, q] == if FromDone(rows, cols, p, q, i, 0) then NumFrom(g, true, p, q) else 0
    {
      for j := cols - 1 downto 0
        invariant forall p, q :: 0 <= p < rows && 0 <= q < cols ==>
          tt[p, q] == if FromDone(rows, cols, p, q, i, j) then NumFrom(g, true, p, q) else 0
      {
        FillNumFromCellDiag(tt, g, i, j);
      }
    }
  }

  /** One cell of the interior sweep with diagonal moves. */
  method FillNumFromCellDiag(tt: array2<int>, g: Grid, i: int, j: int)
    requires IsMatrix(g) && tt.Length0 == |g| && tt.Length1 == |g[0]|
    requires 0 <= i < |g| - 1 && 0 <= j < |g[0]| - 1
    requires forall p, q :: 0 <= p < tt.Length0 && 0 <= q < tt.Length1 ==>
      tt[p, q] == if FromDone(|g|, |g[0]|, p, q, i, j + 1) then NumFrom(g, true, p, q) else 0
    modifies tt
    ensures forall p, q :: 0 <= p < tt.Length0 && 0 <= q < tt.Length1 ==>
      tt[p, q] == if FromDone(|g|, |g[0]|, p, q, i, j) then NumFrom(g, true, p, q) else 0
  {
    if Walkable(g, (i, j)) {
      var right, down, corner := tt[i, j + 1], tt[i + 1, j], tt[i + 1, j + 1];
      assert right == NumFrom(g, true, i, j + 1) && down == NumFrom(g, true, i + 1, j);
      assert corner == NumFrom(g, true, i + 1, j + 1);
      tt[i, j] := right + down + corner;
    }
  }

  /** The interior sweep of `dptable_num_from` without diagonal moves: right + down. */
  method FillNumFromInteriorOrth(tt: array2<int>, g: Grid)
    requires IsMatrix(g) && tt.Length0 == |g| && tt.Length1 == |g[0]|
    requires forall p, q :: 0 <= p < tt.Length0 && 0 <= q < tt.Length1 ==>
      tt[p, q] == if p == |g| - 1 || q == |g[0]| - 1 then NumFrom(g, false, p, q) else 0
    modifies tt
    ensures forall p, q :: 0 <= p < tt.Length0 && 0 <= q < tt.Length1 ==> tt[p, q] == NumFrom(g, false, p, q)
  {
    var rows, cols := |g|, |g[0]|;
    for i := rows - 1 downto 0
      invariant forall p, q :: 0 <= p < rows && 0 <= q < cols ==>
        tt[p, q] == if FromDone(rows, cols, p, q, i, 0) then NumFrom(g, false, p, q) else 0
    {
      for j := cols - 1 downto 0
        invariant forall p, q :: 0 <= p < rows && 0 <= q < cols ==>
          tt[p, q] == if FromDone(rows, cols, p, q, i, j) then NumFrom(g, false, p, q) else 0
      {
        FillNumFromCellOrth(tt, g, i, j);
      }
    }
  }

  /** One cell of the interior sweep without diagonal moves. */
  method FillNumFromCellOrth(tt: array2<int>, g: Grid, i: int, j: int)
    requires IsMatrix(g) && tt.Length0 == |g| && tt.Length1 == |g[0]|
    requires 0 <= i < |g| - 1 && 0 <= j < |g[0]| - 1
    requires forall p, q :: 0 <= p < tt.Length0 && 0 <= q < tt.Length1 ==>
      tt[p, q] == if FromDone(|g|, |g[0]|, p, q, i, j + 1) then NumFrom(g, false, p, q) else 0
    modifies tt
    ensures forall p, q :: 0 <= p < tt.Length0 && 0 <= q < tt.Length1 ==>
      tt[p, q] == if FromDone(|g|, |g[0]|, p, q, i, j) then NumFrom(g, false, p, q) else 0
  {
    if Walkable(g, (i, j)) {
      var v := tt[i, j + 1] + tt[i + 1, j];
      assert v == NumFrom(g, false, i, j);
      tt[i, j] := v;
    }
  }

  /** The binomial coefficient n choose k, by Pascal's rule. */
  function Binom(n: nat, k: nat): nat
    decreases n
  {
    if k > n then 0
    else if k == 0 || k == n then 1
    else Binom(n - 1, k - 1) + Binom(n - 1, k)
  }

  /**
   * On a grid without blocked cells and without diagonal moves, the number
   * of paths from the top-left corner to (i, j) is (i + j) choose i.
   */
  lemma {:induction false} NumToPascal(g: Grid, i: int, j: int)
    requires IsMatrix(g) && AllWalkable(g) && 0 <= i < |g| && 0 <= j < |g[0]|
    ensures NumTo(g, false, i, j) == Binom(i + j, i)
    decreases i + j
  {
    if j > 0 { NumToPascal(g, i, j - 1); }
    if i > 0 { NumToPascal(g, i - 1, j); }
  }

  /** Likewise the number of paths from (i, j) to the bottom-right corner. */
  lemma {:induction false} NumFromPascal(g: Grid, i: int, j: int)
    requires IsMatrix(g) && AllWalkable(g) && 0 <= i < |g| && 0 <= j < |g[0]|
    ensures NumFrom(g, false, i, j) == Binom((|g| - 1 - i) + (|g[0]| - 1 - j), |g| - 1 - i)
    decreases (|g| - i) + (|g[0]| - j)
  {
    if j < |g[0]| - 1 { NumFromPascal(g, i, j + 1); }
    if i < |g| - 1 { NumFromPascal(g, i + 1, j); }
  }

  /** A blocked cell (R-1, k) of the last row, other than the corner, leaves no path from any (R-1, j) with j <= k. */
  lemma {:induction false} NumFromCutOffRow(g: Grid, diag: bool, k: int, j: int)
    requires IsMatrix(g) && 0 <= j <= k < |g[0]| - 1 && g[|g| - 1][k] == Unwalkable
    ensures NumFrom(g, diag, |g| - 1, j) == 0
    decreases k - j
  {
    if j < k { NumFromCutOffRow(g, diag, k, j + 1); }
  }

  /** A blocked cell (k, C-1) of the last column, other than the corner, leaves no path from any (i, C-1) with i <= k. */
  lemma {:induction false} NumFromCutOffCol(g: Grid, diag: bool, k: int, i: int)
    requires IsMatrix(g) && 0 <= i <= k < |g| - 1 && g[k][|g[0]| - 1] == Unwalkable
    ensures NumFrom(g, diag, i, |g[0]| - 1) == 0
    decreases k - i
  {
    if i < k { NumFromCutOffCol(g, diag, k, i + 1); }
  }

  /** Without blocked cells nothing is ever taken from the budget. */
  lemma {:induction false} BudgetLeftAllWalkable(g: Grid, budget: int, diag: bool, i: int, j: int)
    requires IsMatrix(g) && AllWalkable(g) && budget >= 0 && 0 <= i < |g| && 0 <= j < |g[0]|
    ensures BudgetLeft(g, budget, diag, i, j) == budget
    decreases i + j
  {
    if j > 0 { BudgetLeftAllWalkable(g, budget, diag, i, j - 1); }
    if i > 0 { BudgetLeftAllWalkable(g, budget, diag, i - 1, j); }
  }

  /** Each step to (i, j) takes at most 1 from the budget. */
  lemma {:induction false} BudgetLeftAtLeast(g: Grid, budget: int, diag: bool, i: int, j: int)
    requires IsMatrix(g) && 0 <= i < |g| && 0 <= j < |g[0]|
    ensures BudgetLeft(g, budget, diag, i, j) >= budget - (i + j)
    decreases i + j
  {
    if j > 0 { BudgetLeftAtLeast(g, budget, diag, i, j - 1); }
    else if i > 0 { BudgetLeftAtLeast(g, budget, diag, i - 1, j); }
  }

  /** A larger budget leaves at least as much at every cell. */
  lemma {:induction false} BudgetLeftMonotone(g: Grid, b1: int, b2: int, diag: bool, i: int, j: int)
    requires IsMatrix(g) && b1 <= b2 && 0 <= i < |g| && 0 <= j < |g[0]|
    ensures BudgetLeft(g, b1, diag, i, j) <= BudgetLeft(g, b2, diag, i, j)
    decreases i + j
  {
    if j > 0 { BudgetLeftMonotone(g, b1, b2, diag, i, j - 1); }
    if i > 0 { BudgetLeftMonotone(g, b1, b2, diag, i - 1, j); }
    if i > 0 && j > 0 { BudgetLeftMonotone(g, b1, b2, diag, i - 1, j - 1); }
  }


  /**
   * Walkable paths from (i, j) to (m, n), counted by their last move: the
   * reference for `dptable_num_to`, which fixes (i, j) at the origin.
   */
  function Into(g: Grid, diag: bool, i: int, j: int, m: int, n: int): (k: int)
    requires IsMatrix(g) && 0 <= i <= m < |g| && 0 <= j <= n < |g[0]|
    ensures k >= 0
    decreases (m - i) + (n - j)
  {
    if g[m][n] == Unwalkable then 0
    else if m == i && n == j then 1
    else
      (if n > j then Into(g, diag, i, j, m, n - 1) else 0)
      + (if m > i then Into(g, diag, i, j, m - 1, n) else 0)
      + (if diag && m > i && n > j then Into(g, diag, i, j, m - 1, n - 1) else 0)
  }

  /**
   * Walkable paths from (i, j) to (m, n), counted by their first move: the
   * reference for `dptable_num_from`, which fixes (m, n) at the bottom-right corner.
   */
  function OutOf(g: Grid, diag: bool, i: int, j: int, m: int, n: int): (k: int)
    requires IsMatrix(g) && 0 <= i <= m < |g| && 0 <= j <= n < |g[0]|
    ensures k >= 0
    decreases (m - i) + (n - j)
  {
    if g[i][j] == Unwalkable then 0
    else if m == i && n == j then 1
    else
      (if n > j then OutOf(g, diag, i, j + 1, m, n) else 0)
      + (if m > i then OutOf(g, diag, i + 1, j, m, n) else 0)
      + (if diag && m > i && n > j then OutOf(g, diag, i + 1, j + 1, m, n) else 0)
  }

  /** `dptable_num_to` counts the walkable paths from the origin. */
  lemma {:induction false} NumToIsInto(g: Grid, diag: bool, m: int, n: int)
    requires IsMatrix(g) && 0 <= m < |g| && 0 <= n < |g[0]|
    ensures NumTo(g, diag, m, n) == Into(g, diag, 0, 0, m, n)
    decreases m + n
  {
    if n > 0 { NumToIsInto(g, diag, m, n - 1); }
    if m > 0 { NumToIsInto(g, diag, m - 1, n); }
    if m > 0 && n > 0 { NumToIsInto(g, diag, m - 1, n - 1); }
  }

  /** With a walkable bottom-right corner, `dptable_num_from` counts the walkable paths to it. */
  lemma {:induction false} NumFromIsOutOf(g: Grid, diag: bool, i: int, j: int)
    requires IsMatrix(g) && 0 <= i < |g| && 0 <= j < |g[0]| && g[|g| - 1][|g[0]| - 1] != Unwalkable
    ensures NumFrom(g, diag, i, j) == OutOf(g, diag, i, j, |g| - 1, |g[0]| - 1)
    decreases (|g| - i) + (|g[0]| - j)
  {
    if j < |g[0]| - 1 { NumFromIsOutOf(g, diag, i, j + 1); }
    if i < |g| - 1 { NumFromIsOutOf(g, diag, i + 1, j); }
    if i < |g| - 1 && j < |g[0]| - 1 { NumFromIsOutOf(g, diag, i + 1, j + 1); }
  }

  /** No path leaves a blocked cell. */
  lemma {:induction false} IntoBlockedSource(g: Grid, diag: bool, i: int, j: int, m: int, n: int)
    requires IsMatrix(g) && 0 <= i <= m < |g| && 0 <= j <= n < |g[0]| && g[i][j] == Unwalkable
    ensures Into(g, diag, i, j, m, n) == 0
    decreases (m - i) + (n - j)
  {
    if n > j { IntoBlockedSource(g, diag, i, j, m, n - 1); }
    if m > i { IntoBlockedSource(g, diag, i, j, m - 1, n); }
    if m > i && n > j { IntoBlockedSource(g, diag, i, j, m - 1, n - 1); }
  }

  /** Counting by last moves also splits on the first move. */
  lemma {:induction false} IntoFirstMove(g: Grid, diag: bool, i: int, j: int, m: int, n: int)
    requires IsMatrix(g) && 0 <= i <= m < |g| && 0 <= j <= n < |g[0]|
    requires (i, j) != (m, n) && g[i][j] != Unwalkable
    ensures Into(g, diag, i, j, m, n) ==
      (if n > j then Into(g, diag, i, j + 1, m, n) else 0)
      + (if m > i then Into(g, diag, i + 1, j, m, n) else 0)
      + (if diag && m > i && n > j then Into(g, diag, i + 1, j + 1, m, n) else 0)
    decreases (m - i) + (n - j)
  {
    if g[m][n] == Unwalkable {
    } else if m == i {
      if n - 1 != j { IntoFirstMove(g, diag, i, j, m, n - 1); }
    } else if n == j {
      if m - 1 != i { IntoFirstMove(g, diag, i, j, m - 1, n); }
    } else {
      IntoFirstMove(g, diag, i, j, m, n - 1);
      IntoFirstMove(g, diag, i, j, m - 1, n);
      if diag && (m - 1, n - 1) != (i, j) {
        IntoFirstMove(g, diag, i, j, m - 1, n - 1);
      }
      IntoFirstMoveRegroup(g, diag, i, j, m, n);
    }
  }

  /**
   * The interior step of `IntoFirstMove`: with the first-move split known
   * for the three cells before (m, n), it holds at (m, n).
   */
  lemma IntoFirstMoveRegroup(g: Grid, diag: bool, i: int, j: int, m: int, n: int)
    requires IsMatrix(g) && 0 <= i < m < |g| && 0 <= j < n < |g[0]|
    requires g[i][j] != Unwalkable && g[m][n] != Unwalkable
    requires Into(g, diag, i, j, m, n - 1) ==
      (if n - 1 > j then Into(g, diag, i, j + 1, m, n - 1) else 0)
      + Into(g, diag, i + 1, j, m, n - 1)
      + (if diag && n - 1 > j then Into(g, diag, i + 1, j + 1, m, n - 1) else 0)
    requires Into(g, diag, i, j, m - 1, n) ==
      Into(g, diag, i, j + 1, m - 1, n)
      + (if m - 1 > i then Into(g, diag, i + 1, j, m - 1, n) else 0)
      + (if diag && m - 1 > i then Into(g, diag, i + 1, j + 1, m - 1, n) else 0)
    requires diag && (m - 1, n - 1) != (i, j) ==>
      (Into(g, diag, i, j, m - 1, n - 1) ==
        (if n - 1 > j then Into(g, diag, i, j + 1, m - 1, n - 1) else 0)
        + (if m - 1 > i then Into(g, diag, i + 1, j, m - 1, n - 1) else 0)
        + (if m - 1 > i && n - 1 > j then Into(g, diag, i + 1, j + 1, m - 1, n - 1) else 0))
    ensures Into(g, diag, i, j, m, n) ==
      Into(g, diag, i, j + 1, m, n) + Into(g, diag, i + 1, j, m, n)
      + (if diag then Into(g, diag, i + 1, j + 1, m, n) else 0)
  {
    var right := Into(g, diag, i, j + 1, m, n);
    var down := Into(g, diag, i + 1, j, m, n);
    assert right == (if n > j + 1 then Into(g, diag, i, j + 1, m, n - 1) else 0)
      + Into(g, diag, i, j + 1, m - 1, n)
      + (if diag && n > j + 1 then Into(g, diag, i, j + 1, m - 1, n - 1) else 0);
    assert down == Into(g, diag, i + 1, j, m, n - 1)
      + (if m > i + 1 then Into(g, diag, i + 1, j, m - 1, n) else 0)
      + (if diag && m > i + 1 then Into(g, diag, i + 1, j, m - 1, n - 1) else 0);
    if diag {
      var corner := Into(g, diag, i + 1, j + 1, m, n);
      if (m - 1, n - 1) == (i, j) {
        assert corner == 1 && Into(g, diag, i, j, m - 1, n - 1) == 1;
      } else {
        assert corner == (if n > j + 1 then Into(g, diag, i + 1, j + 1, m, n - 1) else 0)
          + (if m > i + 1 then Into(g, diag, i + 1, j + 1, m - 1, n) else 0)
          + (if m > i + 1 && n > j + 1 then Into(g, diag, i + 1, j + 1, m - 1, n - 1) else 0);
      }
    }
  }

  /** Both ways of counting give the same number of paths. */
  lemma {:induction false} IntoIsOutOf(g: Grid, diag: bool, i: int, j: int, m: int, n: int)
    requires IsMatrix(g) && 0 <= i <= m < |g| && 0 <= j <= n < |g[0]|
    ensures Into(g, diag, i, j, m, n) == OutOf(g, diag, i, j, m, n)
    decreases (m - i) + (n - j)
  {
    if g[i][j] == Unwalkable {
      IntoBlockedSource(g, diag, i, j, m, n);
    } else if (i, j) != (m, n) {
      IntoFirstMove(g, diag, i, j, m, n);
      if n > j { IntoIsOutOf(g, diag, i, j + 1, m, n); }
      if m > i { IntoIsOutOf(g, diag, i + 1, j, m, n); }
      if diag && m > i && n > j { IntoIsOutOf(g, diag, i + 1, j + 1, m, n); }
    }
  }

  /**
   * With both corners walkable, the paths counted forward into the
   * bottom-right corner are the paths counted backward from the origin.
   */
  lemma NumToNumFrom(g: Grid, diag: bool)
    requires IsMatrix(g) && g[0][0] != Unwalkable && g[|g| - 1][|g[0]| - 1] != Unwalkable
    ensures NumTo(g, diag, |g| - 1, |g[0]| - 1) == NumFrom(g, diag, 0, 0)
  {
    NumToIsInto(g, diag, |g| - 1, |g[0]| - 1);
    NumFromIsOutOf(g, diag, 0, 0);
    IntoIsOutOf(g, diag, 0, 0, |g| - 1, |g[0]| - 1);
  }

  /** Every walkable path from the origin is counted: `dptable_num_to` is positive at its last cell. */
  lemma {:induction false} NumToCountsPaths(g: Grid, diag: bool, path: seq<Cell>)
    requires IsMatrix(g) && |path| > 0 && OnGrid(g, path) && Feasible(path, diag) && path[0] == (0, 0)
    requires forall k :: 0 <= k < |path| ==> g[path[k].0][path[k].1] != Unwalkable
    ensures NumTo(g, diag, path[|path| - 1].0, path[|path| - 1].1) > 0
    decreases |path|
  {
    if |path| > 1 {
      var front := path[..|path| - 1];
      FeasibleSlice(path, diag, 0, |path| - 1);
      assert OnGrid(g, front) && front[0] == path[0] && front[|front| - 1] == path[|path| - 2];
      NumToCountsPaths(g, diag, front);
      assert CheckCellContiguity(path[|path| - 2], path[|path| - 1], diag);
    }
  }
}
