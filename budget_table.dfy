/**
 * `dptable_num_to_with_budget`: path counts from the top-left corner,
 * layered by the budget spent. The table is filled by pushing each cell's
 * counts forward to its successors, as the Python code does with `+=`.
 *
 * The code never tests walkability and does not charge the origin's cost.
 * Its interior sweep charges the cost of the cell a move enters, while the
 * sweeps along the last column and the last row charge the cost of the cell
 * the move leaves; the model keeps both charges.
 */
module RobotBudgetCount {
  import opened RobotGrid
  import opened Tables
  import RobotPathCount

  /** The three moves, named by the direction they come from into a cell. */
  datatype Move = Down | Right | Diagonal

  /** The cell a move into (r, c) leaves. */
  function Source(m: Move, r: int, c: int): Cell {
    match m
    case Down => (r - 1, c)
    case Right => (r, c - 1)
    case Diagonal => (r - 1, c - 1)
  }

  /** The move into (r, c) exists: its source is on the grid and, for a diagonal move, diagonal moves are on. */
  predicate HasMove(diag: bool, m: Move, r: int, c: int) {
    match m
    case Down => r >= 1
    case Right => c >= 1
    case Diagonal => diag && r >= 1 && c >= 1
  }

  /** The move is made by the interior sweep (rows and columns but the last ones). */
  predicate InteriorMove(g: Grid, m: Move, r: int, c: int)
    requires IsMatrix(g)
  {
    match m
    case Down => c < |g[0]| - 1
    case Right => r < |g| - 1
    case Diagonal => true
  }

  /**
   * What the move into (r, c) charges: the entered cell's cost in the
   * interior sweep, the left cell's cost in the last-column and last-row sweeps.
   */
  function Charge(g: Grid, m: Move, r: int, c: int): (k: int)
    requires IsMatrix(g) && InGrid(g, (r, c))
    requires HasMove(true, m, r, c)
    ensures k >= 0
  {
    if InteriorMove(g, m, r, c) then Cost(g[r][c])
    else var s := Source(m, r, c); Cost(g[s.0][s.1])
  }

  /** The paths counted in layer L of (r, c) whose last move is `m`. */
  function MoveIn(g: Grid, diag: bool, m: Move, L: int, r: int, c: int): (n: int)
    requires IsMatrix(g) && InGrid(g, (r, c)) && L >= 0
    ensures n >= 0
    decreases r + c, 0
  {
    if HasMove(diag, m, r, c) && L - Charge(g, m, r, c) >= 0 then
      var s := Source(m, r, c);
      Layers(g, diag, L - Charge(g, m, r, c), s.0, s.1)
    else
      0
  }

  /**
   * The count the finished table holds in layer L at (r, c): 1 in layer 0 of
   * the origin, elsewhere the sum over the moves into the cell of the
   * source's count in the layer L minus the move's charge. The value does
   * not depend on the budget: a larger budget only adds layers.
   */
  function Layers(g: Grid, diag: bool, L: int, r: int, c: int): (n: int)
    requires IsMatrix(g) && InGrid(g, (r, c)) && L >= 0
    ensures n >= 0
    decreases r + c, 1
  {
    if r == 0 && c == 0 then (if L == 0 then 1 else 0)
    else MoveIn(g, diag, Down, L, r, c) + MoveIn(g, diag, Right, L, r, c) + MoveIn(g, diag, Diagonal, L, r, c)
  }

  /** How far the three sweeps have got. */
  datatype Stage =
    | Interior(i: int, j: int)   // interior sweep, about to push from (i, j)
    | LastCol(i: int)            // last-column sweep, about to push from row i
    | LastRow(j: int)            // last-row sweep, about to push from column j

  /** The move into (r, c) has already been pushed at the given stage. */
  predicate Pushed(g: Grid, m: Move, r: int, c: int, st: Stage)
    requires IsMatrix(g)
  {
    var s := Source(m, r, c);
    match st
    case Interior(i, j) => InteriorMove(g, m, r, c) && RobotPathCount.Before(s.0, s.1, i, j)
    case LastCol(i) => InteriorMove(g, m, r, c) || (m == Down && s.0 < i)
    case LastRow(j) => InteriorMove(g, m, r, c) || m == Down || s.1 < j
  }

  /** What the table holds at a given stage: the origin's 1 plus every contribution pushed so far. */
  function Partial(g: Grid, diag: bool, L: int, r: int, c: int, st: Stage): int
    requires IsMatrix(g) && InGrid(g, (r, c)) && L >= 0
  {
    (if r == 0 && c == 0 && L == 0 then 1 else 0)
    + (if Pushed(g, Down, r, c, st) then MoveIn(g, diag, Down, L, r, c) else 0)
    + (if Pushed(g, Right, r, c, st) then MoveIn(g, diag, Right, L, r, c) else 0)
    + (if Pushed(g, Diagonal, r, c, st) then MoveIn(g, diag, Diagonal, L, r, c) else 0)
  }

  /** The table has the grid's shape under its layers and holds `Partial` at stage `st`. */
  ghost predicate TableAt(t: array3<int>, g: Grid, diag: bool, st: Stage)
    requires IsMatrix(g)
    reads t
  {
    t.Length1 == |g| && t.Length2 == |g[0]|
    && forall L, r, c :: 0 <= L < t.Length0 && 0 <= r < t.Length1 && 0 <= c < t.Length2 ==>
      t[L, r, c] == Partial(g, diag, L, r, c, st)
  }

  /** Once every move is pushed, the table holds `Layers`. */
  lemma FinishedIsLayers(g: Grid, diag: bool, L: int, r: int, c: int)
    requires IsMatrix(g) && InGrid(g, (r, c)) && L >= 0
    ensures Partial(g, diag, L, r, c, LastRow(|g[0]| - 1)) == Layers(g, diag, L, r, c)
  {
  }

  /** When a sweep reaches a cell, every move into that cell has been pushed. */
  lemma SourceReady(g: Grid, diag: bool, L: int, r: int, c: int, st: Stage)
    requires IsMatrix(g) && InGrid(g, (r, c)) && L >= 0
    requires st == Interior(r, c) || st == LastCol(r) || st == LastRow(c)
    requires st.Interior? ==> r < |g| - 1 && c < |g[0]| - 1
    requires st.LastCol? ==> c == |g[0]| - 1 && r < |g| - 1
    requires st.LastRow? ==> r == |g| - 1 && c < |g[0]| - 1
    ensures Partial(g, diag, L, r, c, st) == Layers(g, diag, L, r, c)
  {
  }

  /** Pushing from interior cell (row, col) adds exactly the moves out of it. */
  lemma InteriorStep(g: Grid, diag: bool, L: int, r: int, c: int, row: int, col: int)
    requires IsMatrix(g) && InGrid(g, (r, c)) && L >= 0
    requires 0 <= row < |g| - 1 && 0 <= col < |g[0]| - 1
    ensures Partial(g, diag, L, r, c, Interior(row, col + 1)) ==
      Partial(g, diag, L, r, c, Interior(row, col))
      + (if (r, c) == (row + 1, col) then MoveIn(g, diag, Down, L, r, c) else 0)
      + (if (r, c) == (row, col + 1) then MoveIn(g, diag, Right, L, r, c) else 0)
      + (if (r, c) == (row + 1, col + 1) then MoveIn(g, diag, Diagonal, L, r, c) else 0)
  {
  }

  /** The end of an interior row is the start of the next one; after the last interior row the last column starts. */
  lemma InteriorRollover(g: Grid, diag: bool, L: int, r: int, c: int, row: int)
    requires IsMatrix(g) && InGrid(g, (r, c)) && L >= 0
    requires 0 <= row < |g| - 1
    ensures Partial(g, diag, L, r, c, Interior(row, |g[0]| - 1)) == Partial(g, diag, L, r, c, Interior(row + 1, 0))
    ensures row + 1 == |g| - 1 ==> Partial(g, diag, L, r, c, Interior(row + 1, 0)) == Partial(g, diag, L, r, c, LastCol(0))
  {
  }

  /** With no interior row, the interior sweep has nothing to push. */
  lemma NoInterior(g: Grid, diag: bool, L: int, r: int, c: int)
    requires IsMatrix(g) && InGrid(g, (r, c)) && L >= 0 && |g| == 1
    ensures Partial(g, diag, L, r, c, Interior(0, 0)) == Partial(g, diag, L, r, c, LastCol(0))
  {
  }

  /** The end of the last-column sweep is the start of the last-row sweep. */
  lemma LastColDone(g: Grid, diag: bool, L: int, r: int, c: int)
    requires IsMatrix(g) && InGrid(g, (r, c)) && L >= 0
    ensures Partial(g, diag, L, r, c, LastCol(|g| - 1)) == Partial(g, diag, L, r, c, LastRow(0))
  {
  }

  /**
   * `dptable_num_to_with_budget`: a budget x rows x cols table, 1 in layer 0
   * of the origin, every entry the `Layers` count; a contribution is only
   * ever written to a layer below the budget.
   */
  method DptableNumToWithBudget(grid: Grid, budget: int, diag: bool) returns (dptable: seq<seq<seq<int>>>)
    requires IsMatrix(grid) && CheckBudgetBounds(budget)
    ensures |dptable| == budget
    ensures forall L :: 0 <= L < budget ==> |dptable[L]| == |grid|
    ensures forall L, r :: 0 <= L < budget && 0 <= r < |grid| ==> |dptable[L][r]| == |grid[0]|
    ensures forall L, r, c :: 0 <= L < budget && 0 <= r < |grid| && 0 <= c < |grid[0]| ==>
      dptable[L][r][c] == Layers(grid, diag, L, r, c)
    ensures dptable[0][0][0] == 1
  {
    var rows, cols := |grid|, |grid[0]|;
    var t := new int[budget, rows, cols]((_, _, _) => 0);
    var costs := BuildCostTable(grid);
    t[0, 0, 0] := 1;
    InteriorSweep(t, grid, costs, diag);
    LastColSweep(t, grid, costs, diag);
    LastRowSweep(t, grid, costs, diag);
    forall L, r, c | 0 <= L < budget && 0 <= r < rows && 0 <= c < cols
      ensures t[L, r, c] == Layers(grid, diag, L, r, c)
    {
      FinishedIsLayers(grid, diag, L, r, c);
    }
    dptable := Snapshot3(t);
  }

  /** The interior sweep: every cell but those of the last row and column pushes to its successors. */
  method InteriorSweep(t: array3<int>, grid: Grid, costs: Grid, diag: bool)
    requires IsMatrix(grid) && costs == BuildCostTable(grid)
    requires TableAt(t, grid, diag, Interior(0, 0))
    modifies t
    ensures TableAt(t, grid, diag, LastCol(0))
  {
    var rows, cols := |grid|, |grid[0]|;
    if rows == 1 {
      forall L, r, c | 0 <= L < t.Length0 && 0 <= r < rows && 0 <= c < cols
        ensures t[L, r, c] == Partial(grid, diag, L, r, c, LastCol(0))
      {
        NoInterior(grid, diag, L, r, c);
      }
      return;
    }
    for row := 0 to rows - 1
      invariant TableAt(t, grid, diag, Interior(row, 0))
      invariant row == rows - 1 ==> TableAt(t, grid, diag, LastCol(0))
    {
      for col := 0 to cols - 1
        invariant TableAt(t, grid, diag, Interior(row, col))
      {
        PushInterior(t, grid, costs, diag, row, col);
      }
      forall L, r, c | 0 <= L < t.Length0 && 0 <= r < rows && 0 <= c < cols
        ensures t[L, r, c] == Partial(grid, diag, L, r, c, Interior(row + 1, 0))
        ensures row + 1 == rows - 1 ==> t[L, r, c] == Partial(grid, diag, L, r, c, LastCol(0))
      {
        InteriorRollover(grid, diag, L, r, c, row);
      }
    }
  }

  /** The b loop of the interior sweep at (row, col): down, right and, if allowed, diagonal. */
  method PushInterior(t: array3<int>, grid: Grid, costs: Grid, diag: bool, row: int, col: int)
    requires IsMatrix(grid) && costs == BuildCostTable(grid)
    requires 0 <= row < |grid| - 1 && 0 <= col < |grid[0]| - 1
    requires TableAt(t, grid, diag, Interior(row, col))
    modifies t
    ensures TableAt(t, grid, diag, Interior(row, col + 1))
  {
    ghost var t0 := Snapshot3(t);
    var below, next := row + 1, col + 1;
    PushInteriorLayers(t, t0, diag, row, col, below, next, costs[below][col], costs[row][next], costs[below][next]);
    PushedInterior(t, t0, grid, diag, row, col, below, next);
  }

  /**
   * The b loop itself, on the table `t0` it starts from: layer b of (row, col)
   * goes to layer b + kd below, b + kr to the right and, with diagonal moves,
   * b + kg diagonally, for every layer b that lands below the budget.
   */
  method PushInteriorLayers(t: array3<int>, ghost t0: seq<seq<seq<int>>>, diag: bool, row: int, col: int, below: int, next: int,
                            kd: int, kr: int, kg: int)
    requires 0 <= row < t.Length1 - 1 && 0 <= col < t.Length2 - 1 && below == row + 1 && next == col + 1
    requires kd >= 0 && kr >= 0 && kg >= 0
    requires t0 == Snapshot3(t)
    modifies t
    ensures Received(t, t0, row, col, below, col, kd, t.Length0)
    ensures Received(t, t0, row, col, row, next, kr, t.Length0)
    ensures Received(t, t0, row, col, below, next, kg, if diag then t.Length0 else 0)
    ensures Untouched(t, t0, row, col, below, next)
  {
    for b := 0 to t.Length0
      invariant Received(t, t0, row, col, below, col, kd, b)
      invariant Received(t, t0, row, col, row, next, kr, b)
      invariant Received(t, t0, row, col, below, next, kg, if diag then b else 0)
      invariant Untouched(t, t0, row, col, below, next)
    {
      // try moving vertically, horizontally and, if allowed, diagonally
      PushTo(t, t0, b, row, col, below, next, below, col, kd);
      PushTo(t, t0, b, row, col, below, next, row, next, kr);
      if diag {
        PushTo(t, t0, b, row, col, below, next, below, next, kg);
      }
    }
  }

  /** The table `t0` the b loop at (row, col) starts from is a snapshot of `t`'s shape. */
  ghost predicate LoopFrame(t: array3<int>, t0: seq<seq<seq<int>>>, row: int, col: int, below: int, next: int)
  {
    0 <= row < t.Length1 - 1 && 0 <= col < t.Length2 - 1 && below == row + 1 && next == col + 1
    && |t0| == t.Length0
    && (forall L :: 0 <= L < t.Length0 ==> |t0[L]| == t.Length1)
    && (forall L, r :: 0 <= L < t.Length0 && 0 <= r < t.Length1 ==> |t0[L][r]| == t.Length2)
  }

  /** Cell (dr, dc) holds its start value plus layer L - k of the source for every layer L - k below b. */
  ghost predicate Received(t: array3<int>, t0: seq<seq<seq<int>>>, row: int, col: int, dr: int, dc: int, k: int, b: int)
    reads t
  {
    LoopFrame(t, t0, row, col, row + 1, col + 1) && 0 <= dr < t.Length1 && 0 <= dc < t.Length2 && k >= 0
    && forall L {:trigger t[L, dr, dc]} :: 0 <= L < t.Length0 ==>
      t[L, dr, dc] == t0[L][dr][dc] + (if 0 <= L - k < b then t0[L - k][row][col] else 0)
  }

  /** Every cell but the three successors of (row, col) holds its start value. */
  ghost predicate Untouched(t: array3<int>, t0: seq<seq<seq<int>>>, row: int, col: int, below: int, next: int)
    reads t
  {
    LoopFrame(t, t0, row, col, below, next)
    && forall L, r, c :: (0 <= L < t.Length0 && 0 <= r < t.Length1 && 0 <= c < t.Length2
      && !(r == below && c == col) && !(r == row && c == next) && !(r == below && c == next)) ==>
      t[L, r, c] == t0[L][r][c]
  }

  /** The successor of (row, col) that move `m` enters. */
  function Target(m: Move, row: int, col: int): Cell {
    match m
    case Down => (row + 1, col)
    case Right => (row, col + 1)
    case Diagonal => (row + 1, col + 1)
  }

  /** The start table `t0` holds the interior stage at (row, col). */
  ghost predicate StartsAt(t0: seq<seq<seq<int>>>, grid: Grid, diag: bool, budget: int, row: int, col: int)
    requires IsMatrix(grid)
  {
    |t0| == budget
    && (forall L :: 0 <= L < budget ==> |t0[L]| == |grid|)
    && (forall L, r :: 0 <= L < budget && 0 <= r < |grid| ==> |t0[L][r]| == |grid[0]|)
    && forall L, r, c :: 0 <= L < budget && 0 <= r < |grid| && 0 <= c < |grid[0]| ==>
      t0[L][r][c] == Partial(grid, diag, L, r, c, Interior(row, col))
  }

  /**
   * After the b loop at (row, col), which started from the table `t0` of the
   * current stage, the table holds the next interior stage.
   */
  lemma PushedInterior(t: array3<int>, t0: seq<seq<seq<int>>>, grid: Grid, diag: bool, row: int, col: int, below: int, next: int)
    requires IsMatrix(grid) && 0 <= row < |grid| - 1 && 0 <= col < |grid[0]| - 1 && below == row + 1 && next == col + 1
    requires t.Length1 == |grid| && t.Length2 == |grid[0]|
    requires StartsAt(t0, grid, diag, t.Length0, row, col)
    requires Untouched(t, t0, row, col, below, next)
    requires Received(t, t0, row, col, below, col, Cost(grid[below][col]), t.Length0)
    requires Received(t, t0, row, col, row, next, Cost(grid[row][next]), t.Length0)
    requires Received(t, t0, row, col, below, next, Cost(grid[below][next]), if diag then t.Length0 else 0)
    ensures TableAt(t, grid, diag, Interior(row, col + 1))
  {
    forall L | 0 <= L < t.Length0
      ensures t[L, below, col] == Partial(grid, diag, L, below, col, Interior(row, next))
    {
      PushedTarget(grid, diag, row, col, Down, L, t0, t[L, below, col]);
    }
    forall L | 0 <= L < t.Length0
      ensures t[L, row, next] == Partial(grid, diag, L, row, next, Interior(row, next))
    {
      PushedTarget(grid, diag, row, col, Right, L, t0, t[L, row, next]);
    }
    forall L | 0 <= L < t.Length0
      ensures t[L, below, next] == Partial(grid, diag, L, below, next, Interior(row, next))
    {
      PushedTarget(grid, diag, row, col, Diagonal, L, t0, t[L, below, next]);
    }
    forall L, r, c | 0 <= L < t.Length0 && 0 <= r < |grid| && 0 <= c < |grid[0]|
      && !(r == below && c == col) && !(r == row && c == next) && !(r == below && c == next)
      ensures t[L, r, c] == Partial(grid, diag, L, r, c, Interior(row, next))
    {
      InteriorStep(grid, diag, L, r, c, row, col);
    }
  }

  /**
   * The value `v` the b loop leaves in layer L of a successor of (row, col)
   * is the next stage's count there.
   */
  lemma PushedTarget(grid: Grid, diag: bool, row: int, col: int, m: Move, L: int, t0: seq<seq<seq<int>>>, v: int)
    requires IsMatrix(grid) && 0 <= row < |grid| - 1 && 0 <= col < |grid[0]| - 1 && 0 <= L
    requires StartsAt(t0, grid, diag, |t0|, row, col) && L < |t0|
    requires var d, k := Target(m, row, col), Cost(grid[Target(m, row, col).0][Target(m, row, col).1]);
      v == t0[L][d.0][d.1] + (if (m != Diagonal || diag) && 0 <= L - k then t0[L - k][row][col] else 0)
    ensures var d := Target(m, row, col); v == Partial(grid, diag, L, d.0, d.1, Interior(row, col + 1))
  {
    var d, k := Target(m, row, col), Cost(grid[Target(m, row, col).0][Target(m, row, col).1]);
    InteriorStep(grid, diag, L, d.0, d.1, row, col);
    if 0 <= L - k { SourceReady(grid, diag, L - k, row, col, Interior(row, col)); }
  }

  /**
   * One `+=` of the interior b loop: layer b of (row, col) is added to layer
   * k + b of the successor (dr, dc) when that layer is below the budget.
   */
  method PushTo(t: array3<int>, ghost t0: seq<seq<seq<int>>>, b: int, row: int, col: int, below: int, next: int,
                dr: int, dc: int, k: int)
    requires (dr, dc) == (below, col) || (dr, dc) == (row, next) || (dr, dc) == (below, next)
    requires 0 <= b < t.Length0 && k >= 0
    requires Received(t, t0, row, col, dr, dc, k, b)
    requires Untouched(t, t0, row, col, below, next)
    modifies t
    ensures Received(t, t0, row, col, dr, dc, k, b + 1)
    ensures Untouched(t, t0, row, col, below, next)
    ensures forall r, c, k', b' :: (r, c) != (dr, dc) && old(Received(t, t0, row, col, r, c, k', b')) ==>
      Received(t, t0, row, col, r, c, k', b')
  {
    var c := k + b;
    if c < t.Length0 {
      t[c, dr, dc] := t[c, dr, dc] + t[b, row, col];
    }
  }

  /** The last-column sweep: each cell of the last column pushes down, charged its own cost. */
  method LastColSweep(t: array3<int>, grid: Grid, costs: Grid, diag: bool)
    requires IsMatrix(grid) && costs == BuildCostTable(grid)
    requires TableAt(t, grid, diag, LastCol(0))
    modifies t
    ensures TableAt(t, grid, diag, LastRow(0))
  {
    var budget, rows, cols := t.Length0, |grid|, |grid[0]|;
    for row := 0 to rows - 1
      invariant TableAt(t, grid, diag, LastCol(row))
    {
      PushDown(t, grid, costs, diag, row);
    }
    forall L, r, c | 0 <= L < budget && 0 <= r < rows && 0 <= c < cols
      ensures t[L, r, c] == Partial(grid, diag, L, r, c, LastRow(0))
    {
      LastColDone(grid, diag, L, r, c);
    }
  }

  /** The b loop of the last-column sweep at `row`. */
  method PushDown(t: array3<int>, grid: Grid, costs: Grid, diag: bool, row: int)
    requires IsMatrix(grid) && costs == BuildCostTable(grid)
    requires 0 <= row < |grid| - 1
    requires TableAt(t, grid, diag, LastCol(row))
    modifies t
    ensures TableAt(t, grid, diag, LastCol(row + 1))
  {
    ghost var st := LastCol(row);
    var below, last := row + 1, |grid[0]| - 1;
    var k := costs[row][last];
    for b := 0 to t.Length0
      invariant PushingInto(t, grid, diag, st, row, last, below, last, k, b)
    {
      SourceReady(grid, diag, b, row, last, st);
      PushLayer(t, grid, diag, st, row, last, below, last, k, b);
    }
  }

  /**
   * A border sweep part-way through the b loop that pushes (sr, sc) into
   * (dr, dc) at charge k: every other cell holds stage `st`, and (dr, dc)
   * has received the source's layers below b.
   */
  ghost predicate PushingInto(t: array3<int>, g: Grid, diag: bool, st: Stage, sr: int, sc: int, dr: int, dc: int, k: int, b: int)
    requires IsMatrix(g)
    reads t
  {
    t.Length1 == |g| && t.Length2 == |g[0]| && InGrid(g, (sr, sc)) && InGrid(g, (dr, dc)) && (sr, sc) != (dr, dc)
    && (forall L, r, c :: 0 <= L < t.Length0 && 0 <= r < |g| && 0 <= c < |g[0]| && (r, c) != (dr, dc) ==>
      t[L, r, c] == Partial(g, diag, L, r, c, st))
    && forall L :: 0 <= L < t.Length0 ==>
      t[L, dr, dc] == Partial(g, diag, L, dr, dc, st) + (if 0 <= L - k < b then Layers(g, diag, L - k, sr, sc) else 0)
  }

  /** One `+=` of a border b loop: layer b of (sr, sc) goes to layer k + b of (dr, dc) when that is below the budget. */
  method PushLayer(t: array3<int>, ghost g: Grid, ghost diag: bool, ghost st: Stage, sr: int, sc: int, dr: int, dc: int, k: int, b: int)
    requires IsMatrix(g) && PushingInto(t, g, diag, st, sr, sc, dr, dc, k, b)
    requires 0 <= b < t.Length0 && k >= 0
    requires Partial(g, diag, b, sr, sc, st) == Layers(g, diag, b, sr, sc)
    modifies t
    ensures PushingInto(t, g, diag, st, sr, sc, dr, dc, k, b + 1)
  {
    var c := k + b;
    if c < t.Length0 {
      t[c, dr, dc] := t[c, dr, dc] + t[b, sr, sc];
    }
  }

  /** The last-row sweep: each cell of the last row pushes right, charged its own cost. */
  method LastRowSweep(t: array3<int>, grid: Grid, costs: Grid, diag: bool)
    requires IsMatrix(grid) && costs == BuildCostTable(grid)
    requires TableAt(t, grid, diag, LastRow(0))
    modifies t
    ensures TableAt(t, grid, diag, LastRow(|grid[0]| - 1))
  {
    for col := 0 to |grid[0]| - 1
      invariant TableAt(t, grid, diag, LastRow(col))
    {
      PushRight(t, grid, costs, diag, col);
    }
  }

  /** The b loop of the last-row sweep at `col`. */
  method PushRight(t: array3<int>, grid: Grid, costs: Grid, diag: bool, col: int)
    requires IsMatrix(grid) && costs == BuildCostTable(grid)
    requires 0 <= col < |grid[0]| - 1
    requires TableAt(t, grid, diag, LastRow(col))
    modifies t
    ensures TableAt(t, grid, diag, LastRow(col + 1))
  {
    ghost var st := LastRow(col);
    var last, next := |grid| - 1, col + 1;
    var k := costs[last][col];
    for b := 0 to t.Length0
      invariant PushingInto(t, grid, diag, st, last, col, last, next, k, b)
    {
      SourceReady(grid, diag, b, last, col, st);
      PushLayer(t, grid, diag, st, last, col, last, next, k, b);
    }
    forall L, r, c | 0 <= L < t.Length0 && 0 <= r < |grid| && 0 <= c < |grid[0]|
      ensures t[L, r, c] == Partial(grid, diag, L, r, c, LastRow(next))
    {
      LastRowStep(grid, diag, L, r, c, col, k);
    }
  }

  /** Pushing right from (last row, col), charged k, adds exactly the move into the next cell of the last row. */
  lemma LastRowStep(g: Grid, diag: bool, L: int, r: int, c: int, col: int, k: int)
    requires IsMatrix(g) && InGrid(g, (r, c)) && L >= 0 && 0 <= col < |g[0]| - 1
    requires k == Cost(g[|g| - 1][col])
    ensures Partial(g, diag, L, r, c, LastRow(col + 1)) == Partial(g, diag, L, r, c, LastRow(col))
      + (if (r, c) == (|g| - 1, col + 1) && 0 <= L - k then Layers(g, diag, L - k, |g| - 1, col) else 0)
  {
  }

  /** No weight is negative, so no cell charges the budget. */
  predicate NoCosts(g: Grid)
    requires IsMatrix(g)
  {
    forall r, c :: 0 <= r < |g| && 0 <= c < |g[0]| ==> g[r][c] >= 0
  }

  /**
   * Without negative weights every move is free: all paths sit in layer 0,
   * which then holds the count `dptable_num_to` computes.
   */
  lemma {:induction false} FreeLayers(g: Grid, diag: bool, L: int, r: int, c: int)
    requires IsMatrix(g) && NoCosts(g) && InGrid(g, (r, c)) && L >= 0
    ensures Layers(g, diag, L, r, c) == if L == 0 then RobotPathCount.NumTo(g, diag, r, c) else 0
    decreases r + c
  {
    if (r, c) != (0, 0) {
      assert g[r][c] != Unwalkable;
      if r > 0 { FreeLayers(g, diag, L, r - 1, c); FreeMove(g, diag, Down, L, r, c); }
      if c > 0 { FreeLayers(g, diag, L, r, c - 1); FreeMove(g, diag, Right, L, r, c); }
      if r > 0 && c > 0 { FreeLayers(g, diag, L, r - 1, c - 1); }
      FreeMove(g, diag, Diagonal, L, r, c);
    }
  }

  /** Without negative weights a move charges nothing: it brings the source's count in the same layer. */
  lemma FreeMove(g: Grid, diag: bool, m: Move, L: int, r: int, c: int)
    requires IsMatrix(g) && NoCosts(g) && InGrid(g, (r, c)) && L >= 0
    ensures MoveIn(g, diag, m, L, r, c) ==
      if HasMove(diag, m, r, c) then Layers(g, diag, L, Source(m, r, c).0, Source(m, r, c).1) else 0
  {
    if HasMove(diag, m, r, c) {
      var s := Source(m, r, c);
      assert g[r][c] >= 0 && g[s.0][s.1] >= 0;
    }
  }

  /**
   * The border sweeps charge the cell a move leaves: on the grid [[0], [-2]]
   * the only path into (1, 0) is counted in layer 0, below the 2 that the
   * cell it ends in costs.
   */
  lemma BorderChargeCounterexample()
    ensures var g := [[0], [-2]];
      IsMatrix(g) && Layers(g, false, 0, 1, 0) == 1 && Cost(g[1][0]) == 2
  {
    var g := [[0], [-2]];
    assert Charge(g, Down, 1, 0) == 0;
    assert Layers(g, false, 0, 0, 0) == 1;
  }

  /** The paths counted in layer L of (r, c), every move charged the cost of the cell it enters. */
  function EnteredLayers(g: Grid, diag: bool, L: int, r: int, c: int): (n: int)
    requires IsMatrix(g) && InGrid(g, (r, c)) && L >= 0
    ensures n >= 0
    decreases r + c
  {
    if r == 0 && c == 0 then (if L == 0 then 1 else 0)
    else
      var k := Cost(g[r][c]);
      var down := if r >= 1 && L - k >= 0 then EnteredLayers(g, diag, L - k, r - 1, c) else 0;
      var right := if c >= 1 && L - k >= 0 then EnteredLayers(g, diag, L - k, r, c - 1) else 0;
      var corner := if diag && r >= 1 && c >= 1 && L - k >= 0 then EnteredLayers(g, diag, L - k, r - 1, c - 1) else 0;
      down + right + corner
  }

  /**
   * With every move charged the cell it enters, a path ending at a cell
   * other than the origin has spent at least that cell's cost, and away
   * from the last row and column both charges agree.
   */
  lemma EnteredLayersCoverCost(g: Grid, diag: bool, L: int, r: int, c: int)
    requires IsMatrix(g) && InGrid(g, (r, c)) && L >= 0 && (r, c) != (0, 0)
    ensures EnteredLayers(g, diag, L, r, c) > 0 ==> L >= Cost(g[r][c])
  {
  }

  /** Away from the last row and column, the table as written and the entered-cell charge agree. */
  lemma {:induction false} EnteredLayersInterior(g: Grid, diag: bool, L: int, r: int, c: int)
    requires IsMatrix(g) && 0 <= r < |g| - 1 && 0 <= c < |g[0]| - 1 && L >= 0
    ensures Layers(g, diag, L, r, c) == EnteredLayers(g, diag, L, r, c)
    decreases r + c
  {
    var k := Cost(g[r][c]);
    if (r, c) != (0, 0) {
      InteriorCharge(g, diag, Down, L, r, c);
      InteriorCharge(g, diag, Right, L, r, c);
      InteriorCharge(g, diag, Diagonal, L, r, c);
      var down, right, across := MoveIn(g, diag, Down, L, r, c), MoveIn(g, diag, Right, L, r, c), MoveIn(g, diag, Diagonal, L, r, c);
      assert Layers(g, diag, L, r, c) == down + right + across;
      if L - k >= 0 {
        if r > 0 {
          EnteredLayersInterior(g, diag, L - k, r - 1, c);
          assert down == EnteredLayers(g, diag, L - k, r - 1, c);
        }
        if c > 0 {
          EnteredLayersInterior(g, diag, L - k, r, c - 1);
          assert right == EnteredLayers(g, diag, L - k, r, c - 1);
        }
        if diag && r > 0 && c > 0 {
          EnteredLayersInterior(g, diag, L - k, r - 1, c - 1);
          assert across == EnteredLayers(g, diag, L - k, r - 1, c - 1);
        }
      }
    }
  }

  /** Away from the last row and column every move is an interior one and charges the cell it enters. */
  lemma InteriorCharge(g: Grid, diag: bool, m: Move, L: int, r: int, c: int)
    requires IsMatrix(g) && 0 <= r < |g| - 1 && 0 <= c < |g[0]| - 1 && L >= 0
    ensures MoveIn(g, diag, m, L, r, c) ==
      if HasMove(diag, m, r, c) && L - Cost(g[r][c]) >= 0
      then Layers(g, diag, L - Cost(g[r][c]), Source(m, r, c).0, Source(m, r, c).1) else 0
  {
  }

  /** The cost of the cells a single-column path enters on its way down to row r. */
  function ColumnCharge(g: Grid, r: int): (k: int)
    requires IsMatrix(g) && 0 <= r < |g|
    ensures k >= 0
  {
    if r == 0 then 0 else ColumnCharge(g, r - 1) + Cost(g[r][0])
  }

  /** In a single column, the one path down to row r sits in the layer of the costs it entered. */
  lemma {:induction false} EnteredSingleColumn(g: Grid, diag: bool, L: int, r: int)
    requires IsMatrix(g) && |g[0]| == 1 && 0 <= r < |g| && L >= 0
    ensures EnteredLayers(g, diag, L, r, 0) == if L == ColumnCharge(g, r) then 1 else 0
  {
    if r > 0 && L - Cost(g[r][0]) >= 0 {
      EnteredSingleColumn(g, diag, L - Cost(g[r][0]), r - 1);
    }
  }
}
