/**
 * The value tables of the robot library: `dptable_opt_to`, an entry per
 * cell and spend up to the budget, and `dptable_opt_from`, an entry per cell.
 * Their documentation calls the entries the best value of a path from the
 * top-left corner and the best weight of a path to the bottom-right corner.
 * They bound every such path, but an unreached spend slot or a successor cut
 * off from the corner still competes in their `max`, so an entry need not be
 * attained; module `RobotOptReach` has the tables that are.
 */
module RobotOpt {
  import opened RobotGrid
  import opened Tables
  import opened RobotPathCount

  /**
   * The entry `dptable_opt_to` leaves at (r, c) for spend index b: the
   * origin holds its value at every spend; any other cell holds 0 below its
   * own cost, and above it the cell's value plus the best source entry at b
   * minus the cell's cost over the moves into the cell (a move that does not
   * exist counts as 0). The code takes the best of 0 and each source entry
   * plus the value; as entries and values are never negative, the two agree.
   * The entry does not depend on the budget, which only bounds b.
   */
  function OptTo(g: Grid, diag: bool, r: int, c: int, b: int): (v: int)
    requires IsMatrix(g) && InGrid(g, (r, c)) && b >= 0
    ensures v >= 0
    decreases r + c
  {
    if r == 0 && c == 0 then Value(g[0][0])
    else if b < Cost(g[r][c]) then 0
    else
      var b0 := b - Cost(g[r][c]);
      var left := if c > 0 then OptTo(g, diag, r, c - 1, b0) else 0;
      var up := if r > 0 then OptTo(g, diag, r - 1, c, b0) else 0;
      var corner := if diag && r > 0 && c > 0 then OptTo(g, diag, r - 1, c - 1, b0) else 0;
      Value(g[r][c]) + Max(Max(left, up), corner)
  }

  /** The first cells in row-major order up to (row, col), and the origin, hold `OptTo`; the rest hold 0. */
  ghost predicate OptToDone(t: array3<int>, g: Grid, diag: bool, row: int, col: int)
    requires IsMatrix(g)
    reads t
  {
    t.Length0 == |g| && t.Length1 == |g[0]|
    && forall r, c, b :: 0 <= r < t.Length0 && 0 <= c < t.Length1 && 0 <= b < t.Length2 ==>
      t[r, c, b] == if (r == 0 && c == 0) || Before(r, c, row, col) then OptTo(g, diag, r, c, b) else 0
  }

  /**
   * `dptable_opt_to`: a rows x cols x (budget + 1) table whose every entry
   * is `OptTo`.
   */
  method DptableOptTo(g: Grid, budget: int, diag: bool) returns (t: seq<seq<seq<int>>>)
    requires IsMatrix(g) && budget >= 0
    ensures |t| == |g| && forall r :: 0 <= r < |g| ==> |t[r]| == |g[0]|
    ensures forall r, c :: 0 <= r < |g| && 0 <= c < |g[0]| ==> |t[r][c]| == budget + 1
    ensures forall r, c, b :: 0 <= r < |g| && 0 <= c < |g[0]| && 0 <= b <= budget ==>
      t[r][c][b] == OptTo(g, diag, r, c, b)
  {
    var maxcost := budget + 1;
    var rows, cols := |g|, |g[0]|;
    var tt := new int[rows, cols, maxcost]((_, _, _) => 0);
    // initialize first cell
    for b := 0 to maxcost
      invariant forall r, c, b' :: 0 <= r < rows && 0 <= c < cols && 0 <= b' < maxcost ==>
        tt[r, c, b'] == if r == 0 && c == 0 && b' < b then Value(g[0][0]) else 0
    {
      tt[0, 0, b] := Value(g[0][0]);
    }
    for row := 0 to rows
      invariant OptToDone(tt, g, diag, row, 0)
    {
      for col := 0 to cols
        invariant OptToDone(tt, g, diag, row, col)
      {
        FillOptTo(tt, g, diag, row, col);
      }
    }
    t := Snapshot3(tt);
  }

  /** Every slot of cell (r, c) holds `OptTo`. */
  ghost predicate SlotsHold(t: array3<int>, g: Grid, diag: bool, r: int, c: int)
    requires IsMatrix(g)
    reads t
  {
    0 <= r < |g| && 0 <= c < |g[0]| && r < t.Length0 && c < t.Length1
    && forall b :: 0 <= b < t.Length2 ==> t[r, c, b] == OptTo(g, diag, r, c, b)
  }

  /** One cell of `dptable_opt_to`'s row-major sweep. */
  method FillOptTo(t: array3<int>, g: Grid, diag: bool, row: int, col: int)
    requires IsMatrix(g) && 0 <= row < |g| && 0 <= col < |g[0]|
    requires OptToDone(t, g, diag, row, col)
    modifies t
    ensures OptToDone(t, g, diag, row, col + 1)
    ensures col + 1 == |g[0]| ==> OptToDone(t, g, diag, row + 1, 0)
  {
    FillOptCell(t, g, diag, row, col);
  }

  /**
   * The b loop of `dptable_opt_to` at (row, col): every slot b1 = b + cost
   * below the budget takes the best move into the cell; nothing else changes.
   */
  method FillOptCell(t: array3<int>, g: Grid, diag: bool, row: int, col: int)
    requires IsMatrix(g) && 0 <= row < |g| && 0 <= col < |g[0]| && t.Length0 == |g| && t.Length1 == |g[0]|
    requires col > 0 ==> SlotsHold(t, g, diag, row, col - 1)
    requires row > 0 ==> SlotsHold(t, g, diag, row - 1, col)
    requires row > 0 && col > 0 ==> SlotsHold(t, g, diag, row - 1, col - 1)
    requires forall b :: 0 <= b < t.Length2 ==> t[row, col, b] == if row == 0 && col == 0 then Value(g[0][0]) else 0
    modifies t
    ensures forall r, c, b :: 0 <= r < t.Length0 && 0 <= c < t.Length1 && 0 <= b < t.Length2 && !(r == row && c == col) ==>
      t[r, c, b] == old(t[r, c, b])
    ensures SlotsHold(t, g, diag, row, col)
  {
    var maxcost := t.Length2;
    var k, v := Cost(g[row][col]), Value(g[row][col]);
    var maxCostAtPreviousCell := maxcost - k;
    var b := 0;
    while b < maxCostAtPreviousCell
      invariant 0 <= b && (maxCostAtPreviousCell >= 0 ==> b <= maxCostAtPreviousCell)
      invariant forall r, c, b' :: 0 <= r < t.Length0 && 0 <= c < t.Length1 && 0 <= b' < maxcost && !(r == row && c == col) ==>
        t[r, c, b'] == old(t[r, c, b'])
      invariant forall b' :: 0 <= b' < maxcost ==>
        t[row, col, b'] == if row == 0 && col == 0 then Value(g[0][0])
          else if k <= b' < k + b then OptTo(g, diag, row, col, b') else 0
    {
      // budget left after executing a move
      var b1 := b + k;
      // try horizontal move
      if col > 0 {
        var optVal := t[row, col - 1, b] + v;
        t[row, col, b1] := Max(optVal, t[row, col, b1]);
      }
      // try vertical move
      if row > 0 {
        var optVal := t[row - 1, col, b] + v;
        t[row, col, b1] := Max(optVal, t[row, col, b1]);
      }
      // try diagonal move
      if diag && col > 0 && row > 0 {
        var optVal := t[row - 1, col - 1, b] + v;
        t[row, col, b1] := Max(optVal, t[row, col, b1]);
      }
      b := b + 1;
    }
  }

  /** A larger spend never lowers an entry of `dptable_opt_to`. */
  lemma OptToMonotone(g: Grid, diag: bool, r: int, c: int, b: int, b': int)
    requires IsMatrix(g) && InGrid(g, (r, c)) && 0 <= b <= b'
    ensures OptTo(g, diag, r, c, b) <= OptTo(g, diag, r, c, b')
  {
    OptToMonotoneUpTo(g, diag, r + c);
  }

  /** Monotonicity for every cell on the first n + 1 anti-diagonals. */
  lemma {:induction false} OptToMonotoneUpTo(g: Grid, diag: bool, n: nat)
    requires IsMatrix(g)
    ensures forall r, c, b, b' :: 0 <= r < |g| && 0 <= c < |g[0]| && r + c <= n && 0 <= b <= b' ==>
      OptTo(g, diag, r, c, b) <= OptTo(g, diag, r, c, b')
  {
    if n > 0 { OptToMonotoneUpTo(g, diag, n - 1); }
    forall r, c, b, b' | 0 <= r < |g| && 0 <= c < |g[0]| && r + c <= n && 0 <= b <= b'
      ensures OptTo(g, diag, r, c, b) <= OptTo(g, diag, r, c, b')
    {
      if r + c == n { OptToCellMonotone(g, diag, r, c, b, b'); }
    }
  }

  /** One cell: if the entries of every earlier cell grow with the spend, so does the entry at (r, c). */
  lemma OptToCellMonotone(g: Grid, diag: bool, r: int, c: int, b: int, b': int)
    requires IsMatrix(g) && InGrid(g, (r, c)) && 0 <= b <= b'
    requires forall r', c', e, e' :: 0 <= r' < |g| && 0 <= c' < |g[0]| && r' + c' < r + c && 0 <= e <= e' ==>
      OptTo(g, diag, r', c', e) <= OptTo(g, diag, r', c', e')
    ensures OptTo(g, diag, r, c, b) <= OptTo(g, diag, r, c, b')
  {
  }

  /** The value a path collects: the sum of its cells' values, the first included. */
  function PathValue(g: Grid, path: seq<Cell>): (v: int)
    requires IsMatrix(g) && OnGrid(g, path)
    ensures v >= 0
  {
    if |path| == 0 then 0
    else
      var last := path[|path| - 1];
      PathValue(g, path[..|path| - 1]) + Value(g[last.0][last.1])
  }

  /** The budget a path spends: the sum of its cells' costs, the first excluded. */
  function PathCharge(g: Grid, path: seq<Cell>): (k: int)
    requires IsMatrix(g) && OnGrid(g, path)
    ensures k >= 0
  {
    if |path| <= 1 then 0
    else
      var last := path[|path| - 1];
      PathCharge(g, path[..|path| - 1]) + Cost(g[last.0][last.1])
  }

  /**
   * No path from the origin within spend b collects more than the entry of
   * `dptable_opt_to` at its last cell and spend b.
   */
  lemma {:induction false} OptToBoundsPaths(g: Grid, diag: bool, path: seq<Cell>, b: int)
    requires IsMatrix(g) && |path| > 0 && OnGrid(g, path) && Feasible(path, diag)
    requires path[0] == (0, 0) && PathCharge(g, path) <= b
    ensures PathValue(g, path) <= OptTo(g, diag, path[|path| - 1].0, path[|path| - 1].1, b)
    decreases |path|
  {
    if |path| > 1 {
      var front := path[..|path| - 1];
      var prev, last := path[|path| - 2], path[|path| - 1];
      FeasibleSlice(path, diag, 0, |path| - 1);
      assert front[0] == path[0] && front[|front| - 1] == prev;
      assert OnGrid(g, front);
      var k := Cost(g[last.0][last.1]);
      OptToBoundsPaths(g, diag, front, b - k);
      assert CheckCellContiguity(prev, last, diag);
      OptToMove(g, diag, prev, last, b);
    }
  }

  /** The entry at a cell entered by a move is at least the source's entry, at the spend left, plus the cell's value. */
  lemma OptToMove(g: Grid, diag: bool, prev: Cell, last: Cell, b: int)
    requires IsMatrix(g) && InGrid(g, prev) && InGrid(g, last)
    requires CheckCellContiguity(prev, last, diag) && b >= Cost(g[last.0][last.1])
    ensures OptTo(g, diag, last.0, last.1, b) >=
      OptTo(g, diag, prev.0, prev.1, b - Cost(g[last.0][last.1])) + Value(g[last.0][last.1])
  {
  }

  /**
   * The entry `dptable_opt_from` leaves at (i, j): the bottom-right corner
   * holds its raw weight (blocked or not), any other blocked cell 0, and a
   * walkable cell its raw weight plus the best entry among its in-range
   * successors (right, down and, with diagonal moves, down-right).
   */
  function OptFrom(g: Grid, diag: bool, i: int, j: int): (v: int)
    requires IsMatrix(g) && 0 <= i < |g| && 0 <= j < |g[0]|
    ensures g[i][j] == Unwalkable && (i, j) != (|g| - 1, |g[0]| - 1) ==> v == 0
    decreases (|g| - i) + (|g[0]| - j)
  {
    if i == |g| - 1 && j == |g[0]| - 1 then g[i][j]
    else if g[i][j] == Unwalkable then 0
    else if i == |g| - 1 then g[i][j] + OptFrom(g, diag, i, j + 1)
    else if j == |g[0]| - 1 then g[i][j] + OptFrom(g, diag, i + 1, j)
    else
      var right := OptFrom(g, diag, i, j + 1);
      var down := OptFrom(g, diag, i + 1, j);
      if diag then g[i][j] + Max(Max(right, down), OptFrom(g, diag, i + 1, j + 1))
      else g[i][j] + Max(right, down)
  }

  /**
   * `dptable_opt_from`: the bottom-right corner, then the last row and the
   * last column from the end, then the rest in reverse row-major order.
   */
  method DptableOptFrom(g: Grid, diag: bool) returns (t: seq<seq<int>>)
    requires IsMatrix(g)
    ensures |t| == |g| && forall i :: 0 <= i < |g| ==> |t[i]| == |g[0]|
    ensures forall i, j :: 0 <= i < |g| && 0 <= j < |g[0]| ==> t[i][j] == OptFrom(g, diag, i, j)
  {
    var rows, cols := |g|, |g[0]|;
    var tt := new int[rows, cols]((_, _) => 0);
    tt[rows - 1, cols - 1] := g[rows - 1][cols - 1];
    FillOptFromLastRow(tt, g, diag);
    FillOptFromLastCol(tt, g, diag);
    if diag {
      FillOptFromInteriorDiag(tt, g);
    } else {
      FillOptFromInteriorOrth(tt, g);
    }
    t := Snapshot2(tt);
  }

  /** The last row of `dptable_opt_from`, swept from the end: a walkable cell adds its weight to its right neighbour's entry. */
  method FillOptFromLastRow(tt: array2<int>, g: Grid, diag: bool)
    requires IsMatrix(g) && tt.Length0 == |g| && tt.Length1 == |g[0]|
    requires forall p, q :: 0 <= p < tt.Length0 && 0 <= q < tt.Length1 ==>
      tt[p, q] == if p == |g| - 1 && q == |g[0]| - 1 then g[p][q] else 0
    modifies tt
    ensures forall p, q :: 0 <= p < tt.Length0 && 0 <= q < tt.Length1 ==>
      tt[p, q] == if p == |g| - 1 then OptFrom(g, diag, p, q) else 0
  {
    var rows, cols := |g|, |g[0]|;
    for i := cols - 1 downto 0
      invariant forall p, q :: 0 <= p < rows && 0 <= q < cols ==>
        tt[p, q] == if p == rows - 1 && q >= i then OptFrom(g, diag, p, q) else 0
    {
      if Walkable(g, (-1, i)) {
        tt[rows - 1, i] := g[rows - 1][i] + tt[rows - 1, i + 1];
      }
    }
  }

  /** The last column of `dptable_opt_from`, swept from the end: a walkable cell adds its weight to the entry below. */
  method FillOptFromLastCol(tt: array2<int>, g: Grid, diag: bool)
    requires IsMatrix(g) && tt.Length0 == |g| && tt.Length1 == |g[0]|
    requires forall p, q :: 0 <= p < tt.Length0 && 0 <= q < tt.Length1 ==>
      tt[p, q] == if p == |g| - 1 then OptFrom(g, diag, p, q) else 0
    modifies tt
    ensures forall p, q :: 0 <= p < tt.Length0 && 0 <= q < tt.Length1 ==>
      tt[p, q] == if p == |g| - 1 || q == |g[0]| - 1 then OptFrom(g, diag, p, q) else 0
  {
    var rows, cols := |g|, |g[0]|;
    for i := rows - 1 downto 0
      invariant forall p, q :: 0 <= p < rows && 0 <= q < cols ==>
        tt[p, q] == if p == rows - 1 || (q == cols - 1 && p >= i) then OptFrom(g, diag, p, q) else 0
    {
      if Walkable(g, (i, -1)) {
        tt[i, cols - 1] := g[i][cols - 1] + tt[i + 1, cols - 1];
      }
    }
  }

  /** The interior sweep of `dptable_opt_from` with diagonal moves: weight plus the best of right, down and down-right. */
  method FillOptFromInteriorDiag(tt: array2<int>, g: Grid)
    requires IsMatrix(g) && tt.Length0 == |g| && tt.Length1 == |g[0]|
    requires forall p, q :: 0 <= p < tt.Length0 && 0 <= q < tt.Length1 ==>
      tt[p, q] == if p == |g| - 1 || q == |g[0]| - 1 then OptFrom(g, true, p, q) else 0
    modifies tt
    ensures forall p, q :: 0 <= p < tt.Length0 && 0 <= q < tt.Length1 ==> tt[p, q] == OptFrom(g, true, p, q)
  {
    var rows, cols := |g|, |g[0]|;
    for i := rows - 1 downto 0
      invariant forall p, q :: 0 <= p < rows && 0 <= q < cols ==>
        tt[p, q] == if FromDone(rows, cols, p, q, i, 0) then OptFrom(g, true, p, q) else 0
    {
      for j := cols - 1 downto 0
        invariant forall p, q :: 0 <= p < rows && 0 <= q < cols ==>
          tt[p, q] == if FromDone(rows, cols, p, q, i, j) then OptFrom(g, true, p, q) else 0
      {
        FillOptFromCellDiag(tt, g, i, j);
      }
    }
  }

  /** One cell of the interior sweep with diagonal moves. */
  method FillOptFromCellDiag(tt: array2<int>, g: Grid, i: int, j: int)
    requires IsMatrix(g) && tt.Length0 == |g| && tt.Length1 == |g[0]|
    requires 0 <= i < |g| - 1 && 0 <= j < |g[0]| - 1
    requires forall p, q :: 0 <= p < tt.Length0 && 0 <= q < tt.Length1 ==>
      tt[p, q] == if FromDone(|g|, |g[0]|, p, q, i, j + 1) then OptFrom(g, true, p, q) else 0
    modifies tt
    ensures forall p, q :: 0 <= p < tt.Length0 && 0 <= q < tt.Length1 ==>
      tt[p, q] == if FromDone(|g|, |g[0]|, p, q, i, j) then OptFrom(g, true, p, q) else 0
  {
    if Walkable(g, (i, j)) {
      var right, down, corner := tt[i, j + 1], tt[i + 1, j], tt[i + 1, j + 1];
      assert right == OptFrom(g, true, i, j + 1) && down == OptFrom(g, true, i + 1, j);
      assert corner == OptFrom(g, true, i + 1, j + 1);
      tt[i, j] := g[i][j] + Max(Max(right, down), corner);
    }
  }

  /** The interior sweep of `dptable_opt_from` without diagonal moves: weight plus the better of right and down. */
  method FillOptFromInteriorOrth(tt: array2<int>, g: Grid)
    requires IsMatrix(g) && tt.Length0 == |g| && tt.Length1 == |g[0]|
    requires forall p, q :: 0 <= p < tt.Length0 && 0 <= q < tt.Length1 ==>
      tt[p, q] == if p == |g| - 1 || q == |g[0]| - 1 then OptFrom(g, false, p, q) else 0
    modifies tt
    ensures forall p, q :: 0 <= p < tt.Length0 && 0 <= q < tt.Length1 ==> tt[p, q] == OptFrom(g, false, p, q)
  {
    var rows, cols := |g|, |g[0]|;
    for i := rows - 1 downto 0
      invariant forall p, q :: 0 <= p < rows && 0 <= q < cols ==>
        tt[p, q] == if FromDone(rows, cols, p, q, i, 0) then OptFrom(g, false, p, q) else 0
    {
      for j := cols - 1 downto 0
        invariant forall p, q :: 0 <= p < rows && 0 <= q < cols ==>
          tt[p, q] == if FromDone(rows, cols, p, q, i, j) then OptFrom(g, false, p, q) else 0
      {
        FillOptFromCellOrth(tt, g, i, j);
      }
    }
  }

  /** One cell of the interior sweep without diagonal moves. */
  method FillOptFromCellOrth(tt: array2<int>, g: Grid, i: int, j: int)
    requires IsMatrix(g) && tt.Length0 == |g| && tt.Length1 == |g[0]|
    requires 0 <= i < |g| - 1 && 0 <= j < |g[0]| - 1
    requires forall p, q :: 0 <= p < tt.Length0 && 0 <= q < tt.Length1 ==>
      tt[p, q] == if FromDone(|g|, |g[0]|, p, q, i, j + 1) then OptFrom(g, false, p, q) else 0
    modifies tt
    ensures forall p, q :: 0 <= p < tt.Length0 && 0 <= q < tt.Length1 ==>
      tt[p, q] == if FromDone(|g|, |g[0]|, p, q, i, j) then OptFrom(g, false, p, q) else 0
  {
    if Walkable(g, (i, j)) {
      var right, down := tt[i, j + 1], tt[i + 1, j];
      assert right == OptFrom(g, false, i, j + 1) && down == OptFrom(g, false, i + 1, j);
      tt[i, j] := g[i][j] + Max(right, down);
    }
  }

  /** The total raw weight of the cells of a path. */
  function PathWeight(g: Grid, path: seq<Cell>): int
    requires IsMatrix(g) && OnGrid(g, path)
  {
    if |path| == 0 then 0 else g[path[0].0][path[0].1] + PathWeight(g, path[1..])
  }

  /** A path's weight is the weight of all but its last cell plus the last cell's weight. */
  lemma {:induction false} PathWeightLast(g: Grid, path: seq<Cell>)
    requires IsMatrix(g) && |path| > 0 && OnGrid(g, path)
    ensures PathWeight(g, path) == PathWeight(g, path[..|path| - 1]) + g[path[|path| - 1].0][path[|path| - 1].1]
    decreases |path|
  {
    if |path| > 1 {
      var rest := path[1..];
      assert OnGrid(g, rest);
      PathWeightLast(g, rest);
      assert rest[..|rest| - 1] == path[..|path| - 1][1..];
      assert rest[|rest| - 1] == path[|path| - 1];
    }
  }

  /** A walkable cell's entry is at least its weight plus the entry of any cell one allowed move further on. */
  lemma OptFromMove(g: Grid, diag: bool, cur: Cell, next: Cell)
    requires IsMatrix(g) && InGrid(g, cur) && InGrid(g, next)
    requires CheckCellContiguity(cur, next, diag) && g[cur.0][cur.1] != Unwalkable
    ensures OptFrom(g, diag, cur.0, cur.1) >= g[cur.0][cur.1] + OptFrom(g, diag, next.0, next.1)
  {
  }

  /** No walkable path to the bottom-right corner weighs more than the `dptable_opt_from` entry at its first cell. */
  lemma {:induction false} OptFromBoundsPaths(g: Grid, diag: bool, path: seq<Cell>)
    requires IsMatrix(g) && |path| > 0 && OnGrid(g, path) && Feasible(path, diag)
    requires path[|path| - 1] == (|g| - 1, |g[0]| - 1)
    requires forall k :: 0 <= k < |path| ==> g[path[k].0][path[k].1] != Unwalkable
    ensures PathWeight(g, path) <= OptFrom(g, diag, path[0].0, path[0].1)
    decreases |path|
  {
    if |path| > 1 {
      var rest := path[1..];
      FeasibleSlice(path, diag, 1, |path|);
      assert rest[|rest| - 1] == path[|path| - 1];
      assert OnGrid(g, rest);
      OptFromBoundsPaths(g, diag, rest);
      assert CheckCellContiguity(path[0], path[1], diag);
    } else {
      assert PathWeight(g, path[1..]) == 0;
    }
  }
}
