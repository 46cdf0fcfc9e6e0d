/**
 * The tie-aware tables of the robot library: `dptable_num_opt_to` and
 * `dptable_num_opt_from` store, for every cell, a `NumOptCell` meant to hold
 * the best raw weight of a path between that cell and a corner together with
 * the number of paths that reach it, and hand the table back through
 * `as_tuple_matrix`. As written, a neighbour no path reaches still competes
 * for the best weight; `NumOptToReach` is the corrected `dptable_num_opt_to`.
 */
module RobotNumOpt {
  import opened RobotGrid
  import opened Tables
  import opened RobotPathCount
  import opened RobotOpt

  /** The record the builders update field by field: a count of paths and a best value. */
  datatype NumOptCell = NumOptCell(count: int, value: int)

  /** The largest value among the cells: `max(neighbors, key=value).value`. */
  function MaxValue(ns: seq<NumOptCell>): (m: int)
    requires |ns| > 0
    ensures forall k :: 0 <= k < |ns| ==> ns[k].value <= m
    ensures exists k :: 0 <= k < |ns| && ns[k].value == m
  {
    if |ns| == 1 then ns[0].value
    else
      var rest := MaxValue(ns[1..]);
      assert forall k :: 1 <= k < |ns| ==> ns[k] == ns[1..][k - 1];
      Max(ns[0].value, rest)
  }

  /** The total count of the cells. */
  function SumCounts(ns: seq<NumOptCell>): int
  {
    if |ns| == 0 then 0 else ns[0].count + SumCounts(ns[1..])
  }

  /** No cell holds a negative count. */
  predicate CountsNonNeg(ns: seq<NumOptCell>)
  {
    forall k :: 0 <= k < |ns| ==> ns[k].count >= 0
  }

  /**
   * The total count of the cells whose value is m: the sum over the
   * neighbours that the code keeps with `filter(value == maxvalue)`.
   */
  function CountAt(ns: seq<NumOptCell>, m: int): (n: int)
    ensures CountsNonNeg(ns) ==> 0 <= n <= SumCounts(ns)
    ensures (forall k :: 0 <= k < |ns| ==> ns[k].value != m) ==> n == 0
  {
    if |ns| == 0 then 0
    else
      assert forall k :: 1 <= k < |ns| ==> ns[k] == ns[1..][k - 1];
      (if ns[0].value == m then ns[0].count else 0) + CountAt(ns[1..], m)
  }

  /** A cell with all-positive counts among them: the best value has at least one path. */
  lemma {:induction false} CountAtMaxPositive(ns: seq<NumOptCell>, k: int)
    requires 0 <= k < |ns| && CountsNonNeg(ns) && ns[k].count > 0
    ensures CountAt(ns, ns[k].value) > 0
    decreases |ns|
  {
    if k > 0 {
      assert ns[1..][k - 1] == ns[k];
      assert CountsNonNeg(ns[1..]);
      CountAtMaxPositive(ns[1..], k - 1);
    }
  }

  /** The cell an interior step of either builder writes: the weight plus the best neighbour, and the count of the best. */
  function Merge(w: int, ns: seq<NumOptCell>): (x: NumOptCell)
    requires |ns| > 0
    ensures CountsNonNeg(ns) ==> 0 <= x.count <= SumCounts(ns)
    ensures forall k :: 0 <= k < |ns| ==> x.value >= w + ns[k].value
  {
    var m := MaxValue(ns);
    NumOptCell(CountAt(ns, m), w + m)
  }

  /** `Merge` of two neighbours, written out. */
  function Merge2(w: int, a: NumOptCell, b: NumOptCell): NumOptCell {
    var m := Max(a.value, b.value);
    NumOptCell((if a.value == m then a.count else 0) + (if b.value == m then b.count else 0), w + m)
  }

  /** `Merge` of three neighbours, written out. */
  function Merge3(w: int, a: NumOptCell, b: NumOptCell, c: NumOptCell): NumOptCell {
    var m := Max(Max(a.value, b.value), c.value);
    NumOptCell((if a.value == m then a.count else 0) + (if b.value == m then b.count else 0)
      + (if c.value == m then c.count else 0), w + m)
  }

  /** Over two or three neighbours, `Merge` is the written-out merge. */
  lemma MergeSmall(w: int, a: NumOptCell, b: NumOptCell, c: NumOptCell)
    ensures Merge(w, [a, b]) == Merge2(w, a, b)
    ensures Merge(w, [a, b, c]) == Merge3(w, a, b, c)
  {
    MaxValueSmall(a, b, c);
    assert [a, b][1..] == [b] && [b][1..] == [];
    assert [a, b, c][1..] == [b, c] && [b, c][1..] == [c] && [c][1..] == [];
    var m2, m3 := Max(a.value, b.value), Max(Max(a.value, b.value), c.value);
    assert CountAt([b], m2) == if b.value == m2 then b.count else 0;
    assert CountAt([c], m3) == if c.value == m3 then c.count else 0;
    assert CountAt([b, c], m3) == (if b.value == m3 then b.count else 0) + CountAt([c], m3);
  }

  /**
   * The cell `dptable_num_opt_to` leaves at (i, j): (1, raw weight) at the
   * origin, walkable or not; (0, 0) at any other blocked cell; on the first
   * row and column the predecessor's count and its value plus the raw
   * weight; elsewhere `Merge` of left, up and, with diagonal moves, up-left.
   * A neighbour no path reaches takes part in the best value like any other.
   */
  function NumOptTo(g: Grid, diag: bool, i: int, j: int): (x: NumOptCell)
    requires IsMatrix(g) && 0 <= i < |g| && 0 <= j < |g[0]|
    ensures x.count >= 0
    decreases i + j
  {
    if i == 0 && j == 0 then NumOptCell(1, g[0][0])
    else if g[i][j] == Unwalkable then NumOptCell(0, 0)
    else if i == 0 then
      var left := NumOptTo(g, diag, 0, j - 1);
      NumOptCell(left.count, g[0][j] + left.value)
    else if j == 0 then
      var up := NumOptTo(g, diag, i - 1, 0);
      NumOptCell(up.count, g[i][0] + up.value)
    else
      var left, up := NumOptTo(g, diag, i, j - 1), NumOptTo(g, diag, i - 1, j);
      if diag then Merge3(g[i][j], left, up, NumOptTo(g, diag, i - 1, j - 1)) else Merge2(g[i][j], left, up)
  }

  /**
   * The cell `dptable_num_opt_from` leaves at (i, j): the mirror image of
   * `NumOptTo`, from the bottom-right corner over right, down and, with
   * diagonal moves, down-right.
   */
  function NumOptFrom(g: Grid, diag: bool, i: int, j: int): (x: NumOptCell)
    requires IsMatrix(g) && 0 <= i < |g| && 0 <= j < |g[0]|
    ensures x.count >= 0
    decreases (|g| - i) + (|g[0]| - j)
  {
    if i == |g| - 1 && j == |g[0]| - 1 then NumOptCell(1, g[i][j])
    else if g[i][j] == Unwalkable then NumOptCell(0, 0)
    else if i == |g| - 1 then
      var right := NumOptFrom(g, diag, i, j + 1);
      NumOptCell(right.count, g[i][j] + right.value)
    else if j == |g[0]| - 1 then
      var down := NumOptFrom(g, diag, i + 1, j);
      NumOptCell(down.count, g[i][j] + down.value)
    else
      var right, down := NumOptFrom(g, diag, i, j + 1), NumOptFrom(g, diag, i + 1, j);
      if diag then Merge3(g[i][j], right, down, NumOptFrom(g, diag, i + 1, j + 1)) else Merge2(g[i][j], right, down)
  }

  /** `as_tuple_matrix`: every cell as its (count, value) pair, row by row. */
  function AsTupleMatrix(m: seq<seq<NumOptCell>>): (r: seq<seq<(int, int)>>)
    ensures |r| == |m| && forall i :: 0 <= i < |m| ==> |r[i]| == |m[i]|
    ensures forall i, j :: 0 <= i < |m| && 0 <= j < |m[i]| ==> r[i][j] == (m[i][j].count, m[i][j].value)
  {
    seq(|m|, i requires 0 <= i < |m| => seq(|m[i]|, j requires 0 <= j < |m[i]| => (m[i][j].count, m[i][j].value)))
  }

  /** `as_tuple_matrix` loses nothing: equal results come from equal tables. */
  lemma AsTupleMatrixInjective(a: seq<seq<NumOptCell>>, b: seq<seq<NumOptCell>>)
    requires AsTupleMatrix(a) == AsTupleMatrix(b)
    ensures a == b
  {
    var ra, rb := AsTupleMatrix(a), AsTupleMatrix(b);
    assert |a| == |b|;
    forall i | 0 <= i < |a|
      ensures a[i] == b[i]
    {
      assert |a[i]| == |ra[i]| == |rb[i]| == |b[i]|;
      forall j | 0 <= j < |a[i]|
        ensures a[i][j] == b[i][j]
      {
        assert ra[i][j] == rb[i][j];
      }
    }
  }

  /** Cells that `dptable_num_opt_to`'s interior sweep has filled when it is about to fill (i, j). */
  predicate ToDone(p: int, q: int, i: int, j: int) {
    p == 0 || q == 0 || Before(p, q, i, j)
  }

  /** `dptable_num_opt_to`: the origin, the first row, the first column, then the rest in row-major order. */
  method DptableNumOptTo(g: Grid, diag: bool) returns (t: seq<seq<(int, int)>>)
    requires IsMatrix(g)
    ensures |t| == |g| && forall i :: 0 <= i < |g| ==> |t[i]| == |g[0]|
    ensures forall i, j :: 0 <= i < |g| && 0 <= j < |g[0]| ==>
      t[i][j] == (NumOptTo(g, diag, i, j).count, NumOptTo(g, diag, i, j).value)
  {
    var rows, cols := |g|, |g[0]|;
    var tt := new NumOptCell[rows, cols]((_, _) => NumOptCell(0, 0));
    tt[0, 0] := tt[0, 0].(count := 1);
    tt[0, 0] := tt[0, 0].(value := g[0][0]);
    FillNumOptToFirstRow(tt, g, diag);
    FillNumOptToFirstCol(tt, g, diag);
    if diag {
      FillNumOptToInteriorDiag(tt, g);
    } else {
      FillNumOptToInteriorOrth(tt, g);
    }
    t := AsTupleMatrix(Snapshot2(tt));
  }

  /** The first row of `dptable_num_opt_to`: a walkable cell takes its left neighbour's count and adds its weight to its value. */
  method FillNumOptToFirstRow(tt: array2<NumOptCell>, g: Grid, diag: bool)
    requires IsMatrix(g) && tt.Length0 == |g| && tt.Length1 == |g[0]|
    requires forall p, q :: 0 <= p < tt.Length0 && 0 <= q < tt.Length1 ==>
      tt[p, q] == if p == 0 && q == 0 then NumOptTo(g, diag, 0, 0) else NumOptCell(0, 0)
    modifies tt
    ensures forall p, q :: 0 <= p < tt.Length0 && 0 <= q < tt.Length1 ==>
      tt[p, q] == if p == 0 then NumOptTo(g, diag, p, q) else NumOptCell(0, 0)
  {
    var rows, cols := |g|, |g[0]|;
    for i := 1 to cols
      invariant forall p, q :: 0 <= p < rows && 0 <= q < cols ==>
        tt[p, q] == if p == 0 && q < i then NumOptTo(g, diag, p, q) else NumOptCell(0, 0)
    {
      if Walkable(g, (0, i)) {
        tt[0, i] := tt[0, i].(count := tt[0, i - 1].count);
        tt[0, i] := tt[0, i].(value := g[0][i] + tt[0, i - 1].value);
      }
    }
  }

  /** The first column of `dptable_num_opt_to`: a walkable cell takes the count above and adds its weight to its value. */
  method FillNumOptToFirstCol(tt: array2<NumOptCell>, g: Grid, diag: bool)
    requires IsMatrix(g) && tt.Length0 == |g| && tt.Length1 == |g[0]|
    requires forall p, q :: 0 <= p < tt.Length0 && 0 <= q < tt.Length1 ==>
      tt[p, q] == if p == 0 then NumOptTo(g, diag, p, q) else NumOptCell(0, 0)
    modifies tt
    ensures forall p, q :: 0 <= p < tt.Length0 && 0 <= q < tt.Length1 ==>
      tt[p, q] == if p == 0 || q == 0 then NumOptTo(g, diag, p, q) else NumOptCell(0, 0)
  {
    var rows, cols := |g|, |g[0]|;
    for i := 1 to rows
      invariant forall p, q :: 0 <= p < rows && 0 <= q < cols ==>
        tt[p, q] == if p == 0 || (q == 0 && p < i) then NumOptTo(g, diag, p, q) else NumOptCell(0, 0)
    {
      if Walkable(g, (i, 0)) {
        tt[i, 0] := tt[i, 0].(count := tt[i - 1, 0].count);
        tt[i, 0] := tt[i, 0].(value := g[i][0] + tt[i - 1, 0].value);
      }
    }
  }

  /** The interior sweep of `dptable_num_opt_to` with diagonal moves: `Merge` of left, up and up-left. */
  method FillNumOptToInteriorDiag(tt: array2<NumOptCell>, g: Grid)
    requires IsMatrix(g) && tt.Length0 == |g| && tt.Length1 == |g[0]|
    requires forall p, q :: 0 <= p < tt.Length0 && 0 <= q < tt.Length1 ==>
      tt[p, q] == if p == 0 || q == 0 then NumOptTo(g, true, p, q) else NumOptCell(0, 0)
    modifies tt
    ensures forall p, q :: 0 <= p < tt.Length0 && 0 <= q < tt.Length1 ==> tt[p, q] == NumOptTo(g, true, p, q)
  {
    var rows, cols := |g|, |g[0]|;
    for i := 1 to rows
      invariant forall p, q :: 0 <= p < rows && 0 <= q < cols ==>
        tt[p, q] == if ToDone(p, q, i, 0) then NumOptTo(g, true, p, q) else NumOptCell(0, 0)
    {
      for j := 1 to cols
        invariant forall p, q :: 0 <= p < rows && 0 <= q < cols ==>
          tt[p, q] == if ToDone(p, q, i, j) then NumOptTo(g, true, p, q) else NumOptCell(0, 0)
      {
        FillNumOptToCellDiag(tt, g, i, j);
      }
    }
  }

  /** One cell of the interior sweep of `dptable_num_opt_to` with diagonal moves. */
  method FillNumOptToCellDiag(tt: array2<NumOptCell>, g: Grid, i: int, j: int)
    requires IsMatrix(g) && tt.Length0 == |g| && tt.Length1 == |g[0]|
    requires 1 <= i < |g| && 1 <= j < |g[0]|
    requires forall p, q :: 0 <= p < tt.Length0 && 0 <= q < tt.Length1 ==>
      tt[p, q] == if ToDone(p, q, i, j) then NumOptTo(g, true, p, q) else NumOptCell(0, 0)
    modifies tt
    ensures forall p, q :: 0 <= p < tt.Length0 && 0 <= q < tt.Length1 ==>
      tt[p, q] == if ToDone(p, q, i, j + 1) then NumOptTo(g, true, p, q) else NumOptCell(0, 0)
  {
    if Walkable(g, (i, j)) {
      var left, up, corner := tt[i, j - 1], tt[i - 1, j], tt[i - 1, j - 1];
      assert left == NumOptTo(g, true, i, j - 1) && up == NumOptTo(g, true, i - 1, j);
      assert corner == NumOptTo(g, true, i - 1, j - 1);
      var neighbors := [left, up, corner];
      var maxvalue := MaxValue(neighbors);
      MergeSmall(g[i][j], left, up, corner);
      tt[i, j] := tt[i, j].(count := CountAt(neighbors, maxvalue));
      tt[i, j] := tt[i, j].(value := g[i][j] + maxvalue);
      assert tt[i, j] == NumOptTo(g, true, i, j);
    }
  }

  /** The interior sweep of `dptable_num_opt_to` without diagonal moves: `Merge` of left and up. */
  method FillNumOptToInteriorOrth(tt: array2<NumOptCell>, g: Grid)
    requires IsMatrix(g) && tt.Length0 == |g| && tt.Length1 == |g[0]|
    requires forall p, q :: 0 <= p < tt.Length0 && 0 <= q < tt.Length1 ==>
      tt[p, q] == if p == 0 || q == 0 then NumOptTo(g, false, p, q) else NumOptCell(0, 0)
    modifies tt
    ensures forall p, q :: 0 <= p < tt.Length0 && 0 <= q < tt.Length1 ==> tt[p, q] == NumOptTo(g, false, p, q)
  {
    var rows, cols := |g|, |g[0]|;
    for i := 1 to rows
      invariant forall p, q :: 0 <= p < rows && 0 <= q < cols ==>
        tt[p, q] == if ToDone(p, q, i, 0) then NumOptTo(g, false, p, q) else NumOptCell(0, 0)
    {
      for j := 1 to cols
        invariant forall p, q :: 0 <= p < rows && 0 <= q < cols ==>
          tt[p, q] == if ToDone(p, q, i, j) then NumOptTo(g, false, p, q) else NumOptCell(0, 0)
      {
        FillNumOptToCellOrth(tt, g, i, j);
      }
    }
  }

  /** One cell of the interior sweep of `dptable_num_opt_to` without diagonal moves. */
  method FillNumOptToCellOrth(tt: array2<NumOptCell>, g: Grid, i: int, j: int)
    requires IsMatrix(g) && tt.Length0 == |g| && tt.Length1 == |g[0]|
    requires 1 <= i < |g| && 1 <= j < |g[0]|
    requires forall p, q :: 0 <= p < tt.Length0 && 0 <= q < tt.Length1 ==>
      tt[p, q] == if ToDone(p, q, i, j) then NumOptTo(g, false, p, q) else NumOptCell(0, 0)
    modifies tt
    ensures forall p, q :: 0 <= p < tt.Length0 && 0 <= q < tt.Length1 ==>
      tt[p, q] == if ToDone(p, q, i, j + 1) then NumOptTo(g, false, p, q) else NumOptCell(0, 0)
  {
    if Walkable(g, (i, j)) {
      var left, up := tt[i, j - 1], tt[i - 1, j];
      assert left == NumOptTo(g, false, i, j - 1) && up == NumOptTo(g, false, i - 1, j);
      var neighbors := [left, up];
      var maxvalue := MaxValue(neighbors);
      MergeSmall(g[i][j], left, up, up);
      tt[i, j] := tt[i, j].(count := CountAt(neighbors, maxvalue));
      tt[i, j] := tt[i, j].(value := g[i][j] + maxvalue);
      assert tt[i, j] == NumOptTo(g, false, i, j);
    }
  }

  /** `dptable_num_opt_from`: the bottom-right corner, the last row, the last column, then the rest in reverse row-major order. */
  method DptableNumOptFrom(g: Grid, diag: bool) returns (t: seq<seq<(int, int)>>)
    requires IsMatrix(g)
    ensures |t| == |g| && forall i :: 0 <= i < |g| ==> |t[i]| == |g[0]|
    ensures forall i, j :: 0 <= i < |g| && 0 <= j < |g[0]| ==>
      t[i][j] == (NumOptFrom(g, diag, i, j).count, NumOptFrom(g, diag, i, j).value)
  {
    var rows, cols := |g|, |g[0]|;
    var tt := new NumOptCell[rows, cols]((_, _) => NumOptCell(0, 0));
    tt[rows - 1, cols - 1] := tt[rows - 1, cols - 1].(count := 1);
    tt[rows - 1, cols - 1] := tt[rows - 1, cols - 1].(value := g[rows - 1][cols - 1]);
    FillNumOptFromLastRow(tt, g, diag);
    FillNumOptFromLastCol(tt, g, diag);
    if diag {
      FillNumOptFromInteriorDiag(tt, g);
    } else {
      FillNumOptFromInteriorOrth(tt, g);
    }
    t := AsTupleMatrix(Snapshot2(tt));
  }

  /** The last row of `dptable_num_opt_from`, from the end: a walkable cell takes its right neighbour's count and adds its weight. */
  method FillNumOptFromLastRow(tt: array2<NumOptCell>, g: Grid, diag: bool)
    requires IsMatrix(g) && tt.Length0 == |g| && tt.Length1 == |g[0]|
    requires forall p, q :: 0 <= p < tt.Length0 && 0 <= q < tt.Length1 ==>
      tt[p, q] == if p == |g| - 1 && q == |g[0]| - 1 then NumOptFrom(g, diag, p, q) else NumOptCell(0, 0)
    modifies tt
    ensures forall p, q :: 0 <= p < tt.Length0 && 0 <= q < tt.Length1 ==>
      tt[p, q] == if p == |g| - 1 then NumOptFrom(g, diag, p, q) else NumOptCell(0, 0)
  {
    var rows, cols := |g|, |g[0]|;
    for i := cols - 1 downto 0
      invariant forall p, q :: 0 <= p < rows && 0 <= q < cols ==>
        tt[p, q] == if p == rows - 1 && q >= i then NumOptFrom(g, diag, p, q) else NumOptCell(0, 0)
    {
      if Walkable(g, (-1, i)) {
        tt[rows - 1, i] := tt[rows - 1, i].(count := tt[rows - 1, i + 1].count);
        tt[rows - 1, i] := tt[rows - 1, i].(value := g[rows - 1][i] + tt[rows - 1, i + 1].value);
      }
    }
  }

  /** The last column of `dptable_num_opt_from`, from the end: a walkable cell takes the count below and adds its weight. */
  method FillNumOptFromLastCol(tt: array2<NumOptCell>, g: Grid, diag: bool)
    requires IsMatrix(g) && tt.Length0 == |g| && tt.Length1 == |g[0]|
    requires forall p, q :: 0 <= p < tt.Length0 && 0 <= q < tt.Length1 ==>
      tt[p, q] == if p == |g| - 1 then NumOptFrom(g, diag, p, q) else NumOptCell(0, 0)
    modifies tt
    ensures forall p, q :: 0 <= p < tt.Length0 && 0 <= q < tt.Length1 ==>
      tt[p, q] == if p == |g| - 1 || q == |g[0]| - 1 then NumOptFrom(g, diag, p, q) else NumOptCell(0, 0)
  {
    var rows, cols := |g|, |g[0]|;
    for i := rows - 1 downto 0
      invariant forall p, q :: 0 <= p < rows && 0 <= q < cols ==>
        tt[p, q] == if p == rows - 1 || (q == cols - 1 && p >= i) then NumOptFrom(g, diag, p, q) else NumOptCell(0, 0)
    {
      if Walkable(g, (i, -1)) {
        tt[i, cols - 1] := tt[i, cols - 1].(count := tt[i + 1, cols - 1].count);
        tt[i, cols - 1] := tt[i, cols - 1].(value := g[i][cols - 1] + tt[i + 1, cols - 1].value);
      }
    }
  }

  /** The interior sweep of `dptable_num_opt_from` with diagonal moves: `Merge` of right, down and down-right. */
  method FillNumOptFromInteriorDiag(tt: array2<NumOptCell>, g: Grid)
    requires IsMatrix(g) && tt.Length0 == |g| && tt.Length1 == |g[0]|
    requires forall p, q :: 0 <= p < tt.Length0 && 0 <= q < tt.Length1 ==>
      tt[p, q] == if p == |g| - 1 || q == |g[0]| - 1 then NumOptFrom(g, true, p, q) else NumOptCell(0, 0)
    modifies tt
    ensures forall p, q :: 0 <= p < tt.Length0 && 0 <= q < tt.Length1 ==> tt[p, q] == NumOptFrom(g, true, p, q)
  {
    var rows, cols := |g|, |g[0]|;
    for i := rows - 1 downto 0
      invariant forall p, q :: 0 <= p < rows && 0 <= q < cols ==>
        tt[p, q] == if FromDone(rows, cols, p, q, i, 0) then NumOptFrom(g, true, p, q) else NumOptCell(0, 0)
    {
      for j := cols - 1 downto 0
        invariant forall p, q :: 0 <= p < rows && 0 <= q < cols ==>
          tt[p, q] == if FromDone(rows, cols, p, q, i, j) then NumOptFrom(g, true, p, q) else NumOptCell(0, 0)
      {
        FillNumOptFromCellDiag(tt, g, i, j);
      }
    }
  }

  /** One cell of the interior sweep of `dptable_num_opt_from` with diagonal moves. */
  method FillNumOptFromCellDiag(tt: array2<NumOptCell>, g: Grid, i: int, j: int)
    requires IsMatrix(g) && tt.Length0 == |g| && tt.Length1 == |g[0]|
    requires 0 <= i < |g| - 1 && 0 <= j < |g[0]| - 1
    requires forall p, q :: 0 <= p < tt.Length0 && 0 <= q < tt.Length1 ==>
      tt[p, q] == if FromDone(|g|, |g[0]|, p, q, i, j + 1) then NumOptFrom(g, true, p, q) else NumOptCell(0, 0)
    modifies tt
    ensures forall p, q :: 0 <= p < tt.Length0 && 0 <= q < tt.Length1 ==>
      tt[p, q] == if FromDone(|g|, |g[0]|, p, q, i, j) then NumOptFrom(g, true, p, q) else NumOptCell(0, 0)
  {
    if Walkable(g, (i, j)) {
      var right, down, corner := tt[i, j + 1], tt[i + 1, j], tt[i + 1, j + 1];
      assert right == NumOptFrom(g, true, i, j + 1) && down == NumOptFrom(g, true, i + 1, j);
      assert corner == NumOptFrom(g, true, i + 1, j + 1);
      var neighbors := [right, down, corner];
      var maxvalue := MaxValue(neighbors);
      MergeSmall(g[i][j], right, down, corner);
      tt[i, j] := tt[i, j].(count := CountAt(neighbors, maxvalue));
      tt[i, j] := tt[i, j].(value := g[i][j] + maxvalue);
      assert tt[i, j] == NumOptFrom(g, true, i, j);
    }
  }

  /** The interior sweep of `dptable_num_opt_from` without diagonal moves: `Merge` of right and down. */
  method FillNumOptFromInteriorOrth(tt: array2<NumOptCell>, g: Grid)
    requires IsMatrix(g) && tt.Length0 == |g| && tt.Length1 == |g[0]|
    requires forall p, q :: 0 <= p < tt.Length0 && 0 <= q < tt.Length1 ==>
      tt[p, q] == if p == |g| - 1 || q == |g[0]| - 1 then NumOptFrom(g, false, p, q) else NumOptCell(0, 0)
    modifies tt
    ensures forall p, q :: 0 <= p < tt.Length0 && 0 <= q < tt.Length1 ==> tt[p, q] == NumOptFrom(g, false, p, q)
  {
    var rows, cols := |g|, |g[0]|;
    for i := rows - 1 downto 0
      invariant forall p, q :: 0 <= p < rows && 0 <= q < cols ==>
        tt[p, q] == if FromDone(rows, cols, p, q, i, 0) then NumOptFrom(g, false, p, q) else NumOptCell(0, 0)
    {
      for j := cols - 1 downto 0
        invariant forall p, q :: 0 <= p < rows && 0 <= q < cols ==>
          tt[p, q] == if FromDone(rows, cols, p, q, i, j) then NumOptFrom(g, false, p, q) else NumOptCell(0, 0)
      {
        FillNumOptFromCellOrth(tt, g, i, j);
      }
    }
  }

  /** One cell of the interior sweep of `dptable_num_opt_from` without diagonal moves. */
  method FillNumOptFromCellOrth(tt: array2<NumOptCell>, g: Grid, i: int, j: int)
    requires IsMatrix(g) && tt.Length0 == |g| && tt.Length1 == |g[0]|
    requires 0 <= i < |g| - 1 && 0 <= j < |g[0]| - 1
    requires forall p, q :: 0 <= p < tt.Length0 && 0 <= q < tt.Length1 ==>
      tt[p, q] == if FromDone(|g|, |g[0]|, p, q, i, j + 1) then NumOptFrom(g, false, p, q) else NumOptCell(0, 0)
    modifies tt
    ensures forall p, q :: 0 <= p < tt.Length0 && 0 <= q < tt.Length1 ==>
      tt[p, q] == if FromDone(|g|, |g[0]|, p, q, i, j) then NumOptFrom(g, false, p, q) else NumOptCell(0, 0)
  {
    if Walkable(g, (i, j)) {
      var right, down := tt[i, j + 1], tt[i + 1, j];
      assert right == NumOptFrom(g, false, i, j + 1) && down == NumOptFrom(g, false, i + 1, j);
      var neighbors := [right, down];
      var maxvalue := MaxValue(neighbors);
      MergeSmall(g[i][j], right, down, down);
      tt[i, j] := tt[i, j].(count := CountAt(neighbors, maxvalue));
      tt[i, j] := tt[i, j].(value := g[i][j] + maxvalue);
      assert tt[i, j] == NumOptFrom(g, false, i, j);
    }
  }

  /** The total count of a two- or three-cell neighbour list. */
  lemma SumCountsSmall(a: NumOptCell, b: NumOptCell, c: NumOptCell)
    ensures SumCounts([a, b]) == a.count + b.count
    ensures SumCounts([a, b, c]) == a.count + b.count + c.count
  {
    assert [c][1..] == [];
    assert SumCounts([c]) == c.count;
    assert [b][1..] == [];
    assert SumCounts([b]) == b.count;
    assert [b, c][1..] == [c];
    assert SumCounts([b, c]) == b.count + c.count;
    assert [a, b][1..] == [b];
    assert [a, b, c][1..] == [b, c];
  }

  /** The best value of a two- or three-cell neighbour list. */
  lemma MaxValueSmall(a: NumOptCell, b: NumOptCell, c: NumOptCell)
    ensures MaxValue([a, b]) == Max(a.value, b.value)
    ensures MaxValue([a, b, c]) == Max(Max(a.value, b.value), c.value)
  {
    assert [a, b][1..] == [b];
    assert [b, c][1..] == [c];
    assert [a, b, c][1..] == [b, c];
  }

  /** `dptable_num_opt_from` stores `dptable_opt_from`'s entries as its values. */
  lemma {:induction false} NumOptFromValue(g: Grid, diag: bool, i: int, j: int)
    requires IsMatrix(g) && 0 <= i < |g| && 0 <= j < |g[0]|
    ensures NumOptFrom(g, diag, i, j).value == OptFrom(g, diag, i, j)
    decreases (|g| - i) + (|g[0]| - j)
  {
    if (i, j) != (|g| - 1, |g[0]| - 1) && g[i][j] != Unwalkable {
      if j < |g[0]| - 1 { NumOptFromValue(g, diag, i, j + 1); }
      if i < |g| - 1 { NumOptFromValue(g, diag, i + 1, j); }
      if diag && i < |g| - 1 && j < |g[0]| - 1 { NumOptFromValue(g, diag, i + 1, j + 1); }
    }
  }

  /** With a walkable origin, `dptable_num_opt_to` never counts more paths into a cell than `dptable_num_to` does. */
  lemma {:induction false} NumOptToAtMost(g: Grid, diag: bool, i: int, j: int)
    requires IsMatrix(g) && 0 <= i < |g| && 0 <= j < |g[0]| && g[0][0] != Unwalkable
    ensures NumOptTo(g, diag, i, j).count <= NumTo(g, diag, i, j)
    decreases i + j
  {
    if (i, j) == (0, 0) || g[i][j] == Unwalkable {
    } else if i == 0 {
      NumOptToAtMost(g, diag, i, j - 1);
    } else if j == 0 {
      NumOptToAtMost(g, diag, i - 1, j);
    } else {
      NumOptToAtMost(g, diag, i, j - 1);
      NumOptToAtMost(g, diag, i - 1, j);
      NumOptToAtMost(g, diag, i - 1, j - 1);
    }
  }

  /** `dptable_num_opt_from` never counts more paths out of a cell than `dptable_num_from` does. */
  lemma {:induction false} NumOptFromAtMost(g: Grid, diag: bool, i: int, j: int)
    requires IsMatrix(g) && 0 <= i < |g| && 0 <= j < |g[0]|
    ensures NumOptFrom(g, diag, i, j).count <= NumFrom(g, diag, i, j)
    decreases (|g| - i) + (|g[0]| - j)
  {
    if (i, j) == (|g| - 1, |g[0]| - 1) || g[i][j] == Unwalkable {
    } else if i == |g| - 1 {
      NumOptFromAtMost(g, diag, i, j + 1);
    } else if j == |g[0]| - 1 {
      NumOptFromAtMost(g, diag, i + 1, j);
    } else {
      NumOptFromAtMost(g, diag, i, j + 1);
      NumOptFromAtMost(g, diag, i + 1, j);
      NumOptFromAtMost(g, diag, i + 1, j + 1);
    }
  }

  /** One move into a walkable cell: its value is at least its weight plus the value it came from. */
  lemma NumOptToStep(g: Grid, diag: bool, prev: Cell, last: Cell)
    requires IsMatrix(g) && InGrid(g, prev) && InGrid(g, last) && CheckCellContiguity(prev, last, diag)
    requires g[last.0][last.1] != Unwalkable
    ensures NumOptTo(g, diag, last.0, last.1).value >= g[last.0][last.1] + NumOptTo(g, diag, prev.0, prev.1).value
  {
  }

  /** No walkable path from the origin weighs more than the value `dptable_num_opt_to` stores at its last cell. */
  lemma {:induction false} NumOptToBoundsPaths(g: Grid, diag: bool, path: seq<Cell>)
    requires IsMatrix(g) && |path| > 0 && OnGrid(g, path) && Feasible(path, diag) && path[0] == (0, 0)
    requires forall k :: 0 <= k < |path| ==> g[path[k].0][path[k].1] != Unwalkable
    ensures PathWeight(g, path) <= NumOptTo(g, diag, path[|path| - 1].0, path[|path| - 1].1).value
    decreases |path|
  {
    PathWeightLast(g, path);
    if |path| > 1 {
      var front := path[..|path| - 1];
      FeasibleSlice(path, diag, 0, |path| - 1);
      assert OnGrid(g, front) && front[0] == path[0] && front[|front| - 1] == path[|path| - 2];
      NumOptToBoundsPaths(g, diag, front);
      NumOptToStep(g, diag, path[|path| - 2], path[|path| - 1]);
    } else {
      assert path[..0] == [];
    }
  }

  /** The cells that some path reaches: those with a positive count, in order. */
  function Reached(ns: seq<NumOptCell>): (r: seq<NumOptCell>)
    ensures forall k :: 0 <= k < |r| ==> r[k].count > 0
  {
    if |ns| == 0 then []
    else if ns[0].count > 0 then [ns[0]] + Reached(ns[1..])
    else Reached(ns[1..])
  }

  /** `Reached` keeps exactly the cells with a positive count, so with no negative counts it keeps the total. */
  lemma {:induction false} ReachedFacts(ns: seq<NumOptCell>)
    ensures forall x :: x in ns && x.count > 0 ==> x in Reached(ns)
    ensures forall x :: x in Reached(ns) ==> x in ns
    ensures CountsNonNeg(ns) ==> SumCounts(Reached(ns)) == SumCounts(ns)
    decreases |ns|
  {
    if |ns| > 0 {
      var rest := Reached(ns[1..]);
      ReachedFacts(ns[1..]);
      assert forall x :: x in ns ==> x == ns[0] || x in ns[1..];
      assert CountsNonNeg(ns) ==> CountsNonNeg(ns[1..]);
      if ns[0].count > 0 {
        assert ([ns[0]] + rest)[1..] == rest;
      }
    }
  }

  /**
   * The cell `dptable_num_opt_to` is evidently meant to store: as
   * `NumOptTo`, but only neighbours that some path reaches compete for the
   * best value, and a cell that none of them reaches holds (0, 0).
   */
  function NumOptToReach(g: Grid, diag: bool, i: int, j: int): (x: NumOptCell)
    requires IsMatrix(g) && 0 <= i < |g| && 0 <= j < |g[0]|
    ensures x.count >= 0
    decreases i + j
  {
    if i == 0 && j == 0 then NumOptCell(1, g[0][0])
    else if g[i][j] == Unwalkable then NumOptCell(0, 0)
    else if i == 0 then ReachMerge(g[i][j], [NumOptToReach(g, diag, i, j - 1)])
    else if j == 0 then ReachMerge(g[i][j], [NumOptToReach(g, diag, i - 1, j)])
    else if diag then
      ReachMerge(g[i][j], [NumOptToReach(g, diag, i, j - 1), NumOptToReach(g, diag, i - 1, j), NumOptToReach(g, diag, i - 1, j - 1)])
    else ReachMerge(g[i][j], [NumOptToReach(g, diag, i, j - 1), NumOptToReach(g, diag, i - 1, j)])
  }

  /** The corrected step: `Merge` over the reached neighbours, or (0, 0) when none is reached. */
  function ReachMerge(w: int, ps: seq<NumOptCell>): (x: NumOptCell)
    ensures x.count >= 0
  {
    var ns := Reached(ps);
    assert CountsNonNeg(ns);
    if |ns| == 0 then NumOptCell(0, 0) else Merge(w, ns)
  }

  /** The corrected cells of the in-range predecessors of (i, j): left, up and, with diagonal moves, up-left. */
  function ReachPreds(g: Grid, diag: bool, i: int, j: int): (ns: seq<NumOptCell>)
    requires IsMatrix(g) && 0 <= i < |g| && 0 <= j < |g[0]| && (i, j) != (0, 0)
    ensures CountsNonNeg(ns)
    ensures g[i][j] != Unwalkable ==> NumOptToReach(g, diag, i, j) == ReachMerge(g[i][j], ns)
  {
    if i == 0 then [NumOptToReach(g, diag, i, j - 1)]
    else if j == 0 then [NumOptToReach(g, diag, i - 1, j)]
    else if diag then [NumOptToReach(g, diag, i, j - 1), NumOptToReach(g, diag, i - 1, j), NumOptToReach(g, diag, i - 1, j - 1)]
    else [NumOptToReach(g, diag, i, j - 1), NumOptToReach(g, diag, i - 1, j)]
  }

  /** If some neighbour is reached, the corrected step counts at least one path. */
  lemma ReachMergePositive(w: int, ns: seq<NumOptCell>)
    requires |Reached(ns)| > 0
    ensures Merge(w, Reached(ns)).count > 0
  {
    var r := Reached(ns);
    var m := MaxValue(r);
    var k :| 0 <= k < |r| && r[k].value == m;
    assert CountsNonNeg(r);
    CountAtMaxPositive(r, k);
  }

  /** The corrected predecessor list holds the corrected cells of left, up and up-left, so its total is theirs. */
  lemma ReachPredsSum(g: Grid, diag: bool, i: int, j: int)
    requires IsMatrix(g) && 0 <= i < |g| && 0 <= j < |g[0]| && (i, j) != (0, 0)
    ensures SumCounts(ReachPreds(g, diag, i, j)) ==
      (if j > 0 then NumOptToReach(g, diag, i, j - 1).count else 0)
      + (if i > 0 then NumOptToReach(g, diag, i - 1, j).count else 0)
      + (if diag && i > 0 && j > 0 then NumOptToReach(g, diag, i - 1, j - 1).count else 0)
  {
    if i > 0 && j > 0 {
      SumCountsSmall(NumOptToReach(g, diag, i, j - 1), NumOptToReach(g, diag, i - 1, j), NumOptToReach(g, diag, i - 1, j - 1));
    } else {
      var x := if i == 0 then NumOptToReach(g, diag, i, j - 1) else NumOptToReach(g, diag, i - 1, j);
      assert [x][1..] == [];
    }
  }

  /** At a walkable cell other than the origin, the corrected count is at most its predecessors' counts together. */
  lemma ReachCountAtMostStep(g: Grid, diag: bool, i: int, j: int)
    requires IsMatrix(g) && 0 <= i < |g| && 0 <= j < |g[0]| && (i, j) != (0, 0) && g[i][j] != Unwalkable
    ensures NumOptToReach(g, diag, i, j).count <=
      (if j > 0 then NumOptToReach(g, diag, i, j - 1).count else 0)
      + (if i > 0 then NumOptToReach(g, diag, i - 1, j).count else 0)
      + (if diag && i > 0 && j > 0 then NumOptToReach(g, diag, i - 1, j - 1).count else 0)
  {
    ReachPredsSum(g, diag, i, j);
    var ps := ReachPreds(g, diag, i, j);
    var r := Reached(ps);
    ReachedFacts(ps);
    assert CountsNonNeg(r);
  }

  /** The corrected table never counts more paths into a cell than `dptable_num_to` does. */
  lemma {:induction false} ReachAtMost(g: Grid, diag: bool, i: int, j: int)
    requires IsMatrix(g) && 0 <= i < |g| && 0 <= j < |g[0]| && g[0][0] != Unwalkable
    ensures NumOptToReach(g, diag, i, j).count <= NumTo(g, diag, i, j)
    decreases i + j
  {
    if (i, j) != (0, 0) && g[i][j] != Unwalkable {
      if j > 0 { ReachAtMost(g, diag, i, j - 1); }
      if i > 0 { ReachAtMost(g, diag, i - 1, j); }
      if diag && i > 0 && j > 0 { ReachAtMost(g, diag, i - 1, j - 1); }
      ReachAtMostStep(g, diag, i, j);
    }
  }

  /** The inductive step of `ReachAtMost`, from its predecessors to a walkable cell. */
  lemma ReachAtMostStep(g: Grid, diag: bool, i: int, j: int)
    requires IsMatrix(g) && 0 <= i < |g| && 0 <= j < |g[0]| && (i, j) != (0, 0) && g[i][j] != Unwalkable
    requires j > 0 ==> NumOptToReach(g, diag, i, j - 1).count <= NumTo(g, diag, i, j - 1)
    requires i > 0 ==> NumOptToReach(g, diag, i - 1, j).count <= NumTo(g, diag, i - 1, j)
    requires diag && i > 0 && j > 0 ==> NumOptToReach(g, diag, i - 1, j - 1).count <= NumTo(g, diag, i - 1, j - 1)
    ensures NumOptToReach(g, diag, i, j).count <= NumTo(g, diag, i, j)
  {
    ReachCountAtMostStep(g, diag, i, j);
  }

  /**
   * One move out of a reached cell into a walkable cell: the new cell is
   * reached too, and its corrected value is at least its weight plus the
   * value it came from.
   */
  lemma ReachStep(g: Grid, diag: bool, prev: Cell, last: Cell)
    requires IsMatrix(g) && InGrid(g, prev) && InGrid(g, last) && CheckCellContiguity(prev, last, diag)
    requires g[last.0][last.1] != Unwalkable && NumOptToReach(g, diag, prev.0, prev.1).count > 0
    ensures NumOptToReach(g, diag, last.0, last.1).count > 0
    ensures NumOptToReach(g, diag, last.0, last.1).value >= g[last.0][last.1] + NumOptToReach(g, diag, prev.0, prev.1).value
  {
    var ps := ReachPreds(g, diag, last.0, last.1);
    PredecessorListed(g, diag, prev, last);
    ReachMergeStep(g[last.0][last.1], ps, NumOptToReach(g, diag, prev.0, prev.1));
  }

  /** The cell a move comes from is among the corrected predecessors of the cell it enters. */
  lemma PredecessorListed(g: Grid, diag: bool, prev: Cell, last: Cell)
    requires IsMatrix(g) && InGrid(g, prev) && InGrid(g, last) && CheckCellContiguity(prev, last, diag)
    ensures NumOptToReach(g, diag, prev.0, prev.1) in ReachPreds(g, diag, last.0, last.1)
  {
    var ps := ReachPreds(g, diag, last.0, last.1);
    var x := NumOptToReach(g, diag, prev.0, prev.1);
    if last.0 == 0 || last.1 == 0 {
      assert ps == [x];
    } else if diag {
      assert x == ps[0] || x == ps[1] || x == ps[2];
    } else {
      assert x == ps[0] || x == ps[1];
    }
  }

  /** A reached cell among the neighbours: the corrected step counts a path and is worth at least the weight plus that cell's value. */
  lemma ReachMergeStep(w: int, ps: seq<NumOptCell>, x: NumOptCell)
    requires x in ps && x.count > 0
    ensures ReachMerge(w, ps).count > 0 && ReachMerge(w, ps).value >= w + x.value
  {
    ReachedFacts(ps);
    var r := Reached(ps);
    assert x in r;
    ReachMergePositive(w, ps);
  }

  /** With a walkable origin, every cell that `dptable_num_to` reaches has a positive corrected count. */
  lemma {:induction false} ReachPositive(g: Grid, diag: bool, i: int, j: int)
    requires IsMatrix(g) && 0 <= i < |g| && 0 <= j < |g[0]| && g[0][0] != Unwalkable
    requires NumTo(g, diag, i, j) > 0
    ensures NumOptToReach(g, diag, i, j).count > 0
    decreases i + j
  {
    if (i, j) != (0, 0) {
      var prev := if j > 0 && NumTo(g, diag, i, j - 1) > 0 then (i, j - 1)
        else if i > 0 && NumTo(g, diag, i - 1, j) > 0 then (i - 1, j)
        else (i - 1, j - 1);
      ReachPositive(g, diag, prev.0, prev.1);
      ReachStep(g, diag, prev, (i, j));
    }
  }

  /** With a walkable origin, the corrected table counts a path into a cell exactly when `dptable_num_to` does. */
  lemma ReachCountPositive(g: Grid, diag: bool, i: int, j: int)
    requires IsMatrix(g) && 0 <= i < |g| && 0 <= j < |g[0]| && g[0][0] != Unwalkable
    ensures NumOptToReach(g, diag, i, j).count > 0 <==> NumTo(g, diag, i, j) > 0
  {
    ReachAtMost(g, diag, i, j);
    if NumTo(g, diag, i, j) > 0 {
      ReachPositive(g, diag, i, j);
    }
  }

  /** No walkable path from the origin weighs more than the corrected value at its last cell. */
  lemma {:induction false} ReachBoundsPaths(g: Grid, diag: bool, path: seq<Cell>)
    requires IsMatrix(g) && |path| > 0 && OnGrid(g, path) && Feasible(path, diag) && path[0] == (0, 0)
    requires forall k :: 0 <= k < |path| ==> g[path[k].0][path[k].1] != Unwalkable
    ensures PathWeight(g, path) <= NumOptToReach(g, diag, path[|path| - 1].0, path[|path| - 1].1).value
    decreases |path|
  {
    PathWeightLast(g, path);
    if |path| > 1 {
      var front := path[..|path| - 1];
      var prev := path[|path| - 2];
      FeasibleSlice(path, diag, 0, |path| - 1);
      assert OnGrid(g, front) && front[0] == path[0] && front[|front| - 1] == prev;
      ReachBoundsPaths(g, diag, front);
      assert g[0][0] != Unwalkable;
      NumToCountsPaths(g, diag, front);
      ReachCountPositive(g, diag, prev.0, prev.1);
      ReachStep(g, diag, prev, path[|path| - 1]);
    } else {
      assert path[..0] == [];
    }
  }

  /**
   * `dptable_num_opt_to` as written on [[0, -1, 9], [0, 0, 0]] without
   * diagonal moves: one walkable path reaches the bottom-right corner, with
   * value 0, yet the table stores (0, 9) there, taken from the unreachable
   * cell above; the corrected table stores (1, 0).
   */
  lemma NumOptToMissesPath()
    ensures var g := [[0, -1, 9], [0, 0, 0]];
      IsMatrix(g) && NumTo(g, false, 1, 2) == 1
      && NumOptTo(g, false, 1, 2) == NumOptCell(0, 9)
      && NumOptToReach(g, false, 1, 2) == NumOptCell(1, 0)
  {
    var g := [[0, -1, 9], [0, 0, 0]];
    var a, b, z := NumOptCell(1, 0), NumOptCell(0, 9), NumOptCell(0, 0);
    assert [a, z][1..] == [z] && [z][1..] == [];
    assert [a, b][1..] == [b] && [b][1..] == [];
    assert NumOptTo(g, false, 1, 0) == a;
    assert NumOptTo(g, false, 0, 1) == z;
    assert MaxValue([a, z]) == 0 && CountAt([a, z], 0) == 1;
    assert NumOptTo(g, false, 1, 1) == a;
    assert NumOptTo(g, false, 0, 2) == b;
    assert MaxValue([a, b]) == 9 && CountAt([a, b], 9) == 0;
    // the corrected table
    assert [a] + [] == [a] && [a][1..] == [];
    assert NumOptToReach(g, false, 0, 1) == z;
    assert ReachPreds(g, false, 0, 2) == [z] && Reached([z]) == [];
    assert NumOptToReach(g, false, 0, 2) == z;
    assert ReachPreds(g, false, 1, 0) == [a] && Reached([a]) == [a];
    assert MaxValue([a]) == 0 && CountAt([a], 0) == 1;
    assert NumOptToReach(g, false, 1, 0) == a;
    assert ReachPreds(g, false, 1, 1) == [a, z] && Reached([a, z]) == [a];
    assert NumOptToReach(g, false, 1, 1) == a;
    assert ReachPreds(g, false, 1, 2) == [a, z] && Reached([a, z]) == [a];
  }
}
