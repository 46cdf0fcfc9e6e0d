/**
 * Reached-only versions of the two best-value tables of the robot library.
 * `dptable_opt_to` lets a spend slot that no path reaches compete in its
 * `max` as a path worth 0, and `dptable_opt_from` lets a successor that is
 * cut off from the bottom-right corner pass on its entry. Here such a state
 * holds no value, and every entry is proved to be the value of a path that
 * collects it, and at least the value of every other path.
 */
module RobotOptReach {
  import opened Wrappers
  import opened RobotGrid
  import opened RobotPathCount
  import opened RobotOpt
  import opened RobotPathLists
  import opened RobotPaths

  /** The better of two optional values; a missing value does not compete. */
  function Better(x: Option<int>, y: Option<int>): (r: Option<int>)
    ensures r.Some? <==> x.Some? || y.Some?
    ensures x.Some? ==> r.Some? && r.value >= x.value
    ensures y.Some? ==> r.Some? && r.value >= y.value
    ensures r.Some? ==> r == x || r == y
  {
    if x.None? then y
    else if y.None? then x
    else Some(Max(x.value, y.value))
  }

  /** A path from the origin to `e` whose spend stays within `b`. */
  predicate SpendPath(g: Grid, diag: bool, p: seq<Cell>, e: Cell, b: int)
    requires IsMatrix(g)
  {
    |p| > 0 && OnGrid(g, p) && p[0] == (0, 0) && p[|p| - 1] == e && Feasible(p, diag) && PathCharge(g, p) <= b
  }

  /**
   * `dptable_opt_to` with unreached slots left out: the origin holds its
   * value at every spend from 0; any other cell holds nothing below its own
   * cost, and above it the cell's value plus the best reached source entry
   * at b minus the cost, or nothing when no source is reached.
   */
  function OptToReach(g: Grid, diag: bool, r: int, c: int, b: int): (v: Option<int>)
    requires IsMatrix(g) && InGrid(g, (r, c))
    ensures (r, c) == (0, 0) ==> (v.Some? <==> b >= 0)
    ensures v.Some? ==> b >= 0 && ((r, c) != (0, 0) ==> b >= Cost(g[r][c]))
    ensures v.Some? ==> v.value >= Value(g[r][c]) && v.value >= Value(g[0][0])
    decreases r + c
  {
    if b < 0 then None
    else if r == 0 && c == 0 then Some(Value(g[0][0]))
    else if b < Cost(g[r][c]) then None
    else
      var b0 := b - Cost(g[r][c]);
      var left := if c > 0 then OptToReach(g, diag, r, c - 1, b0) else None;
      var up := if r > 0 then OptToReach(g, diag, r - 1, c, b0) else None;
      var corner := if diag && r > 0 && c > 0 then OptToReach(g, diag, r - 1, c - 1, b0) else None;
      var best := Better(Better(left, up), corner);
      if best.None? then None else Some(Value(g[r][c]) + best.value)
  }

  /** A move from a reached source reaches the cell it enters, worth at least the source's entry plus the cell's value. */
  lemma OptToReachMove(g: Grid, diag: bool, prev: Cell, last: Cell, b: int)
    requires IsMatrix(g) && InGrid(g, prev) && InGrid(g, last) && CheckCellContiguity(prev, last, diag)
    requires OptToReach(g, diag, prev.0, prev.1, b - Cost(g[last.0][last.1])).Some?
    ensures OptToReach(g, diag, last.0, last.1, b).Some?
    ensures OptToReach(g, diag, last.0, last.1, b).value >=
      OptToReach(g, diag, prev.0, prev.1, b - Cost(g[last.0][last.1])).value + Value(g[last.0][last.1])
  {
  }

  /** Every path from the origin within spend b reaches its last cell's entry, and collects no more than it. */
  lemma {:induction false} OptToReachBoundsPaths(g: Grid, diag: bool, p: seq<Cell>, b: int)
    requires IsMatrix(g) && |p| > 0 && SpendPath(g, diag, p, p[|p| - 1], b)
    ensures OptToReach(g, diag, p[|p| - 1].0, p[|p| - 1].1, b).Some?
    ensures PathValue(g, p) <= OptToReach(g, diag, p[|p| - 1].0, p[|p| - 1].1, b).value
    decreases |p|
  {
    if |p| > 1 {
      var front := p[..|p| - 1];
      var prev, last := p[|p| - 2], p[|p| - 1];
      FeasibleSlice(p, diag, 0, |p| - 1);
      assert front[0] == p[0] && front[|front| - 1] == prev;
      assert OnGrid(g, front);
      OptToReachBoundsPaths(g, diag, front, b - Cost(g[last.0][last.1]));
      OptToReachMove(g, diag, prev, last, b);
    }
  }

  /** The source an entry away from the origin is built from: a reached neighbour one move back whose entry plus the cell's value is the entry. */
  lemma OptToReachSource(g: Grid, diag: bool, r: int, c: int, b: int) returns (prev: Cell)
    requires IsMatrix(g) && InGrid(g, (r, c)) && (r, c) != (0, 0) && OptToReach(g, diag, r, c, b).Some?
    ensures InGrid(g, prev) && prev.0 + prev.1 < r + c && CheckCellContiguity(prev, (r, c), diag)
    ensures OptToReach(g, diag, prev.0, prev.1, b - Cost(g[r][c])).Some?
    ensures OptToReach(g, diag, r, c, b).value == OptToReach(g, diag, prev.0, prev.1, b - Cost(g[r][c])).value + Value(g[r][c])
  {
    var b0 := b - Cost(g[r][c]);
    var left := if c > 0 then OptToReach(g, diag, r, c - 1, b0) else None;
    var up := if r > 0 then OptToReach(g, diag, r - 1, c, b0) else None;
    var corner := if diag && r > 0 && c > 0 then OptToReach(g, diag, r - 1, c - 1, b0) else None;
    var best := Better(Better(left, up), corner);
    assert b >= Cost(g[r][c]) && best.Some? && OptToReach(g, diag, r, c, b).value == Value(g[r][c]) + best.value;
    if left.Some? && best == left {
      prev := (r, c - 1);
    } else if up.Some? && best == up {
      prev := (r - 1, c);
    } else {
      assert best == corner;
      prev := (r - 1, c - 1);
    }
  }

  /** A path within spend b less a cell's cost, extended by one move into that cell, is a path within spend b collecting the cell's value more. */
  lemma SpendPathExtend(g: Grid, diag: bool, q: seq<Cell>, last: Cell, b: int)
    requires IsMatrix(g) && |q| > 0 && InGrid(g, last) && CheckCellContiguity(q[|q| - 1], last, diag)
    requires SpendPath(g, diag, q, q[|q| - 1], b - Cost(g[last.0][last.1]))
    ensures SpendPath(g, diag, q + [last], last, b)
    ensures PathValue(g, q + [last]) == PathValue(g, q) + Value(g[last.0][last.1])
  {
    var p := q + [last];
    assert p[..|p| - 1] == q;
    FeasibleExtend(q, last, diag);
    assert OnGrid(g, p);
  }

  /** Every entry is attained: some path from the origin within spend b collects exactly it. */
  lemma {:induction false} OptToReachAttained(g: Grid, diag: bool, r: int, c: int, b: int)
    requires IsMatrix(g) && InGrid(g, (r, c)) && OptToReach(g, diag, r, c, b).Some?
    ensures exists p :: SpendPath(g, diag, p, (r, c), b) && PathValue(g, p) == OptToReach(g, diag, r, c, b).value
    decreases r + c
  {
    if r == 0 && c == 0 {
      var p := [(0, 0)];
      assert p[..0] == [];
      assert SpendPath(g, diag, p, (r, c), b) && PathValue(g, p) == Value(g[0][0]);
    } else {
      var prev := OptToReachSource(g, diag, r, c, b);
      var b0 := b - Cost(g[r][c]);
      OptToReachAttained(g, diag, prev.0, prev.1, b0);
      var q :| SpendPath(g, diag, q, prev, b0) && PathValue(g, q) == OptToReach(g, diag, prev.0, prev.1, b0).value;
      SpendPathExtend(g, diag, q, (r, c), b);
    }
  }

  /** A reached entry never exceeds the entry `dptable_opt_to` stores. */
  lemma OptToReachBelow(g: Grid, diag: bool, r: int, c: int, b: int)
    requires IsMatrix(g) && InGrid(g, (r, c)) && OptToReach(g, diag, r, c, b).Some?
    ensures OptToReach(g, diag, r, c, b).value <= OptTo(g, diag, r, c, b)
  {
    OptToReachAttained(g, diag, r, c, b);
    var p :| SpendPath(g, diag, p, (r, c), b) && PathValue(g, p) == OptToReach(g, diag, r, c, b).value;
    OptToBoundsPaths(g, diag, p, b);
  }

  /**
   * On [[0, -1, 3], [0, 0, 0]] without diagonal moves, `dptable_opt_to`
   * stores 3 at (1, 2) for spend 0, through the blocked cell (0, 1) that
   * spend 0 cannot enter; every path within that spend collects less, and
   * the reached-only entry is 0.
   */
  lemma OptToCountsUnreached(g: Grid)
    requires g == [[0, -1, 3], [0, 0, 0]]
    ensures IsMatrix(g) && OptTo(g, false, 1, 2, 0) == 3 && OptToReach(g, false, 1, 2, 0) == Some(0)
    ensures forall p :: SpendPath(g, false, p, (1, 2), 0) ==> PathValue(g, p) < 3
  {
    assert IsMatrix(g);
    assert OptTo(g, false, 0, 1, 0) == 0 && OptTo(g, false, 1, 1, 0) == 0;
    assert OptTo(g, false, 0, 2, 0) == 3;
    assert OptToReach(g, false, 0, 1, 0) == None;
    assert OptToReach(g, false, 0, 2, 0) == None;
    assert OptToReach(g, false, 1, 0, 0) == Some(0);
    assert OptToReach(g, false, 1, 1, 0) == Some(0);
    forall p | SpendPath(g, false, p, (1, 2), 0)
      ensures PathValue(g, p) < 3
    {
      OptToReachBoundsPaths(g, false, p, 0);
    }
  }

  /**
   * `dptable_opt_from` with cut-off cells left out: a blocked cell holds
   * nothing, the bottom-right corner its weight, and any other cell its
   * weight plus the best entry among the in-range successors that hold one,
   * or nothing when none does.
   */
  function OptFromReach(g: Grid, diag: bool, i: int, j: int): (v: Option<int>)
    requires IsMatrix(g) && 0 <= i < |g| && 0 <= j < |g[0]|
    ensures (i, j) == (|g| - 1, |g[0]| - 1) ==> (v.Some? <==> g[i][j] != Unwalkable)
    ensures v.Some? ==> g[i][j] != Unwalkable && g[|g| - 1][|g[0]| - 1] != Unwalkable
    decreases (|g| - i) + (|g[0]| - j)
  {
    if g[i][j] == Unwalkable then None
    else if i == |g| - 1 && j == |g[0]| - 1 then Some(g[i][j])
    else
      var right := if j + 1 < |g[0]| then OptFromReach(g, diag, i, j + 1) else None;
      var down := if i + 1 < |g| then OptFromReach(g, diag, i + 1, j) else None;
      var across := if diag && i + 1 < |g| && j + 1 < |g[0]| then OptFromReach(g, diag, i + 1, j + 1) else None;
      var best := Better(Better(right, down), across);
      if best.None? then None else Some(g[i][j] + best.value)
  }

  /** A walkable cell one move before a cell that holds an entry holds one too, at least its weight plus that entry. */
  lemma OptFromReachMove(g: Grid, diag: bool, cur: Cell, next: Cell)
    requires IsMatrix(g) && InGrid(g, cur) && InGrid(g, next) && CheckCellContiguity(cur, next, diag)
    requires g[cur.0][cur.1] != Unwalkable && OptFromReach(g, diag, next.0, next.1).Some?
    ensures OptFromReach(g, diag, cur.0, cur.1).Some?
    ensures OptFromReach(g, diag, cur.0, cur.1).value >= g[cur.0][cur.1] + OptFromReach(g, diag, next.0, next.1).value
  {
  }

  /** Every walkable path to the bottom-right corner starts at a cell holding an entry, and weighs no more than it. */
  lemma {:induction false} OptFromReachBoundsPaths(g: Grid, diag: bool, p: seq<Cell>)
    requires IsMatrix(g) && |p| > 0 && WalkablePath(g, diag, p, p[0], Corner(g))
    ensures OptFromReach(g, diag, p[0].0, p[0].1).Some?
    ensures PathWeight(g, p) <= OptFromReach(g, diag, p[0].0, p[0].1).value
    decreases |p|
  {
    if |p| > 1 {
      var rest := p[1..];
      FeasibleSlice(p, diag, 1, |p|);
      assert rest[|rest| - 1] == p[|p| - 1];
      assert OnGrid(g, rest);
      assert forall k :: 0 <= k < |rest| ==> rest[k] == p[k + 1];
      OptFromReachBoundsPaths(g, diag, rest);
      assert CheckCellContiguity(p[0], p[1], diag);
      OptFromReachMove(g, diag, p[0], p[1]);
    } else {
      assert PathWeight(g, p[1..]) == 0;
    }
  }

  /** The successor an entry away from the corner is built from: a neighbour one move on holding an entry that the cell's weight tops up to its own. */
  lemma OptFromReachSuccessor(g: Grid, diag: bool, i: int, j: int) returns (next: Cell)
    requires IsMatrix(g) && 0 <= i < |g| && 0 <= j < |g[0]| && (i, j) != Corner(g) && OptFromReach(g, diag, i, j).Some?
    ensures InGrid(g, next) && next.0 >= i && next.1 >= j && next != (i, j) && CheckCellContiguity((i, j), next, diag)
    ensures g[i][j] != Unwalkable && OptFromReach(g, diag, next.0, next.1).Some?
    ensures OptFromReach(g, diag, i, j).value == g[i][j] + OptFromReach(g, diag, next.0, next.1).value
  {
    var right := if j + 1 < |g[0]| then OptFromReach(g, diag, i, j + 1) else None;
    var down := if i + 1 < |g| then OptFromReach(g, diag, i + 1, j) else None;
    var across := if diag && i + 1 < |g| && j + 1 < |g[0]| then OptFromReach(g, diag, i + 1, j + 1) else None;
    var best := Better(Better(right, down), across);
    assert best.Some? && OptFromReach(g, diag, i, j).value == g[i][j] + best.value;
    if right.Some? && best == right {
      next := (i, j + 1);
    } else if down.Some? && best == down {
      next := (i + 1, j);
    } else {
      assert best == across;
      next := (i + 1, j + 1);
    }
  }

  /** A walkable cell one move before the start of a walkable path to the corner starts a walkable path that weighs its weight more. */
  lemma WalkablePathPrepend(g: Grid, diag: bool, c: Cell, q: seq<Cell>)
    requires IsMatrix(g) && |q| > 0 && InGrid(g, c) && g[c.0][c.1] != Unwalkable
    requires WalkablePath(g, diag, q, q[0], Corner(g)) && CheckCellContiguity(c, q[0], diag)
    ensures WalkablePath(g, diag, [c] + q, c, Corner(g))
    ensures PathWeight(g, [c] + q) == g[c.0][c.1] + PathWeight(g, q)
  {
    var p := [c] + q;
    assert p[1..] == q;
    forall k | 0 <= k < |p| - 1
      ensures CheckCellContiguity(p[k], p[k + 1], diag)
    {
      if k > 0 {
        assert p[k] == q[k - 1] && p[k + 1] == q[k];
      }
    }
    forall k | 0 <= k < |p|
      ensures InGrid(g, p[k]) && g[p[k].0][p[k].1] != Unwalkable
    {
      if k > 0 {
        assert p[k] == q[k - 1];
      }
    }
  }

  /** Every entry is attained: some walkable path from the cell to the bottom-right corner weighs exactly it. */
  lemma {:induction false} OptFromReachAttained(g: Grid, diag: bool, i: int, j: int)
    requires IsMatrix(g) && 0 <= i < |g| && 0 <= j < |g[0]| && OptFromReach(g, diag, i, j).Some?
    ensures exists p :: WalkablePath(g, diag, p, (i, j), Corner(g)) && PathWeight(g, p) == OptFromReach(g, diag, i, j).value
    decreases (|g| - i) + (|g[0]| - j)
  {
    if i == |g| - 1 && j == |g[0]| - 1 {
      var p := [(i, j)];
      assert PathWeight(g, p[1..]) == 0;
      assert WalkablePath(g, diag, p, (i, j), Corner(g)) && PathWeight(g, p) == g[i][j];
    } else {
      var next := OptFromReachSuccessor(g, diag, i, j);
      OptFromReachAttained(g, diag, next.0, next.1);
      var q :| WalkablePath(g, diag, q, next, Corner(g)) && PathWeight(g, q) == OptFromReach(g, diag, next.0, next.1).value;
      WalkablePathPrepend(g, diag, (i, j), q);
    }
  }

  /** A reached entry never exceeds the entry `dptable_opt_from` stores. */
  lemma OptFromReachBelow(g: Grid, diag: bool, i: int, j: int)
    requires IsMatrix(g) && 0 <= i < |g| && 0 <= j < |g[0]| && OptFromReach(g, diag, i, j).Some?
    ensures OptFromReach(g, diag, i, j).value <= OptFrom(g, diag, i, j)
  {
    OptFromReachAttained(g, diag, i, j);
    var p :| WalkablePath(g, diag, p, (i, j), Corner(g)) && PathWeight(g, p) == OptFromReach(g, diag, i, j).value;
    OptFromBoundsPaths(g, diag, p);
  }

  /** The entries of `dptable_opt_from` on [[0, 9], [0, -1], [0, 0]] without diagonal moves: [[9, 9], [0, 0], [0, 0]]. */
  lemma CutOffTable(g: Grid)
    requires g == [[0, 9], [0, -1], [0, 0]]
    ensures IsMatrix(g)
    ensures OptFrom(g, false, 2, 1) == 0 && OptFrom(g, false, 2, 0) == 0
    ensures OptFrom(g, false, 1, 1) == 0 && OptFrom(g, false, 1, 0) == 0
    ensures OptFrom(g, false, 0, 1) == 9 && OptFrom(g, false, 0, 0) == 9
  {
    assert IsMatrix(g);
    assert OptFrom(g, false, 2, 1) == 0;
    assert OptFrom(g, false, 2, 0) == 0;
    assert OptFrom(g, false, 1, 1) == 0;
    assert OptFrom(g, false, 1, 0) == 0;
    assert OptFrom(g, false, 0, 1) == 9;
  }

  /** The reached-only entries on the same grid: nothing at (0, 1), and 0 at the origin, carried down the left column. */
  lemma CutOffReach(g: Grid)
    requires g == [[0, 9], [0, -1], [0, 0]]
    ensures IsMatrix(g) && OptFromReach(g, false, 0, 1) == None && OptFromReach(g, false, 0, 0) == Some(0)
  {
    assert IsMatrix(g);
    assert OptFromReach(g, false, 2, 1) == Some(0);
    assert OptFromReach(g, false, 2, 0) == Some(0);
    assert OptFromReach(g, false, 1, 1) == None;
    assert OptFromReach(g, false, 1, 0) == Some(0);
    assert OptFromReach(g, false, 0, 1) == None;
  }

  /**
   * On [[0, 9], [0, -1], [0, 0]] without diagonal moves, `dptable_opt_from`
   * stores 9 at the origin, passed on from (0, 1), whose only way on is
   * the blocked cell (1, 1); every walkable path to the corner weighs less,
   * and the reached-only entry is 0.
   */
  lemma OptFromCountsUnreached(g: Grid)
    requires g == [[0, 9], [0, -1], [0, 0]]
    ensures IsMatrix(g) && OptFrom(g, false, 0, 0) == 9 && OptFromReach(g, false, 0, 0) == Some(0)
    ensures forall p :: WalkablePath(g, false, p, (0, 0), (2, 1)) ==> PathWeight(g, p) < 9
  {
    CutOffTable(g);
    CutOffReach(g);
    assert Corner(g) == (2, 1);
    forall p | WalkablePath(g, false, p, (0, 0), (2, 1))
      ensures PathWeight(g, p) < 9
    {
      OptFromReachBoundsPaths(g, false, p);
    }
  }

  /**
   * Over that grid's `dptable_opt_from` table, [[9, 9], [0, 0], [0, 0]],
   * the search of `build_all_opt_path` finds no path at all: the only step
   * that keeps the value equation leads into the blocked cell.
   */
  lemma AllOptPathsEmpty(g: Grid, dp: seq<seq<int>>)
    requires g == [[0, 9], [0, -1], [0, 0]] && dp == [[9, 9], [0, 0], [0, 0]]
    ensures IsMatrix(g) && forall i, j :: 0 <= i < 3 && 0 <= j < 2 ==> dp[i][j] == OptFrom(g, false, i, j)
    ensures Extensions(g, dp, false, [(0, 0)]) == []
  {
    CutOffTable(g);
    assert SameShape(g, dp);
    var p1 := [(0, 0)];
    var p2 := p1 + [(0, 1)];
    var p3 := p2 + [(1, 1)];
    // from (1, 1) the step down misses the equation by the blocked cell's weight
    assert Branch(g, dp, false, p3, (2, 1)) == [] && Branch(g, dp, false, p3, (1, 2)) == [];
    assert Extensions(g, dp, false, p3) == [];
    assert Branch(g, dp, false, p2, (1, 1)) == [] && Branch(g, dp, false, p2, (0, 2)) == [];
    assert Extensions(g, dp, false, p2) == [];
    assert Branch(g, dp, false, p1, (1, 0)) == [] && Branch(g, dp, false, p1, (0, 1)) == [];
  }
}
