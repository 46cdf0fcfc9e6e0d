/**
 * What the corrected `dptable_num_opt_to` counts. Over the list of every
 * walkable path from the origin, its value is the largest weight a path
 * reaches and its count is the number of paths of exactly that weight, so
 * the value is attained whenever the count is positive.
 */
module RobotNumOptPaths {
  import opened RobotGrid
  import opened RobotPathCount
  import opened RobotOpt
  import opened RobotPathLists
  import opened RobotNumOpt

  /** The number of paths of the list that lie on the grid and weigh exactly `t`. */
  function CountWeight(g: Grid, ps: seq<seq<Cell>>, t: int): (n: nat)
    requires IsMatrix(g)
    ensures n <= |ps|
  {
    if |ps| == 0 then 0
    else (if OnGrid(g, ps[0]) && PathWeight(g, ps[0]) == t then 1 else 0) + CountWeight(g, ps[1..], t)
  }

  /** Counting over two lists laid end to end adds the two counts. */
  lemma {:induction false} CountWeightJoin(g: Grid, a: seq<seq<Cell>>, b: seq<seq<Cell>>, t: int)
    requires IsMatrix(g)
    ensures CountWeight(g, a + b, t) == CountWeight(g, a, t) + CountWeight(g, b, t)
    decreases |a|
  {
    if |a| == 0 {
      assert a + b == b;
    } else {
      assert (a + b)[1..] == a[1..] + b;
      CountWeightJoin(g, a[1..], b, t);
    }
  }

  /** Extending every path by the cell `c` shifts every weight by the weight of `c`. */
  lemma {:induction false} CountWeightAppend(g: Grid, ps: seq<seq<Cell>>, c: Cell, t: int)
    requires IsMatrix(g) && InGrid(g, c)
    ensures CountWeight(g, AppendAll(ps, c), t) == CountWeight(g, ps, t - g[c.0][c.1])
    decreases |ps|
  {
    if |ps| > 0 {
      var r := AppendAll(ps, c);
      var q := ps[0] + [c];
      AppendAllAt(ps, c, 0);
      assert OnGrid(g, q) <==> OnGrid(g, ps[0]) by {
        assert forall h :: 0 <= h < |ps[0]| ==> q[h] == ps[0][h];
        assert q[|ps[0]|] == c;
      }
      if OnGrid(g, q) {
        assert q[..|q| - 1] == ps[0];
        PathWeightLast(g, q);
      }
      assert r[1..] == AppendAll(ps[1..], c);
      CountWeightAppend(g, ps[1..], c, t);
    }
  }

  /** A list none of whose paths on the grid weighs `t` counts none. */
  lemma {:induction false} CountWeightNone(g: Grid, ps: seq<seq<Cell>>, t: int)
    requires IsMatrix(g)
    requires forall k :: 0 <= k < |ps| && OnGrid(g, ps[k]) ==> PathWeight(g, ps[k]) != t
    ensures CountWeight(g, ps, t) == 0
    decreases |ps|
  {
    if |ps| > 0 {
      assert forall k :: 0 <= k < |ps| - 1 ==> ps[1..][k] == ps[k + 1];
      CountWeightNone(g, ps[1..], t);
    }
  }

  /** A cell the corrected table does not reach has no walkable path from the origin. */
  lemma UnreachedNoPaths(g: Grid, diag: bool, a: int, b: int)
    requires IsMatrix(g) && 0 <= a < |g| && 0 <= b < |g[0]| && g[0][0] != Unwalkable
    ensures NumOptToReach(g, diag, a, b).count == 0 ==> PathsBetween(g, diag, 0, 0, a, b) == []
  {
    ReachCountPositive(g, diag, a, b);
    NumToCountsAllPaths(g, diag, a, b);
  }

  /** No walkable path from the origin weighs more than the corrected value, so none weighs any `t` above it. */
  lemma AboveBest(g: Grid, diag: bool, a: int, b: int, t: int)
    requires IsMatrix(g) && 0 <= a < |g| && 0 <= b < |g[0]| && g[0][0] != Unwalkable
    ensures t > NumOptToReach(g, diag, a, b).value ==> CountWeight(g, PathsBetween(g, diag, 0, 0, a, b), t) == 0
  {
    if t > NumOptToReach(g, diag, a, b).value {
      var ps := PathsBetween(g, diag, 0, 0, a, b);
      PathsBetweenSound(g, diag, 0, 0, a, b);
      forall k | 0 <= k < |ps| && OnGrid(g, ps[k])
        ensures PathWeight(g, ps[k]) != t
      {
        assert ps[k] in ps;
        ReachBoundsPaths(g, diag, ps[k]);
      }
      CountWeightNone(g, ps, t);
    }
  }

  /** The corrected count at (a, b) is the number of walkable paths from the origin that weigh the corrected value. */
  predicate CountsBest(g: Grid, diag: bool, a: int, b: int)
    requires IsMatrix(g) && 0 <= a < |g| && 0 <= b < |g[0]|
  {
    NumOptToReach(g, diag, a, b).count == CountWeight(g, PathsBetween(g, diag, 0, 0, a, b), NumOptToReach(g, diag, a, b).value)
  }

  /** What predecessor (a, b) adds to the count of best paths worth `M` before the last cell: its count when its value is `M`. */
  function PredShare(g: Grid, diag: bool, a: int, b: int, M: int): int
    requires IsMatrix(g)
  {
    if 0 <= a < |g| && 0 <= b < |g[0]| && NumOptToReach(g, diag, a, b).value == M then NumOptToReach(g, diag, a, b).count else 0
  }

  /** The shares of the predecessors of (m, n) for the value `M`: left, up and, with diagonal moves, up-left. */
  function Shares(g: Grid, diag: bool, m: int, n: int, M: int): int
    requires IsMatrix(g)
  {
    PredShare(g, diag, m, n - 1, M) + PredShare(g, diag, m - 1, n, M)
    + (if diag then PredShare(g, diag, m - 1, n - 1, M) else 0)
  }

  /**
   * Extending the paths of one predecessor `x` by the cell `c` gives as many
   * paths of the weight of `c` plus `M` as `x` counts when its value is `M`,
   * and none otherwise, provided the paths of `x` are its best paths, it has
   * paths exactly when it is reached, and none of them is worth more than `M`.
   */
  lemma ShareOf(g: Grid, ps: seq<seq<Cell>>, c: Cell, x: NumOptCell, M: int, via: seq<seq<Cell>>, t: int, share: int)
    requires IsMatrix(g) && InGrid(g, c)
    requires x.count == CountWeight(g, ps, x.value)
    requires x.count == 0 ==> ps == []
    requires x.count > 0 ==> x.value <= M
    requires x.value < M ==> CountWeight(g, ps, M) == 0
    requires via == AppendAll(ps, c) && t == g[c.0][c.1] + M
    requires share == if x.value == M then x.count else 0
    ensures CountWeight(g, via, t) == share
  {
    CountWeightAppend(g, ps, c, t);
  }

  /** Two lists laid end to end whose counts are known count their sum. */
  lemma CombineTwo(g: Grid, list: seq<seq<Cell>>, a: seq<seq<Cell>>, b: seq<seq<Cell>>, t: int, sa: int, sb: int, total: int)
    requires IsMatrix(g) && list == a + b
    requires CountWeight(g, a, t) == sa && CountWeight(g, b, t) == sb && total == sa + sb
    ensures CountWeight(g, list, t) == total
  {
    CountWeightJoin(g, a, b, t);
  }

  /** Predecessor (a, b), when in range and reached, is worth no more than `M`. */
  predicate PredBelow(g: Grid, diag: bool, a: int, b: int, M: int)
    requires IsMatrix(g) && a < |g| && b < |g[0]|
  {
    0 <= a && 0 <= b && NumOptToReach(g, diag, a, b).count > 0 ==> NumOptToReach(g, diag, a, b).value <= M
  }

  /**
   * The paths into (m, n) through its predecessor (a, b) that weigh the
   * weight of (m, n) plus `M`: as many as the predecessor's share of `M`,
   * when the predecessor is worth no more than `M` if reached.
   */
  lemma {:induction false} ViaShare(g: Grid, diag: bool, a: int, b: int, m: int, n: int, M: int)
    requires IsMatrix(g) && g[0][0] != Unwalkable && 0 <= m < |g| && 0 <= n < |g[0]|
    requires a <= m && b <= n && a + b < m + n && PredBelow(g, diag, a, b, M)
    ensures CountWeight(g, Via(g, diag, 0, 0, a, b, (m, n)), g[m][n] + M) == PredShare(g, diag, a, b, M)
    decreases m + n, 0
  {
    if 0 <= a && 0 <= b {
      var ps := PathsBetween(g, diag, 0, 0, a, b);
      ReachCountsBest(g, diag, a, b);
      UnreachedNoPaths(g, diag, a, b);
      AboveBest(g, diag, a, b, M);
      ShareOf(g, ps, (m, n), NumOptToReach(g, diag, a, b), M, Via(g, diag, 0, 0, a, b, (m, n)), g[m][n] + M, PredShare(g, diag, a, b, M));
    }
  }

  /** The count of best values over one, two or three cells, cell by cell. */
  lemma CountAtSmall(x: NumOptCell, y: NumOptCell, z: NumOptCell, M: int)
    ensures CountAt([x], M) == (if x.value == M then x.count else 0)
    ensures CountAt([x, y], M) == CountAt([x], M) + CountAt([y], M)
    ensures CountAt([x, y, z], M) == CountAt([x], M) + CountAt([y], M) + CountAt([z], M)
  {
    assert [x][1..] == [];
    assert [y][1..] == [];
    assert [z][1..] == [];
    assert [y, z][1..] == [z];
    assert [x, y][1..] == [y];
    assert [x, y, z][1..] == [y, z];
  }

  /** The count of best values over the corrected predecessors of (m, n), share by share. */
  lemma ReachPredsCountAt(g: Grid, diag: bool, m: int, n: int, M: int)
    requires IsMatrix(g) && 0 <= m < |g| && 0 <= n < |g[0]| && (m, n) != (0, 0)
    ensures CountAt(ReachPreds(g, diag, m, n), M) == Shares(g, diag, m, n, M)
  {
    var left := if n > 0 then NumOptToReach(g, diag, m, n - 1) else NumOptCell(0, 0);
    var up := if m > 0 then NumOptToReach(g, diag, m - 1, n) else NumOptCell(0, 0);
    var across := if m > 0 && n > 0 then NumOptToReach(g, diag, m - 1, n - 1) else NumOptCell(0, 0);
    CountAtSmall(left, up, across, M);
    CountAtSmall(up, left, across, M);
  }

  /** Dropping the cells with count 0 does not change a count of best values. */
  lemma {:induction false} CountAtReached(ns: seq<NumOptCell>, M: int)
    requires CountsNonNeg(ns)
    ensures CountAt(Reached(ns), M) == CountAt(ns, M)
    decreases |ns|
  {
    if |ns| > 0 {
      assert CountsNonNeg(ns[1..]);
      CountAtReached(ns[1..], M);
      if ns[0].count > 0 {
        assert ([ns[0]] + Reached(ns[1..]))[1..] == Reached(ns[1..]);
      }
    }
  }

  /** The best value over the reached predecessors of (m, n), or minus the weight of (m, n) when none is reached. */
  function BestBefore(g: Grid, diag: bool, m: int, n: int): int
    requires IsMatrix(g) && 0 <= m < |g| && 0 <= n < |g[0]| && (m, n) != (0, 0)
  {
    var r := Reached(ReachPreds(g, diag, m, n));
    if |r| == 0 then -g[m][n] else MaxValue(r)
  }

  /** A reached predecessor of (m, n) is worth no more than the best value before (m, n). */
  lemma PredAtMostBest(g: Grid, diag: bool, a: int, b: int, m: int, n: int)
    requires IsMatrix(g) && 0 <= m < |g| && 0 <= n < |g[0]| && (m, n) != (0, 0) && a < |g| && b < |g[0]|
    requires 0 <= a && 0 <= b ==> CheckCellContiguity((a, b), (m, n), diag)
    ensures PredBelow(g, diag, a, b, BestBefore(g, diag, m, n))
  {
    if 0 <= a && 0 <= b {
      var ps := ReachPreds(g, diag, m, n);
      var x := NumOptToReach(g, diag, a, b);
      PredecessorListed(g, diag, (a, b), (m, n));
      ReachedFacts(ps);
      if x.count > 0 {
        var r := Reached(ps);
        assert x in r;
        var k :| 0 <= k < |r| && r[k] == x;
      }
    }
  }

  /** No reached predecessor of a cell other than the origin is worth more than the best value before it. */
  lemma PredsBelowBest(g: Grid, diag: bool, m: int, n: int)
    requires IsMatrix(g) && 0 <= m < |g| && 0 <= n < |g[0]| && (m, n) != (0, 0)
    ensures PredBelow(g, diag, m, n - 1, BestBefore(g, diag, m, n)) && PredBelow(g, diag, m - 1, n, BestBefore(g, diag, m, n))
    ensures diag ==> PredBelow(g, diag, m - 1, n - 1, BestBefore(g, diag, m, n))
  {
    PredAtMostBest(g, diag, m, n - 1, m, n);
    PredAtMostBest(g, diag, m - 1, n, m, n);
    if diag { PredAtMostBest(g, diag, m - 1, n - 1, m, n); }
  }

  /** A walkable cell other than the origin counts the shares of the best value before it and adds its weight to that value. */
  lemma ReachShares(g: Grid, diag: bool, m: int, n: int)
    requires IsMatrix(g) && 0 <= m < |g| && 0 <= n < |g[0]| && (m, n) != (0, 0) && g[m][n] != Unwalkable
    ensures NumOptToReach(g, diag, m, n) == NumOptCell(Shares(g, diag, m, n, BestBefore(g, diag, m, n)), g[m][n] + BestBefore(g, diag, m, n))
  {
    CountAtReached(ReachPreds(g, diag, m, n), BestBefore(g, diag, m, n));
    ReachPredsCountAt(g, diag, m, n, BestBefore(g, diag, m, n));
  }

  /**
   * A walkable cell other than the origin has a best value `M` before it:
   * no reached predecessor is worth more, the cell counts the shares of
   * `M`, and its value is its own weight plus `M`.
   */
  lemma BestBeforeFacts(g: Grid, diag: bool, m: int, n: int) returns (M: int)
    requires IsMatrix(g) && 0 <= m < |g| && 0 <= n < |g[0]| && (m, n) != (0, 0) && g[m][n] != Unwalkable
    ensures PredBelow(g, diag, m, n - 1, M) && PredBelow(g, diag, m - 1, n, M)
    ensures diag ==> PredBelow(g, diag, m - 1, n - 1, M)
    ensures NumOptToReach(g, diag, m, n) == NumOptCell(Shares(g, diag, m, n, M), g[m][n] + M)
  {
    M := BestBefore(g, diag, m, n);
    PredsBelowBest(g, diag, m, n);
    ReachShares(g, diag, m, n);
  }

  /** The walkable paths into (m, n) from the left and from above that weigh the weight of (m, n) plus `M` number the two shares of `M`. */
  lemma {:induction false} SideShares(g: Grid, diag: bool, m: int, n: int, M: int)
    requires IsMatrix(g) && 0 <= m < |g| && 0 <= n < |g[0]| && g[0][0] != Unwalkable
    requires PredBelow(g, diag, m, n - 1, M) && PredBelow(g, diag, m - 1, n, M)
    ensures CountWeight(g, Via(g, diag, 0, 0, m, n - 1, (m, n)) + Via(g, diag, 0, 0, m - 1, n, (m, n)), g[m][n] + M)
      == PredShare(g, diag, m, n - 1, M) + PredShare(g, diag, m - 1, n, M)
    decreases m + n, 1
  {
    ViaShare(g, diag, m, n - 1, m, n, M);
    ViaShare(g, diag, m - 1, n, m, n, M);
    CountWeightJoin(g, Via(g, diag, 0, 0, m, n - 1, (m, n)), Via(g, diag, 0, 0, m - 1, n, (m, n)), g[m][n] + M);
  }

  /** Without diagonal moves, the walkable paths into a walkable cell (m, n) other than the origin that weigh its weight plus `M` number the shares of `M`, when no reached predecessor is worth more than `M`. */
  lemma {:induction false} ViaSharesSquare(g: Grid, diag: bool, m: int, n: int, M: int)
    requires !diag && IsMatrix(g) && 0 <= m < |g| && 0 <= n < |g[0]| && g[0][0] != Unwalkable
    requires (m, n) != (0, 0) && g[m][n] != Unwalkable
    requires PredBelow(g, diag, m, n - 1, M) && PredBelow(g, diag, m - 1, n, M)
    ensures CountWeight(g, PathsBetween(g, diag, 0, 0, m, n), g[m][n] + M) == Shares(g, diag, m, n, M)
    decreases m + n, 2
  {
    var sides := Via(g, diag, 0, 0, m, n - 1, (m, n)) + Via(g, diag, 0, 0, m - 1, n, (m, n));
    SideShares(g, diag, m, n, M);
    PathsBetweenSplit(g, diag, 0, 0, m, n);
    CombineTwo(g, PathsBetween(g, diag, 0, 0, m, n), sides, [], g[m][n] + M,
      PredShare(g, diag, m, n - 1, M) + PredShare(g, diag, m - 1, n, M), 0, Shares(g, diag, m, n, M));
  }

  /** With diagonal moves, the walkable paths into (m, n) from the left, from above and across that weigh the weight of (m, n) plus `M` number the shares of `M`. */
  lemma {:induction false} DiagonalShares(g: Grid, diag: bool, m: int, n: int, M: int)
    requires diag && IsMatrix(g) && 0 <= m < |g| && 0 <= n < |g[0]| && g[0][0] != Unwalkable
    requires PredBelow(g, diag, m, n - 1, M) && PredBelow(g, diag, m - 1, n, M) && PredBelow(g, diag, m - 1, n - 1, M)
    ensures CountWeight(g, Via(g, diag, 0, 0, m, n - 1, (m, n)) + Via(g, diag, 0, 0, m - 1, n, (m, n)) + Via(g, diag, 0, 0, m - 1, n - 1, (m, n)), g[m][n] + M)
      == Shares(g, diag, m, n, M)
    decreases m + n, 2
  {
    SideShares(g, diag, m, n, M);
    ViaShare(g, diag, m - 1, n - 1, m, n, M);
    CombineTwo(g, Via(g, diag, 0, 0, m, n - 1, (m, n)) + Via(g, diag, 0, 0, m - 1, n, (m, n)) + Via(g, diag, 0, 0, m - 1, n - 1, (m, n)),
      Via(g, diag, 0, 0, m, n - 1, (m, n)) + Via(g, diag, 0, 0, m - 1, n, (m, n)), Via(g, diag, 0, 0, m - 1, n - 1, (m, n)), g[m][n] + M,
      PredShare(g, diag, m, n - 1, M) + PredShare(g, diag, m - 1, n, M), PredShare(g, diag, m - 1, n - 1, M), Shares(g, diag, m, n, M));
  }

  /** With diagonal moves, the walkable paths into a walkable cell (m, n) other than the origin that weigh its weight plus `M` number the shares of `M`, when no reached predecessor is worth more than `M`. */
  lemma {:induction false} ViaSharesDiagonal(g: Grid, diag: bool, m: int, n: int, M: int)
    requires diag && IsMatrix(g) && 0 <= m < |g| && 0 <= n < |g[0]| && g[0][0] != Unwalkable
    requires (m, n) != (0, 0) && g[m][n] != Unwalkable
    requires PredBelow(g, diag, m, n - 1, M) && PredBelow(g, diag, m - 1, n, M) && PredBelow(g, diag, m - 1, n - 1, M)
    ensures CountWeight(g, PathsBetween(g, diag, 0, 0, m, n), g[m][n] + M) == Shares(g, diag, m, n, M)
    decreases m + n, 3
  {
    DiagonalShares(g, diag, m, n, M);
    PathsBetweenSplit(g, diag, 0, 0, m, n);
  }

  /** A cell whose count and value are `sh` and `t` counts the paths of its own value when `sh` paths of the list weigh `t`. */
  lemma CountsOwnValue(g: Grid, list: seq<seq<Cell>>, x: NumOptCell, t: int, sh: int)
    requires IsMatrix(g) && CountWeight(g, list, t) == sh && x == NumOptCell(sh, t)
    ensures x.count == CountWeight(g, list, x.value)
  {
  }

  /** The inductive step of `ReachCountsBest`, from the predecessors of a walkable cell to the cell. */
  lemma {:induction false} ReachCountsBestStep(g: Grid, diag: bool, m: int, n: int)
    requires IsMatrix(g) && 0 <= m < |g| && 0 <= n < |g[0]| && g[0][0] != Unwalkable
    requires (m, n) != (0, 0) && g[m][n] != Unwalkable
    ensures CountsBest(g, diag, m, n)
    decreases m + n, 4
  {
    var M := BestBeforeFacts(g, diag, m, n);
    if diag {
      ViaSharesDiagonal(g, diag, m, n, M);
    } else {
      ViaSharesSquare(g, diag, m, n, M);
    }
    CountsOwnValue(g, PathsBetween(g, diag, 0, 0, m, n), NumOptToReach(g, diag, m, n), g[m][n] + M, Shares(g, diag, m, n, M));
  }

  /** The origin, when walkable, counts its one path of one cell. */
  lemma OriginCountsBest(g: Grid, diag: bool)
    requires IsMatrix(g) && g[0][0] != Unwalkable
    ensures CountsBest(g, diag, 0, 0)
  {
    var p := [(0, 0)];
    assert PathsBetween(g, diag, 0, 0, 0, 0) == [p];
    assert PathWeight(g, p[1..]) == 0;
    var none: seq<seq<Cell>> := [];
    assert [p][1..] == none;
  }

  /**
   * With a walkable origin, the corrected count at every cell is the number
   * of walkable paths from the origin that weigh the corrected value.
   */
  lemma {:induction false} ReachCountsBest(g: Grid, diag: bool, m: int, n: int)
    requires IsMatrix(g) && 0 <= m < |g| && 0 <= n < |g[0]| && g[0][0] != Unwalkable
    ensures CountsBest(g, diag, m, n)
    decreases m + n, 5
  {
    if (m, n) == (0, 0) {
      OriginCountsBest(g, diag);
    } else if g[m][n] != Unwalkable {
      ReachCountsBestStep(g, diag, m, n);
    }
  }

  /**
   * The corrected `dptable_num_opt_to` keeps the promise of its cell type:
   * with a walkable origin, over the list of every walkable path from the
   * origin to (m, n), each listed once, no path weighs more than the value,
   * and the count is the number of paths that weigh exactly the value.
   */
  lemma NumOptToReachCountsBestPaths(g: Grid, diag: bool, m: int, n: int)
    requires IsMatrix(g) && 0 <= m < |g| && 0 <= n < |g[0]| && g[0][0] != Unwalkable
    ensures var ps := PathsBetween(g, diag, 0, 0, m, n);
      NoDuplicates(ps) && (forall p :: p in ps <==> WalkablePath(g, diag, p, (0, 0), (m, n)))
      && (forall p :: WalkablePath(g, diag, p, (0, 0), (m, n)) ==> PathWeight(g, p) <= NumOptToReach(g, diag, m, n).value)
      && NumOptToReach(g, diag, m, n).count == CountWeight(g, ps, NumOptToReach(g, diag, m, n).value)
  {
    NumToCountsAllPaths(g, diag, m, n);
    ReachCountsBest(g, diag, m, n);
    forall p | WalkablePath(g, diag, p, (0, 0), (m, n))
      ensures PathWeight(g, p) <= NumOptToReach(g, diag, m, n).value
    {
      ReachBoundsPaths(g, diag, p);
    }
  }

  /** With a walkable origin, a positive corrected count means some walkable path from the origin weighs exactly the corrected value. */
  lemma NumOptToReachAttained(g: Grid, diag: bool, m: int, n: int)
    requires IsMatrix(g) && 0 <= m < |g| && 0 <= n < |g[0]| && g[0][0] != Unwalkable
    requires NumOptToReach(g, diag, m, n).count > 0
    ensures exists p :: WalkablePath(g, diag, p, (0, 0), (m, n)) && PathWeight(g, p) == NumOptToReach(g, diag, m, n).value
  {
    var ps := PathsBetween(g, diag, 0, 0, m, n);
    var v := NumOptToReach(g, diag, m, n).value;
    ReachCountsBest(g, diag, m, n);
    PathsBetweenSound(g, diag, 0, 0, m, n);
    if forall k :: 0 <= k < |ps| && OnGrid(g, ps[k]) ==> PathWeight(g, ps[k]) != v {
      CountWeightNone(g, ps, v);
    }
    var k :| 0 <= k < |ps| && OnGrid(g, ps[k]) && PathWeight(g, ps[k]) == v;
    assert ps[k] in ps;
  }
}
