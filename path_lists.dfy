/**
 * The walkable paths themselves, listed by their last move: what the
 * counts of `dptable_num_to` and `dptable_num_from` count. The list is
 * sound (every member is a walkable feasible path between the two cells),
 * complete (every such path is a member) and free of duplicates, and its
 * length is the count in the tables.
 */
module RobotPathLists {
  import opened RobotGrid
  import opened RobotPathCount

  /** Every path of `ps` extended by the cell `c`, in order. */
  function AppendAll(ps: seq<seq<Cell>>, c: Cell): (r: seq<seq<Cell>>)
    ensures |r| == |ps|
  {
    seq(|ps|, k requires 0 <= k < |ps| => ps[k] + [c])
  }

  /** The `k`-th extended path is the `k`-th path extended. */
  lemma AppendAllAt(ps: seq<seq<Cell>>, c: Cell, k: int)
    requires 0 <= k < |ps|
    ensures AppendAll(ps, c)[k] == ps[k] + [c]
  {
  }

  /**
   * A path the robot can walk from `s` to `e`: non-empty, on the grid,
   * one move between consecutive cells, and no blocked cell on it.
   */
  predicate WalkablePath(g: Grid, diag: bool, p: seq<Cell>, s: Cell, e: Cell)
    requires IsMatrix(g)
  {
    |p| > 0 && OnGrid(g, p) && p[0] == s && p[|p| - 1] == e && Feasible(p, diag)
    && forall k :: 0 <= k < |p| ==> g[p[k].0][p[k].1] != Unwalkable
  }

  /** No entry of the list occurs twice. */
  predicate NoDuplicates<T(==)>(s: seq<T>) {
    forall a, b :: 0 <= a < b < |s| ==> s[a] != s[b]
  }

  /** Every path of the list has at least two cells, the next-to-last one in `srcs`. */
  predicate AllPenultimate(ps: seq<seq<Cell>>, srcs: set<Cell>) {
    forall k :: 0 <= k < |ps| ==> |ps[k]| >= 2 && ps[k][|ps[k]| - 2] in srcs
  }

  /**
   * The walkable paths from (i, j) to (m, n), grouped by their last move
   * (from the left, from above, and diagonally), exactly as `Into` adds
   * up their numbers.
   */
  function PathsBetween(g: Grid, diag: bool, i: int, j: int, m: int, n: int): seq<seq<Cell>>
    requires IsMatrix(g) && 0 <= i <= m < |g| && 0 <= j <= n < |g[0]|
    decreases (m - i) + (n - j), 1
  {
    if g[m][n] == Unwalkable then []
    else if m == i && n == j then [[(m, n)]]
    else
      Via(g, diag, i, j, m, n - 1, (m, n)) + Via(g, diag, i, j, m - 1, n, (m, n))
      + (if diag then Via(g, diag, i, j, m - 1, n - 1, (m, n)) else [])
  }

  /**
   * The walkable paths from (i, j) to (a, b), each extended by the cell `e`;
   * none when (a, b) lies above or left of (i, j).
   */
  function Via(g: Grid, diag: bool, i: int, j: int, a: int, b: int, e: Cell): seq<seq<Cell>>
    requires IsMatrix(g) && 0 <= i && 0 <= j && a < |g| && b < |g[0]|
    decreases (a - i) + (b - j), 2
  {
    if i <= a && j <= b then AppendAll(PathsBetween(g, diag, i, j, a, b), e) else []
  }

  /** The list at a walkable cell other than the start, by its three groups. */
  lemma PathsBetweenSplit(g: Grid, diag: bool, i: int, j: int, m: int, n: int)
    requires IsMatrix(g) && 0 <= i <= m < |g| && 0 <= j <= n < |g[0]|
    requires g[m][n] != Unwalkable && !(m == i && n == j)
    ensures PathsBetween(g, diag, i, j, m, n) ==
      Via(g, diag, i, j, m, n - 1, (m, n)) + Via(g, diag, i, j, m - 1, n, (m, n))
      + (if diag then Via(g, diag, i, j, m - 1, n - 1, (m, n)) else [])
  {
  }

  /** Membership in a list of three parts. */
  lemma InJoin<T>(a: seq<T>, b: seq<T>, c: seq<T>, x: T)
    ensures x in a + b + c <==> x in a || x in b || x in c
  {
  }

  /** The paths through (a, b) number as many as the paths to (a, b). */
  lemma {:induction false} ViaCount(g: Grid, diag: bool, i: int, j: int, a: int, b: int, e: Cell)
    requires IsMatrix(g) && 0 <= i && 0 <= j && a < |g| && b < |g[0]|
    ensures |Via(g, diag, i, j, a, b, e)| == if i <= a && j <= b then Into(g, diag, i, j, a, b) else 0
    decreases if i <= a && j <= b then (a - i) + (b - j) else 0, 2
  {
    if i <= a && j <= b {
      PathsBetweenCount(g, diag, i, j, a, b);
    }
  }

  /** There are as many listed paths as `Into` counts. */
  lemma {:induction false} PathsBetweenCount(g: Grid, diag: bool, i: int, j: int, m: int, n: int)
    requires IsMatrix(g) && 0 <= i <= m < |g| && 0 <= j <= n < |g[0]|
    ensures |PathsBetween(g, diag, i, j, m, n)| == Into(g, diag, i, j, m, n)
    decreases (m - i) + (n - j), 1
  {
    if g[m][n] != Unwalkable && !(m == i && n == j) {
      ViaCount(g, diag, i, j, m, n - 1, (m, n));
      ViaCount(g, diag, i, j, m - 1, n, (m, n));
      ViaCount(g, diag, i, j, m - 1, n - 1, (m, n));
      PathsBetweenSplit(g, diag, i, j, m, n);
    }
  }

  /** Extending walkable paths that end at `src` by one walkable move keeps them walkable. */
  lemma ExtendAllWalkable(g: Grid, diag: bool, ps: seq<seq<Cell>>, s: Cell, src: Cell, e: Cell)
    requires IsMatrix(g) && InGrid(g, e) && g[e.0][e.1] != Unwalkable
    requires CheckCellContiguity(src, e, diag)
    requires forall q :: q in ps ==> WalkablePath(g, diag, q, s, src)
    ensures forall p :: p in AppendAll(ps, e) ==> WalkablePath(g, diag, p, s, e)
  {
    var r := AppendAll(ps, e);
    forall p: seq<Cell> | p in r
      ensures WalkablePath(g, diag, p, s, e)
    {
      var k :| 0 <= k < |r| && r[k] == p;
      var q := ps[k];
      assert q in ps;
      AppendAllAt(ps, e, k);
      assert p == q + [e];
      FeasibleExtend(q, e, diag);
      forall t | 0 <= t < |p|
        ensures InGrid(g, p[t]) && g[p[t].0][p[t].1] != Unwalkable
      {
        if t < |q| { assert p[t] == q[t]; }
      }
    }
  }

  /** The paths through a predecessor (a, b) of (m, n) are walkable paths to (m, n). */
  lemma {:induction false} ViaSound(g: Grid, diag: bool, i: int, j: int, m: int, n: int, a: int, b: int)
    requires IsMatrix(g) && 0 <= i <= m < |g| && 0 <= j <= n < |g[0]| && g[m][n] != Unwalkable
    requires a < |g| && b < |g[0]| && CheckCellContiguity((a, b), (m, n), diag)
    ensures forall p :: p in Via(g, diag, i, j, a, b, (m, n)) ==> WalkablePath(g, diag, p, (i, j), (m, n))
    decreases if i <= a && j <= b then (a - i) + (b - j) else 0, 2
  {
    if i <= a && j <= b {
      PathsBetweenSound(g, diag, i, j, a, b);
      ExtendAllWalkable(g, diag, PathsBetween(g, diag, i, j, a, b), (i, j), (a, b), (m, n));
    }
  }

  /** Three lists of walkable paths between the same cells join into one. */
  lemma SoundJoin(g: Grid, diag: bool, left: seq<seq<Cell>>, up: seq<seq<Cell>>, corner: seq<seq<Cell>>, s: Cell, e: Cell)
    requires IsMatrix(g)
    requires forall p :: p in left ==> WalkablePath(g, diag, p, s, e)
    requires forall p :: p in up ==> WalkablePath(g, diag, p, s, e)
    requires forall p :: p in corner ==> WalkablePath(g, diag, p, s, e)
    ensures forall p :: p in left + up + corner ==> WalkablePath(g, diag, p, s, e)
  {
  }

  /** Every listed path is a walkable feasible path from (i, j) to (m, n). */
  lemma {:induction false} PathsBetweenSound(g: Grid, diag: bool, i: int, j: int, m: int, n: int)
    requires IsMatrix(g) && 0 <= i <= m < |g| && 0 <= j <= n < |g[0]|
    ensures forall p :: p in PathsBetween(g, diag, i, j, m, n) ==> WalkablePath(g, diag, p, (i, j), (m, n))
    decreases (m - i) + (n - j), 1
  {
    if g[m][n] != Unwalkable && !(m == i && n == j) {
      var left := Via(g, diag, i, j, m, n - 1, (m, n));
      var up := Via(g, diag, i, j, m - 1, n, (m, n));
      var corner := if diag then Via(g, diag, i, j, m - 1, n - 1, (m, n)) else [];
      ViaSound(g, diag, i, j, m, n, m, n - 1);
      ViaSound(g, diag, i, j, m, n, m - 1, n);
      if diag { ViaSound(g, diag, i, j, m, n, m - 1, n - 1); }
      SoundJoin(g, diag, left, up, corner, (i, j), (m, n));
      PathsBetweenSplit(g, diag, i, j, m, n);
    }
  }

  /**
   * A walkable path of two or more cells is a walkable path to its
   * next-to-last cell, which lies one move before the end and no earlier
   * than the start, followed by its end.
   */
  lemma DropLast(g: Grid, diag: bool, p: seq<Cell>, s: Cell, e: Cell)
    requires IsMatrix(g) && WalkablePath(g, diag, p, s, e) && |p| > 1
    ensures WalkablePath(g, diag, p[..|p| - 1], s, p[|p| - 2])
    ensures CheckCellContiguity(p[|p| - 2], e, diag)
    ensures s.0 <= p[|p| - 2].0 && s.1 <= p[|p| - 2].1 && s != e
    ensures p == p[..|p| - 1] + [e]
  {
    var q := p[..|p| - 1];
    FeasibleSpan(p, diag);
    FeasibleSlice(p, diag, 0, |p| - 1);
    FeasibleSpan(q, diag);
    forall t | 0 <= t < |q|
      ensures InGrid(g, q[t]) && g[q[t].0][q[t].1] != Unwalkable
    {
      assert q[t] == p[t];
    }
  }

  /** A path listed through a predecessor (a, b) of (m, n) is listed at (m, n). */
  lemma ViaListed(g: Grid, diag: bool, i: int, j: int, m: int, n: int, a: int, b: int, p: seq<Cell>)
    requires IsMatrix(g) && 0 <= i <= m < |g| && 0 <= j <= n < |g[0]|
    requires g[m][n] != Unwalkable && !(m == i && n == j)
    requires (a == m && b == n - 1) || (a == m - 1 && b == n) || (diag && a == m - 1 && b == n - 1)
    requires p in Via(g, diag, i, j, a, b, (m, n))
    ensures p in PathsBetween(g, diag, i, j, m, n)
  {
    PathsBetweenSplit(g, diag, i, j, m, n);
    InJoin(Via(g, diag, i, j, m, n - 1, (m, n)), Via(g, diag, i, j, m - 1, n, (m, n)),
      if diag then Via(g, diag, i, j, m - 1, n - 1, (m, n)) else [], p);
  }

  /** Every walkable feasible path from (i, j) to (m, n) is listed. */
  lemma {:induction false} PathsBetweenComplete(g: Grid, diag: bool, i: int, j: int, m: int, n: int, p: seq<Cell>)
    requires IsMatrix(g) && 0 <= i <= m < |g| && 0 <= j <= n < |g[0]|
    requires WalkablePath(g, diag, p, (i, j), (m, n))
    ensures p in PathsBetween(g, diag, i, j, m, n)
    decreases |p|
  {
    assert g[m][n] != Unwalkable by { assert p[|p| - 1] == (m, n); }
    if |p| == 1 {
      assert p == [(m, n)];
    } else {
      DropLast(g, diag, p, (i, j), (m, n));
      var a, b := p[|p| - 2].0, p[|p| - 2].1;
      var q := p[..|p| - 1];
      PathsBetweenComplete(g, diag, i, j, a, b, q);
      var ps := PathsBetween(g, diag, i, j, a, b);
      var k :| 0 <= k < |ps| && ps[k] == q;
      AppendAllAt(ps, (m, n), k);
      assert p == Via(g, diag, i, j, a, b, (m, n))[k];
      ViaListed(g, diag, i, j, m, n, a, b, p);
    }
  }

  /** Extending every path of a list by a cell keeps them distinct. */
  lemma AppendAllDistinct(ps: seq<seq<Cell>>, c: Cell)
    requires NoDuplicates(ps)
    ensures NoDuplicates(AppendAll(ps, c))
  {
    var r := AppendAll(ps, c);
    forall a, b | 0 <= a < b < |r|
      ensures r[a] != r[b]
    {
      AppendAllAt(ps, c, a);
      AppendAllAt(ps, c, b);
      assert r[a][..|ps[a]|] == ps[a] && r[b][..|ps[b]|] == ps[b];
    }
  }

  /** Paths that end at `src` and are extended by a cell have `src` next to last. */
  lemma AppendAllPenultimate(g: Grid, diag: bool, ps: seq<seq<Cell>>, s: Cell, src: Cell, c: Cell)
    requires IsMatrix(g)
    requires forall q :: q in ps ==> WalkablePath(g, diag, q, s, src)
    ensures AllPenultimate(AppendAll(ps, c), {src})
  {
    var r := AppendAll(ps, c);
    forall k | 0 <= k < |r|
      ensures |r[k]| >= 2 && r[k][|r[k]| - 2] in {src}
    {
      assert ps[k] in ps;
      AppendAllAt(ps, c, k);
    }
  }

  /** Two duplicate-free lists with different next-to-last cells join into a duplicate-free list. */
  lemma DistinctJoin(a: seq<seq<Cell>>, b: seq<seq<Cell>>, sa: set<Cell>, sb: set<Cell>)
    requires NoDuplicates(a) && NoDuplicates(b)
    requires AllPenultimate(a, sa) && AllPenultimate(b, sb) && sa !! sb
    ensures NoDuplicates(a + b)
    ensures AllPenultimate(a + b, sa + sb)
  {
    var ab := a + b;
    forall x, y | 0 <= x < y < |ab|
      ensures ab[x] != ab[y]
    {
      if x < |a| && y >= |a| {
        assert ab[x] == a[x] && ab[y] == b[y - |a|];
        assert a[x][|a[x]| - 2] in sa;
        assert b[y - |a|][|b[y - |a|]| - 2] in sb;
      } else if x >= |a| {
        assert ab[x] == b[x - |a|] && ab[y] == b[y - |a|];
      } else {
        assert ab[x] == a[x] && ab[y] == a[y];
      }
    }
    forall k | 0 <= k < |ab|
      ensures |ab[k]| >= 2 && ab[k][|ab[k]| - 2] in sa + sb
    {
      if k < |a| { assert ab[k] == a[k]; } else { assert ab[k] == b[k - |a|]; }
    }
  }

  /** The paths through a predecessor (a, b) of (m, n) are distinct and all have (a, b) next to last. */
  lemma {:induction false} ViaDistinct(g: Grid, diag: bool, i: int, j: int, m: int, n: int, a: int, b: int)
    requires IsMatrix(g) && 0 <= i && 0 <= j && a < |g| && b < |g[0]|
    ensures NoDuplicates(Via(g, diag, i, j, a, b, (m, n)))
    ensures AllPenultimate(Via(g, diag, i, j, a, b, (m, n)), {(a, b)})
    decreases if i <= a && j <= b then (a - i) + (b - j) else 0, 2
  {
    if i <= a && j <= b {
      PathsBetweenDistinct(g, diag, i, j, a, b);
      PathsBetweenSound(g, diag, i, j, a, b);
      AppendAllDistinct(PathsBetween(g, diag, i, j, a, b), (m, n));
      AppendAllPenultimate(g, diag, PathsBetween(g, diag, i, j, a, b), (i, j), (a, b), (m, n));
    }
  }

  /** The three groups of paths into (m, n), each distinct and ending through its own predecessor, join without duplicates. */
  lemma JoinThree(left: seq<seq<Cell>>, up: seq<seq<Cell>>, corner: seq<seq<Cell>>, m: int, n: int)
    requires NoDuplicates(left) && AllPenultimate(left, {(m, n - 1)})
    requires NoDuplicates(up) && AllPenultimate(up, {(m - 1, n)})
    requires NoDuplicates(corner) && AllPenultimate(corner, {(m - 1, n - 1)})
    ensures NoDuplicates(left + up + corner)
  {
    DistinctJoin(left, up, {(m, n - 1)}, {(m - 1, n)});
    DistinctJoin(left + up, corner, {(m, n - 1)} + {(m - 1, n)}, {(m - 1, n - 1)});
  }

  /** No path is listed twice. */
  lemma {:induction false} PathsBetweenDistinct(g: Grid, diag: bool, i: int, j: int, m: int, n: int)
    requires IsMatrix(g) && 0 <= i <= m < |g| && 0 <= j <= n < |g[0]|
    ensures NoDuplicates(PathsBetween(g, diag, i, j, m, n))
    decreases (m - i) + (n - j), 1
  {
    if g[m][n] != Unwalkable && !(m == i && n == j) {
      var left := Via(g, diag, i, j, m, n - 1, (m, n));
      var up := Via(g, diag, i, j, m - 1, n, (m, n));
      var corner := if diag then Via(g, diag, i, j, m - 1, n - 1, (m, n)) else [];
      ViaDistinct(g, diag, i, j, m, n, m, n - 1);
      ViaDistinct(g, diag, i, j, m, n, m - 1, n);
      if diag { ViaDistinct(g, diag, i, j, m, n, m - 1, n - 1); }
      JoinThree(left, up, corner, m, n);
      PathsBetweenSplit(g, diag, i, j, m, n);
    }
  }

  /**
   * `dptable_num_to` at (m, n) is the number of walkable feasible paths from
   * the origin to (m, n): the listed paths are exactly those paths, none
   * twice, and there are as many of them as the table says.
   */
  lemma NumToCountsAllPaths(g: Grid, diag: bool, m: int, n: int)
    requires IsMatrix(g) && 0 <= m < |g| && 0 <= n < |g[0]|
    ensures var ps := PathsBetween(g, diag, 0, 0, m, n);
      NumTo(g, diag, m, n) == |ps| && NoDuplicates(ps)
      && forall p :: p in ps <==> WalkablePath(g, diag, p, (0, 0), (m, n))
  {
    NumToIsInto(g, diag, m, n);
    PathsBetweenCount(g, diag, 0, 0, m, n);
    PathsBetweenDistinct(g, diag, 0, 0, m, n);
    PathsBetweenSound(g, diag, 0, 0, m, n);
    forall p | WalkablePath(g, diag, p, (0, 0), (m, n))
      ensures p in PathsBetween(g, diag, 0, 0, m, n)
    {
      PathsBetweenComplete(g, diag, 0, 0, m, n, p);
    }
  }

  /**
   * With a walkable bottom-right corner, `dptable_num_from` at (i, j) is the
   * number of walkable feasible paths from (i, j) to that corner.
   */
  lemma NumFromCountsAllPaths(g: Grid, diag: bool, i: int, j: int)
    requires IsMatrix(g) && 0 <= i < |g| && 0 <= j < |g[0]| && g[|g| - 1][|g[0]| - 1] != Unwalkable
    ensures var ps := PathsBetween(g, diag, i, j, |g| - 1, |g[0]| - 1);
      NumFrom(g, diag, i, j) == |ps| && NoDuplicates(ps)
      && forall p :: p in ps <==> WalkablePath(g, diag, p, (i, j), (|g| - 1, |g[0]| - 1))
  {
    var m, n := |g| - 1, |g[0]| - 1;
    NumFromIsOutOf(g, diag, i, j);
    IntoIsOutOf(g, diag, i, j, m, n);
    PathsBetweenCount(g, diag, i, j, m, n);
    PathsBetweenDistinct(g, diag, i, j, m, n);
    PathsBetweenSound(g, diag, i, j, m, n);
    forall p | WalkablePath(g, diag, p, (i, j), (m, n))
      ensures p in PathsBetween(g, diag, i, j, m, n)
    {
      PathsBetweenComplete(g, diag, i, j, m, n, p);
    }
  }
}
