/**
 * The path builders of the robot library: `build_all_opt_path`, which walks
 * a value table from the top-left corner and collects, depth first, every
 * path whose steps keep the table's value equation; `build_opt_path`, whose
 * body is still a stub returning the empty path; and `conceal`, which
 * overwrites a list of table cells with -1 and is given the empty list.
 */
module RobotPaths {
  import opened RobotGrid
  import opened RobotOpt

  /** The weight grid and the value table have the same rectangular shape. */
  predicate SameShape(f: Grid, dp: Grid) {
    IsMatrix(f) && IsMatrix(dp) && |dp| == |f| && |dp[0]| == |f[0]|
  }

  /** The bottom-right corner of the grid. */
  function Corner(f: Grid): Cell
    requires IsMatrix(f)
  {
    (|f| - 1, |f[0]| - 1)
  }

  /**
   * A step from a to b keeps the value equation: the table at b is the
   * table at a less the weight of a.
   */
  predicate StepOk(f: Grid, dp: Grid, a: Cell, b: Cell)
    requires SameShape(f, dp)
  {
    InGrid(f, a) && InGrid(f, b) && dp[b.0][b.1] == dp[a.0][a.1] - f[a.0][a.1]
  }

  /** Every step of `p` from index `lo` on keeps the value equation. */
  predicate StepsFrom(f: Grid, dp: Grid, p: seq<Cell>, lo: int)
    requires SameShape(f, dp)
  {
    forall k :: 0 <= k && lo <= k < |p| - 1 ==> StepOk(f, dp, p[k], p[k + 1])
  }

  /** Every path of `ps` has at least `len` cells and ends at the bottom-right corner. */
  predicate EndAtCorner(f: Grid, ps: seq<seq<Cell>>, len: int)
    requires IsMatrix(f)
  {
    forall k :: 0 <= k < |ps| ==> |ps[k]| >= len && |ps[k]| > 0 && ps[k][|ps[k]| - 1] == Corner(f)
  }

  /** Three lists of paths that end at the corner with more than `len` cells, joined, still end there with at least `len`. */
  lemma EndAtCornerJoin(f: Grid, a: seq<seq<Cell>>, b: seq<seq<Cell>>, c: seq<seq<Cell>>, len: int)
    requires IsMatrix(f)
    requires EndAtCorner(f, a, len + 1) && EndAtCorner(f, b, len + 1) && EndAtCorner(f, c, len + 1)
    ensures EndAtCorner(f, a + b + c, len)
  {
    var abc := a + b + c;
    forall k | 0 <= k < |abc|
      ensures |abc[k]| >= len && |abc[k]| > 0 && abc[k][|abc[k]| - 1] == Corner(f)
    {
      if k < |a| {
        assert abc[k] == a[k];
      } else if k < |a| + |b| {
        assert abc[k] == b[k - |a|];
      } else {
        assert abc[k] == c[k - |a| - |b|];
      }
    }
  }

  /**
   * The paths `build_all_opt_path` collects from a partial path, in the
   * order it finds them: a path that has reached the bottom-right corner is
   * complete; otherwise the search extends it down, then right, then (with
   * diagonal moves) down-right, wherever the step keeps the value equation.
   */
  function Extensions(f: Grid, dp: Grid, diag: bool, path: seq<Cell>): (r: seq<seq<Cell>>)
    requires SameShape(f, dp) && |path| > 0 && InGrid(f, path[|path| - 1])
    ensures EndAtCorner(f, r, |path|)
    decreases (|f| - path[|path| - 1].0) + (|f[0]| - path[|path| - 1].1), 1
  {
    var cell := path[|path| - 1];
    if cell == Corner(f) then [path]
    else
      var down := Branch(f, dp, diag, path, (cell.0 + 1, cell.1));
      var right := Branch(f, dp, diag, path, (cell.0, cell.1 + 1));
      var across := if diag then Branch(f, dp, diag, path, (cell.0 + 1, cell.1 + 1)) else [];
      EndAtCornerJoin(f, down, right, across, |path|);
      down + right + across
  }

  /** The paths found through one neighbour: none unless it is on the grid and the step keeps the value equation. */
  function Branch(f: Grid, dp: Grid, diag: bool, path: seq<Cell>, next: Cell): (r: seq<seq<Cell>>)
    requires SameShape(f, dp) && |path| > 0 && InGrid(f, path[|path| - 1])
    requires next.0 >= path[|path| - 1].0 && next.1 >= path[|path| - 1].1 && next != path[|path| - 1]
    ensures EndAtCorner(f, r, |path| + 1)
    decreases (|f| - path[|path| - 1].0) + (|f[0]| - path[|path| - 1].1), 0
  {
    if InGrid(f, next) && StepOk(f, dp, path[|path| - 1], next) then Extensions(f, dp, diag, path + [next]) else []
  }

  /**
   * The state the nested helpers of `build_all_opt_path` share: the grid,
   * the table, their shape, and the list of complete paths they append to.
   */
  class OptPathCollector {
    const f: Grid
    const dptable: Grid
    const rows: int
    const cols: int
    var paths: seq<seq<Cell>>

    /** The shape the helpers rely on. */
    predicate Ready() {
      SameShape(f, dptable) && rows == |f| && cols == |f[0]|
    }

    constructor (f: Grid, dptable: Grid)
      requires SameShape(f, dptable)
      ensures Ready() && this.f == f && this.dptable == dptable && paths == []
    {
      this.f := f;
      this.dptable := dptable;
      rows, cols := |f|, |f[0]|;
      paths := [];
    }

    /** `_build_exclude_diag`: extends the path down, then right; appends it once complete. */
    method BuildExcludeDiag(path: seq<Cell>)
      requires Ready() && |path| > 0 && InGrid(f, path[|path| - 1])
      modifies this
      ensures paths == old(paths) + Extensions(f, dptable, false, path)
      decreases (rows - path[|path| - 1].0) + (cols - path[|path| - 1].1)
    {
      var cell := path[|path| - 1];
      if cell != (rows - 1, cols - 1) {
        var row, col := cell.0, cell.1;
        var valueOnOptPath := dptable[row][col] - f[row][col];
        ghost var down := Branch(f, dptable, false, path, (row + 1, col));
        ghost var right := Branch(f, dptable, false, path, (row, col + 1));
        ghost var start := paths;
        if row < rows - 1 {
          if dptable[row + 1][col] == valueOnOptPath {
            assert down == Extensions(f, dptable, false, path + [(row + 1, col)]);
            BuildExcludeDiag(path + [(row + 1, col)]);
          } else {
            assert down == [];
          }
        } else {
          assert down == [];
        }
        assert paths == start + down;
        if col < cols - 1 {
          if dptable[row][col + 1] == valueOnOptPath {
            assert right == Extensions(f, dptable, false, path + [(row, col + 1)]);
            BuildExcludeDiag(path + [(row, col + 1)]);
          } else {
            assert right == [];
          }
        } else {
          assert right == [];
        }
        assert paths == start + down + right;
        Regroup(start, down, right, []);
        assert Extensions(f, dptable, false, path) == down + right + [];
      } else {
        paths := paths + [path];
      }
    }

    /** `_build_include_diag`: extends the path down, then right, then down-right; appends it once complete. */
    method BuildIncludeDiag(path: seq<Cell>)
      requires Ready() && |path| > 0 && InGrid(f, path[|path| - 1])
      modifies this
      ensures paths == old(paths) + Extensions(f, dptable, true, path)
      decreases (rows - path[|path| - 1].0) + (cols - path[|path| - 1].1)
    {
      var cell := path[|path| - 1];
      if cell != (rows - 1, cols - 1) {
        var row, col := cell.0, cell.1;
        var valueOnOptPath := dptable[row][col] - f[row][col];
        ghost var down := Branch(f, dptable, true, path, (row + 1, col));
        ghost var right := Branch(f, dptable, true, path, (row, col + 1));
        ghost var across := Branch(f, dptable, true, path, (row + 1, col + 1));
        ghost var start := paths;
        if row < rows - 1 {
          if dptable[row + 1][col] == valueOnOptPath {
            assert down == Extensions(f, dptable, true, path + [(row + 1, col)]);
            BuildIncludeDiag(path + [(row + 1, col)]);
          } else {
            assert down == [];
          }
        } else {
          assert down == [];
        }
        assert paths == start + down;
        if col < cols - 1 {
          if dptable[row][col + 1] == valueOnOptPath {
            assert right == Extensions(f, dptable, true, path + [(row, col + 1)]);
            BuildIncludeDiag(path + [(row, col + 1)]);
          } else {
            assert right == [];
          }
        } else {
          assert right == [];
        }
        assert paths == start + down + right;
        if row < rows - 1 && col < cols - 1 {
          if dptable[row + 1][col + 1] == valueOnOptPath {
            assert across == Extensions(f, dptable, true, path + [(row + 1, col + 1)]);
            BuildIncludeDiag(path + [(row + 1, col + 1)]);
          } else {
            assert across == [];
          }
        } else {
          assert across == [];
        }
        Regroup(start, down, right, across);
        assert Extensions(f, dptable, true, path) == down + right + across;
      } else {
        paths := paths + [path];
      }
    }
  }

  /** Concatenation regrouped: the paths appended by the three branches in turn. */
  lemma Regroup<T>(a: seq<T>, b: seq<T>, c: seq<T>, d: seq<T>)
    ensures a + b + c + d == a + (b + c + d)
  {
  }

  /**
   * `build_all_opt_path`: every path from the top-left corner whose steps
   * keep the value equation, in depth-first order.
   */
  method BuildAllOptPath(f: Grid, dptable: Grid, diag: bool) returns (paths: seq<seq<Cell>>)
    requires SameShape(f, dptable)
    ensures paths == Extensions(f, dptable, diag, [(0, 0)])
  {
    var collector := new OptPathCollector(f, dptable);
    if diag {
      collector.BuildIncludeDiag([(0, 0)]);
    } else {
      collector.BuildExcludeDiag([(0, 0)]);
    }
    paths := collector.paths;
  }

  /** What a path found through one neighbour looks like (see `ExtensionsSound`). */
  lemma {:induction false} BranchSound(f: Grid, dp: Grid, diag: bool, path: seq<Cell>, next: Cell, p: seq<Cell>)
    requires SameShape(f, dp) && |path| > 0 && InGrid(f, path[|path| - 1])
    requires CheckCellContiguity(path[|path| - 1], next, diag)
    requires p in Branch(f, dp, diag, path, next)
    ensures |path| < |p| && p[..|path|] == path && p[|path|] == next && p[|p| - 1] == Corner(f)
    ensures Feasible(path, diag) ==> Feasible(p, diag)
    ensures OnGrid(f, path) ==> OnGrid(f, p)
    ensures StepsFrom(f, dp, p, |path| - 1)
    decreases (|f| - path[|path| - 1].0) + (|f[0]| - path[|path| - 1].1), 0
  {
    var longer := path + [next];
    ExtensionsSound(f, dp, diag, longer, p);
    assert p[..|path|] == p[..|longer|][..|path|];
    assert p[|path|] == p[..|longer|][|path|];
    if Feasible(path, diag) {
      FeasibleExtend(path, next, diag);
    }
    if OnGrid(f, path) {
      assert OnGrid(f, longer);
    }
    forall k | |path| - 1 <= k < |p| - 1
      ensures StepOk(f, dp, p[k], p[k + 1])
    {
      if k == |path| - 1 {
        assert p[k] == path[|path| - 1];
      }
    }
  }

  /**
   * Soundness: every path listed from a partial path extends it, ends at
   * the bottom-right corner and keeps the value equation on every step it
   * adds; the added steps are moves, and on the grid.
   */
  lemma {:induction false} ExtensionsSound(f: Grid, dp: Grid, diag: bool, path: seq<Cell>, p: seq<Cell>)
    requires SameShape(f, dp) && |path| > 0 && InGrid(f, path[|path| - 1])
    requires p in Extensions(f, dp, diag, path)
    ensures |path| <= |p| && p[..|path|] == path && p[|p| - 1] == Corner(f)
    ensures Feasible(path, diag) ==> Feasible(p, diag)
    ensures OnGrid(f, path) ==> OnGrid(f, p)
    ensures StepsFrom(f, dp, p, |path| - 1)
    decreases (|f| - path[|path| - 1].0) + (|f[0]| - path[|path| - 1].1), 1
  {
    var cell := path[|path| - 1];
    if cell == Corner(f) {
      assert p == path;
    } else {
      var down, right, across := (cell.0 + 1, cell.1), (cell.0, cell.1 + 1), (cell.0 + 1, cell.1 + 1);
      if p in Branch(f, dp, diag, path, down) {
        BranchSound(f, dp, diag, path, down, p);
      } else if p in Branch(f, dp, diag, path, right) {
        BranchSound(f, dp, diag, path, right, p);
      } else {
        assert diag && p in Branch(f, dp, diag, path, across);
        BranchSound(f, dp, diag, path, across, p);
      }
    }
  }

  /**
   * Completeness: every feasible path that extends a partial path, ends at
   * the bottom-right corner and keeps the value equation on every step it
   * adds is listed.
   */
  lemma {:induction false} ExtensionsComplete(f: Grid, dp: Grid, diag: bool, path: seq<Cell>, p: seq<Cell>)
    requires SameShape(f, dp) && |path| > 0 && InGrid(f, path[|path| - 1])
    requires |path| <= |p| && p[..|path|] == path && p[|p| - 1] == Corner(f)
    requires Feasible(p, diag) && StepsFrom(f, dp, p, |path| - 1)
    ensures p in Extensions(f, dp, diag, path)
    decreases |p| - |path|
  {
    var cell := path[|path| - 1];
    if |p| == |path| {
      assert p == path;
    } else {
      var next := p[|path|];
      assert p[|path| - 1] == cell;
      assert CheckCellContiguity(cell, next, diag);
      assert StepOk(f, dp, cell, next);
      var longer := path + [next];
      assert p[..|longer|] == longer;
      ExtensionsComplete(f, dp, diag, longer, p);
      assert p in Branch(f, dp, diag, longer[..|path|], next) by {
        assert longer[..|path|] == path;
      }
      assert cell != Corner(f);
    }
  }

  /**
   * What `build_all_opt_path` returns: exactly the feasible paths from the
   * top-left to the bottom-right corner whose every step keeps the value
   * equation. Such a path lies on the grid and has between max(R, C) and
   * R + C - 1 cells, exactly R + C - 1 without diagonal moves.
   */
  lemma AllOptPaths(f: Grid, dp: Grid, diag: bool, p: seq<Cell>)
    requires SameShape(f, dp)
    ensures p in Extensions(f, dp, diag, [(0, 0)]) <==>
      |p| > 0 && p[0] == (0, 0) && p[|p| - 1] == Corner(f) && Feasible(p, diag) && StepsFrom(f, dp, p, 0)
    ensures p in Extensions(f, dp, diag, [(0, 0)]) ==>
      OnGrid(f, p) && |f| <= |p| <= |f| + |f[0]| - 1 && |f[0]| <= |p| && (!diag ==> |p| == |f| + |f[0]| - 1)
  {
    if p in Extensions(f, dp, diag, [(0, 0)]) {
      ExtensionsSound(f, dp, diag, [(0, 0)], p);
      CornerPathLength(p, |f|, |f[0]|, diag);
    }
    if |p| > 0 && p[0] == (0, 0) && p[|p| - 1] == Corner(f) && Feasible(p, diag) && StepsFrom(f, dp, p, 0) {
      assert p[..1] == [(0, 0)];
      ExtensionsComplete(f, dp, diag, [(0, 0)], p);
    }
  }

  /**
   * Along a path that keeps the value equation, the table telescopes: the
   * weight of the path is the table at its first cell, less the table at its
   * last cell, plus the weight of its last cell.
   */
  lemma {:induction false} StepsTelescope(f: Grid, dp: Grid, p: seq<Cell>)
    requires SameShape(f, dp) && |p| > 0 && OnGrid(f, p) && StepsFrom(f, dp, p, 0)
    ensures PathWeight(f, p) == dp[p[0].0][p[0].1] - dp[p[|p| - 1].0][p[|p| - 1].1] + f[p[|p| - 1].0][p[|p| - 1].1]
    decreases |p|
  {
    if |p| > 1 {
      var rest := p[1..];
      assert OnGrid(f, rest);
      assert StepsFrom(f, dp, rest, 0) by {
        forall k | 0 <= k < |rest| - 1
          ensures StepOk(f, dp, rest[k], rest[k + 1])
        {
          assert rest[k] == p[k + 1] && rest[k + 1] == p[k + 2];
        }
      }
      StepsTelescope(f, dp, rest);
      assert StepOk(f, dp, p[0], p[1]);
    }
  }

  /**
   * Over the `dptable_opt_from` table, every path `build_all_opt_path` lists
   * weighs exactly the table's top-left entry, so none is lighter than any
   * walkable path from the top-left to the bottom-right corner.
   */
  lemma OptPathsAreOptimal(f: Grid, dp: Grid, diag: bool, p: seq<Cell>, q: seq<Cell>)
    requires SameShape(f, dp)
    requires forall i, j :: 0 <= i < |f| && 0 <= j < |f[0]| ==> dp[i][j] == OptFrom(f, diag, i, j)
    requires p in Extensions(f, dp, diag, [(0, 0)])
    requires |q| > 0 && q[0] == (0, 0) && q[|q| - 1] == Corner(f) && OnGrid(f, q) && Feasible(q, diag)
    requires forall k :: 0 <= k < |q| ==> f[q[k].0][q[k].1] != Unwalkable
    ensures OnGrid(f, p)
    ensures PathWeight(f, p) == OptFrom(f, diag, 0, 0)
    ensures PathWeight(f, q) <= PathWeight(f, p)
  {
    AllOptPaths(f, dp, diag, p);
    StepsTelescope(f, dp, p);
    OptFromBoundsPaths(f, diag, q);
  }

  /**
   * `build_opt_path`: the source still has only a stub, which reads the
   * table's shape (so it needs a row) and returns the empty path.
   */
  method BuildOptPath(dptable: Grid, diag: bool) returns (path: seq<Cell>)
    requires |dptable| > 0
    ensures path == []
  {
    var rows, cols := |dptable|, |dptable[0]|;
    var fullPathLen := rows + cols - 1;
    path := [];
  }

  /** Overwrites each listed cell of the table with -1 and leaves every other cell as it was. */
  method ConcealCells(dptable: array2<int>, cells: seq<Cell>)
    requires forall k :: 0 <= k < |cells| ==> 0 <= cells[k].0 < dptable.Length0 && 0 <= cells[k].1 < dptable.Length1
    modifies dptable
    ensures forall k :: 0 <= k < |cells| ==> dptable[cells[k].0, cells[k].1] == -1
    ensures forall i, j :: 0 <= i < dptable.Length0 && 0 <= j < dptable.Length1 && (i, j) !in cells ==>
      dptable[i, j] == old(dptable[i, j])
  {
    for n := 0 to |cells|
      invariant forall k :: 0 <= k < n ==> dptable[cells[k].0, cells[k].1] == -1
      invariant forall i, j :: 0 <= i < dptable.Length0 && 0 <= j < dptable.Length1 && (i, j) !in cells[..n] ==>
        dptable[i, j] == old(dptable[i, j])
    {
      dptable[cells[n].0, cells[n].1] := -1;
      assert cells[..n + 1] == cells[..n] + [cells[n]];
    }
    assert cells[..|cells|] == cells;
  }

  /** `conceal`: the list of cells to hide is empty, so the table is left as it was. */
  method Conceal(dptable: array2<int>)
    modifies dptable
    ensures forall i, j :: 0 <= i < dptable.Length0 && 0 <= j < dptable.Length1 ==> dptable[i, j] == old(dptable[i, j])
  {
    ConcealCells(dptable, []);
  }
}
