# Grid-robot tables and tile ranking, in Dafny

This project models two small combinatorial engines and proves properties
of them.

**The grid-robot library** (`robot_lib.py`) works on a rectangular grid of
signed weights. A weight of -1 marks a blocked cell. A robot walks from the
top-left corner towards the bottom-right corner, one move at a time: down,
right, and, when diagonal moves are on, down-right. A cell's *value* is its
positive part. Its *cost* is its negated negative part, charged to a budget.
The library offers:

- the cell helpers and validators: shape checks, budget bounds, cell
  contiguity, path feasibility, and the label codec (`parse_cell`);
- six dynamic-programming table builders, which fill nested lists in place:
  - path counts per budget layer (`dptable_num_to_with_budget`);
  - path counts from and to the corners (`dptable_num_to`,
    `dptable_num_from`);
  - a value per cell and spend (`dptable_opt_to`), documented as the best
    value of a path ending at the cell;
  - a weight per cell (`dptable_opt_from`), documented as the best weight
    of a path starting at the cell;
  - (count, best value) pairs in both directions (`dptable_num_opt_to`,
    `dptable_num_opt_from`);
- `build_all_opt_path`, which lists every path whose steps follow a value
  table, using two recursive helpers that append to a shared list;
- the stubs `build_opt_path` and `conceal`.

Each builder is a `method` over a Dafny `array2`/`array3`, with loops as in
the Python code. Each one is proved equal, entry for entry, to a recursive
function of the grid. That function is then related by lemmas to an
independent reference:

- the list of walkable paths itself, or the binomial coefficient;
- the weight or value of any feasible path;
- another table.

Blocked cells, the Python `-1` index on the border, and the cost charged
for the source cell rather than the entered one are kept as the code has
them.

**The tile ranker** (`piastrelle_DP.py`) deals with strips of n units
covered by short tiles `[]` (one unit) and long tiles `[--]` (two units),
written as strings. The number of coverings is a Fibonacci number, kept in
a precomputed table `num_wffs`.

- `rank` gives a covering's position among all coverings of its strip,
  either short tiles first or long tiles first.
- `unrank` goes back from a position to a covering.
- `next_wff` moves to the following covering.

The loops become methods proved against functions on a `Tile` datatype. The
model proves:

- the bijection between coverings and positions;
- the symmetry of the two orders;
- the successor property.

Modules:

- `RobotGrid`, `CellLabels`: the helpers;
- `RobotPathCount`: the `dptable_num_to` and `dptable_num_from` builders;
- `RobotPathLists`: the walkable paths between two cells, listed one by one,
  whose number both count tables hold;
- `RobotBudgetCount`: `dptable_num_to_with_budget`;
- `RobotOpt`: `dptable_opt_to` and `dptable_opt_from`;
- `RobotOptReach`: the same two tables with unreached states left out, each
  entry proved to be the best value some path attains;
- `RobotNumOpt`: the (count, best value) builders;
- `RobotNumOptPaths`: the corrected `dptable_num_opt_to` measured against
  the listed paths: its value is the best weight of a walkable path from
  the origin, and its count the number of such paths of that weight;
- `RobotPaths`: the path builders;
- `TileCounts`, `Piastrelle`: the tile ranker;
- `Tables`: array snapshots, shared by the builders;
- `Wrappers`: `Option` and `Result`.

## Model

| member | source | states |
|---|---|---|
| RobotGrid.CheckMatrixShape | example_problems/tutorial/RO_robot/services/robot_lib.py:119-133 | false for an empty grid or an empty first row; otherwise true exactly when every row is as long as the first |
| RobotGrid.Shape | example_problems/tutorial/RO_robot/services/robot_lib.py:150-155 | the pair (number of rows, length of the first row); needs a row, as the code indexes `grid[0]` |
| RobotGrid.CheckContainsCell | example_problems/tutorial/RO_robot/services/robot_lib.py:142-147 | true exactly when both coordinates fall inside the shape, so the cell can be read without a wrapped index |
| RobotGrid.PyIndex | example_problems/tutorial/RO_robot/services/robot_lib.py:111-116 | how `walkable` reads `(-1, i)`: a negative index counts from the end and lands inside the list |
| RobotGrid.Value | example_problems/tutorial/RO_robot/services/robot_lib.py:227-230 | the value is non-negative, at least the weight, and either the weight or 0 |
| RobotGrid.Cost | example_problems/tutorial/RO_robot/services/robot_lib.py:233-236 | the cost is non-negative, at least minus the weight, and either minus the weight or 0 |
| RobotGrid.ValueCostSplit | example_problems/tutorial/RO_robot/services/robot_lib.py:227-236 | value minus cost is the weight; at most one of them is non-zero; a blocked cell has value 0 and cost 1 |
| RobotGrid.BuildCostTable | example_problems/tutorial/RO_robot/services/robot_lib.py:239-249 | a matrix of the grid's shape whose every entry is that cell's (non-negative) cost |
| RobotGrid.CheckCellContiguity | example_problems/tutorial/RO_robot/services/robot_lib.py:158-181 | true exactly when the difference of the two cells is (1, 0), (0, 1) or, only with diagonal moves, (1, 1) |
| RobotGrid.CheckPathFeasible | example_problems/tutorial/RO_robot/services/robot_lib.py:184-197 | true exactly when every consecutive pair is contiguous, hence true for paths of 0 or 1 cells |
| RobotGrid.FeasibleSlice | example_problems/tutorial/RO_robot/services/robot_lib.py:184-197 | every stretch of a feasible path is feasible |
| RobotGrid.FeasibleSpan | example_problems/tutorial/RO_robot/services/robot_lib.py:158-197 | a feasible path of k cells advances each coordinate by 0 to k-1 and both together by at least k-1, exactly k-1 without diagonal moves |
| RobotGrid.CornerPathLength | example_problems/tutorial/RO_robot/services/robot_lib.py:158-197 | a feasible corner-to-corner path has between max(R, C) and R+C-1 cells, exactly R+C-1 without diagonal moves |
| CellLabels.XMap | example_problems/tutorial/RO_robot/services/robot_lib.py:87-89 | the shown row less one is the row |
| CellLabels.YMap | example_problems/tutorial/RO_robot/services/robot_lib.py:92-94 | the shown column letter lies y places after 'A', an upper-case letter for y below 26 |
| CellLabels.ParseCell | example_problems/tutorial/RO_robot/services/robot_lib.py:101-108 | a label that is not two elements, a row that is not an integer, or a column that is not one character each fail; otherwise the row is one less than the parsed integer and the column is the lower-cased letter's distance from 'a' |
| CellLabels.Lower | example_problems/tutorial/RO_robot/services/robot_lib.py:107 | `str.lower` on one character: an ASCII capital moves 32 code points to its lower-case letter, any other character is kept |
| CellLabels.ParseInt | example_problems/tutorial/RO_robot/services/robot_lib.py:104 | `int(row)` for signed decimal text: a result only for non-empty text, with the sign of the text |
| CellLabels.ShowNat | example_problems/tutorial/RO_robot/services/robot_lib.py:87-89 | `str` of a shown row: non-empty decimal digits without a sign |
| CellLabels.DigitsValueShowNat | example_problems/tutorial/RO_robot/services/robot_lib.py:87-108 | reading back the decimal text of a number gives the number |
| CellLabels.ParseCellLabel | example_problems/tutorial/RO_robot/services/robot_lib.py:87-108 | label round trip: parsing the label `[str(_xmap(x)), _ymap(y)]` gives (x, y) for every x >= 0 and 0 <= y < 26 |
| RobotPathCount.NumTo | example_problems/tutorial/RO_robot/services/robot_lib.py:377-388 | the count table's entries are never negative |
| RobotPathCount.DptableNumTo | example_problems/tutorial/RO_robot/services/robot_lib.py:311-395 | returns [t, b] of the grid's shape, with t the path counts `NumTo` and b the "budget left" values `BudgetLeft`; border reads at index -1 give 0 |
| RobotPathCount.FillBudgetLeft | example_problems/tutorial/RO_robot/services/robot_lib.py:339-359 | the first double loop leaves every entry of b equal to `BudgetLeft` |
| RobotPathCount.FillBudgetLeftCell | example_problems/tutorial/RO_robot/services/robot_lib.py:341-359 | one step of that loop: the cells before (i, j) hold `BudgetLeft` and the rest still 0, one cell further on |
| RobotPathCount.FillNumTo | example_problems/tutorial/RO_robot/services/robot_lib.py:377-388 | the second double loop leaves every entry of t equal to `NumTo` |
| RobotPathCount.FillNumToCell | example_problems/tutorial/RO_robot/services/robot_lib.py:378-388 | one step of that loop: the cells before (i, j) hold `NumTo` and the rest still 0, one cell further on |
| RobotPathCount.NumFrom | example_problems/tutorial/RO_robot/services/robot_lib.py:413-432 | the entries of `dptable_num_from` are never negative |
| RobotPathCount.DptableNumFrom | example_problems/tutorial/RO_robot/services/robot_lib.py:398-435 | a table of the grid's shape whose every entry is `NumFrom` |
| RobotPathCount.FillNumFromLastRow | example_problems/tutorial/RO_robot/services/robot_lib.py:414-416 | the last row, from the end, holds `NumFrom`; every other entry is unchanged |
| RobotPathCount.FillNumFromLastCol | example_problems/tutorial/RO_robot/services/robot_lib.py:418-420 | the last column, from the end, holds `NumFrom`; every other entry is unchanged |
| RobotPathCount.FillNumFromInteriorDiag | example_problems/tutorial/RO_robot/services/robot_lib.py:422-426 | with diagonal moves, the whole table then holds `NumFrom` |
| RobotPathCount.FillNumFromCellDiag | example_problems/tutorial/RO_robot/services/robot_lib.py:425-426 | one cell of that sweep: (i, j) gets `NumFrom`, nothing else changes |
| RobotPathCount.FillNumFromInteriorOrth | example_problems/tutorial/RO_robot/services/robot_lib.py:428-432 | without diagonal moves, the whole table then holds `NumFrom` |
| RobotPathCount.FillNumFromCellOrth | example_problems/tutorial/RO_robot/services/robot_lib.py:431-432 | one cell of that sweep: (i, j) gets `NumFrom`, nothing else changes |
| RobotPathCount.NumToPascal | example_problems/tutorial/RO_robot/services/robot_lib.py:377-388 | with no blocked cell and no diagonal moves, the count at (i, j) is (i+j) choose i |
| RobotPathCount.NumFromPascal | example_problems/tutorial/RO_robot/services/robot_lib.py:413-432 | with no blocked cell and no diagonal moves, the count at (i, j) is the binomial coefficient of the remaining rows and columns |
| RobotPathCount.NumFromCutOffRow | example_problems/tutorial/RO_robot/services/robot_lib.py:414-416 | a blocked cell in the last row, other than the corner, leaves 0 at every cell of that row before it |
| RobotPathCount.NumFromCutOffCol | example_problems/tutorial/RO_robot/services/robot_lib.py:418-420 | a blocked cell in the last column, other than the corner, leaves 0 at every cell of that column above it |
| RobotPathCount.BudgetLeftAllWalkable | example_problems/tutorial/RO_robot/services/robot_lib.py:339-359 | without blocked cells every "budget left" entry is the budget |
| RobotPathCount.BudgetLeft | example_problems/tutorial/RO_robot/services/robot_lib.py:339-359 | the "budget left" value `dptable_num_to` stores: the budget at the origin, the larger of the left and upper values, one less at a blocked cell, where the diagonal also competes; it never exceeds the budget (0 for a negative budget, as an out-of-range neighbour counts as 0); `BudgetLeftAtLeast` gives the lower bound |
| RobotPathCount.BudgetLeftMonotone | example_problems/tutorial/RO_robot/services/robot_lib.py:339-359 | a larger budget never lowers a "budget left" entry |
| RobotPathCount.Into | example_problems/tutorial/RO_robot/services/robot_lib.py:377-388 | the paths between two cells counted by their last move, never negative |
| RobotPathCount.OutOf | example_problems/tutorial/RO_robot/services/robot_lib.py:413-432 | the paths between two cells counted by their first move, never negative |
| RobotPathCount.NumToIsInto | example_problems/tutorial/RO_robot/services/robot_lib.py:377-388 | the count table equals `Into`, the walkable paths from the origin counted by their last move |
| RobotPathCount.NumFromIsOutOf | example_problems/tutorial/RO_robot/services/robot_lib.py:413-432 | with a walkable corner, `dptable_num_from` equals `OutOf`, the walkable paths to the bottom-right corner counted by their first move |
| RobotPathCount.IntoBlockedSource | example_problems/tutorial/RO_robot/services/robot_lib.py:377-388 | no path leaves a blocked cell |
| RobotPathCount.IntoFirstMove | example_problems/tutorial/RO_robot/services/robot_lib.py:377-388 | the paths counted by last move also split by their first move |
| RobotPathCount.IntoIsOutOf | example_problems/tutorial/RO_robot/services/robot_lib.py:377-432 | counting paths by last move or by first move gives the same number |
| RobotPathCount.NumToNumFrom | example_problems/tutorial/RO_robot/services/robot_lib.py:311-435 | with both corners walkable, the count `dptable_num_to` gives at the bottom-right equals the count `dptable_num_from` gives at the origin |
| RobotPathCount.NumToCountsPaths | example_problems/tutorial/RO_robot/services/robot_lib.py:377-388 | the last cell of any walkable feasible path from the origin has a positive count |
| RobotPathCount.BudgetLeftAtLeast | example_problems/tutorial/RO_robot/services/robot_lib.py:339-359 | each step to (i, j) deducts at most 1, so the "budget left" entry is at least the budget less i + j |
| RobotPathLists.ViaCount | example_problems/tutorial/RO_robot/services/robot_lib.py:380-388 | the paths through one predecessor number as many as the paths into that predecessor, and none when it lies before the start |
| RobotPathLists.PathsBetweenCount | example_problems/tutorial/RO_robot/services/robot_lib.py:377-388 | the list of paths between two cells has exactly `Into` entries |
| RobotPathLists.ExtendAllWalkable | example_problems/tutorial/RO_robot/services/robot_lib.py:158-197 | walkable paths into a cell, each extended by one allowed move into a walkable cell, are walkable paths into that cell |
| RobotPathLists.ViaSound | example_problems/tutorial/RO_robot/services/robot_lib.py:380-388 | every path listed through a predecessor is a walkable path from the start to the cell |
| RobotPathLists.PathsBetweenSound | example_problems/tutorial/RO_robot/services/robot_lib.py:377-388 | every listed path starts and ends at the two cells, lies on the grid, is feasible and crosses no blocked cell |
| RobotPathLists.DropLast | example_problems/tutorial/RO_robot/services/robot_lib.py:158-197 | a walkable path of two or more cells is a walkable path to its second-to-last cell followed by one allowed move |
| RobotPathLists.ViaListed | example_problems/tutorial/RO_robot/services/robot_lib.py:380-388 | a path listed through a predecessor of a walkable cell is listed for that cell |
| RobotPathLists.PathsBetweenComplete | example_problems/tutorial/RO_robot/services/robot_lib.py:377-388 | every walkable feasible path between the two cells is listed |
| RobotPathLists.ViaDistinct | example_problems/tutorial/RO_robot/services/robot_lib.py:380-388 | the paths listed through one predecessor are distinct and all pass through it just before the end |
| RobotPathLists.DistinctJoin | example_problems/tutorial/RO_robot/services/robot_lib.py:380-388 | two duplicate-free lists whose paths pass through different second-to-last cells join without duplicates |
| RobotPathLists.PathsBetweenDistinct | example_problems/tutorial/RO_robot/services/robot_lib.py:377-388 | no path is listed twice |
| RobotPathLists.NumToCountsAllPaths | example_problems/tutorial/RO_robot/services/robot_lib.py:377-388 | `dptable_num_to` at (m, n) is the number of walkable feasible paths from the origin to (m, n): the list of exactly those paths, without duplicates, has that length |
| RobotPathLists.NumFromCountsAllPaths | example_problems/tutorial/RO_robot/services/robot_lib.py:413-432 | with a walkable bottom-right corner, `dptable_num_from` at (i, j) is the number of walkable feasible paths from (i, j) to the corner, listed the same way |
| RobotBudgetCount.Charge | example_problems/tutorial/RO_robot/services/robot_lib.py:272-300 | what a move charges is never negative: the entered cell's cost in the interior sweep, the left cell's cost in the border sweeps |
| RobotBudgetCount.Layers | example_problems/tutorial/RO_robot/services/robot_lib.py:264-303 | the layered counts are never negative |
| RobotBudgetCount.DptableNumToWithBudget | example_problems/tutorial/RO_robot/services/robot_lib.py:252-308 | for 0 < budget < 100, a budget x rows x cols table with 1 in layer 0 of the origin, every entry the non-negative `Layers` count, and every contribution landing in a layer below the budget |
| RobotBudgetCount.InteriorSweep | example_problems/tutorial/RO_robot/services/robot_lib.py:266-288 | after the interior sweep, every move made from a cell outside the last row and column has been pushed, charged the entered cell's cost |
| RobotBudgetCount.PushInterior | example_problems/tutorial/RO_robot/services/robot_lib.py:270-288 | the b loop at one interior cell pushes its moves down, right and, if allowed, diagonally |
| RobotBudgetCount.PushInteriorLayers | example_problems/tutorial/RO_robot/services/robot_lib.py:270-288 | each successor layer L receives the source's layer L minus the charge, and no other cell changes |
| RobotBudgetCount.PushTo | example_problems/tutorial/RO_robot/services/robot_lib.py:272-288 | one `+=` adds layer b of the source to layer b plus the charge of one successor, only below the budget |
| RobotBudgetCount.LastColSweep | example_problems/tutorial/RO_robot/services/robot_lib.py:291-295 | the last-column sweep pushes down, charged the cost of the cell the move leaves |
| RobotBudgetCount.PushDown | example_problems/tutorial/RO_robot/services/robot_lib.py:292-295 | the b loop at one last-column cell pushes into the cell below |
| RobotBudgetCount.PushLayer | example_problems/tutorial/RO_robot/services/robot_lib.py:293-303 | one border `+=` adds layer b of the source to layer b plus the charge of the target, only below the budget |
| RobotBudgetCount.LastRowSweep | example_problems/tutorial/RO_robot/services/robot_lib.py:298-303 | the last-row sweep pushes right, charged the cost of the cell the move leaves |
| RobotBudgetCount.PushRight | example_problems/tutorial/RO_robot/services/robot_lib.py:299-303 | the b loop at one last-row cell pushes into the next cell |
| RobotBudgetCount.SourceReady | example_problems/tutorial/RO_robot/services/robot_lib.py:266-303 | when a sweep reaches a cell, that cell's counts are final |
| RobotBudgetCount.FreeLayers | example_problems/tutorial/RO_robot/services/robot_lib.py:252-303 | with no negative weight, layer 0 holds the count `dptable_num_to` computes and every other layer holds 0 |
| RobotBudgetCount.BorderChargeCounterexample | example_problems/tutorial/RO_robot/services/robot_lib.py:290-295 | on [[0], [-2]] the only path into (1, 0) is counted in layer 0, below the cost 2 of the cell it enters |
| RobotBudgetCount.EnteredLayers | example_problems/tutorial/RO_robot/services/robot_lib.py:266-288 | the counts with every move charged the cell it enters are never negative |
| RobotBudgetCount.EnteredLayersCoverCost | example_problems/tutorial/RO_robot/services/robot_lib.py:266-288 | with that charge, a path ending at a cell other than the origin is counted only in a layer that covers that cell's cost |
| RobotBudgetCount.EnteredLayersInterior | example_problems/tutorial/RO_robot/services/robot_lib.py:266-288 | away from the last row and column, the table as written equals the entered-cell counts |
| RobotBudgetCount.EnteredSingleColumn | example_problems/tutorial/RO_robot/services/robot_lib.py:266-288 | in a single column, the one path down to row r is counted in exactly the layer of the costs it entered |
| RobotOpt.OptTo | example_problems/tutorial/RO_robot/services/robot_lib.py:458-493 | `dptable_opt_to`'s entries are never negative |
| RobotOpt.DptableOptTo | example_problems/tutorial/RO_robot/services/robot_lib.py:438-495 | a rows x cols x (budget+1) table whose every entry is `OptTo` |
| RobotOpt.FillOptTo | example_problems/tutorial/RO_robot/services/robot_lib.py:468-493 | one cell of the row-major sweep: the cells before it and the origin hold `OptTo`, the rest still 0, one cell further on |
| RobotOpt.FillOptCell | example_problems/tutorial/RO_robot/services/robot_lib.py:471-493 | the b loop at (row, col), with its three `max` updates, leaves every spend slot of the cell equal to `OptTo`, and no other cell changes |
| RobotOpt.OptToMonotone | example_problems/tutorial/RO_robot/services/robot_lib.py:468-493 | each cell's entries never decrease with the spend index |
| RobotOpt.OptToMonotoneUpTo | example_problems/tutorial/RO_robot/services/robot_lib.py:468-493 | monotonicity in the spend for every cell up to a given anti-diagonal |
| RobotOpt.PathValue | example_problems/tutorial/RO_robot/services/robot_lib.py:227-230 | the value a path collects is never negative |
| RobotOpt.PathCharge | example_problems/tutorial/RO_robot/services/robot_lib.py:233-236 | the budget a path spends, excluding its first cell, is never negative |
| RobotOpt.OptToBoundsPaths | example_problems/tutorial/RO_robot/services/robot_lib.py:438-495 | no feasible path from the origin that spends at most b collects more value than the entry at its last cell and spend b |
| RobotOpt.OptToMove | example_problems/tutorial/RO_robot/services/robot_lib.py:477-493 | the entry at a cell entered by a move is at least the source's entry, at the spend left after the cell's cost, plus the cell's value |
| RobotOpt.DptableOptFrom | example_problems/tutorial/RO_robot/services/robot_lib.py:498-538 | a table of the grid's shape whose every entry is `OptFrom`: the raw weight plus the best successor, 0 at a blocked cell |
| RobotOpt.FillOptFromLastRow | example_problems/tutorial/RO_robot/services/robot_lib.py:517-519 | the last row, from the end, holds `OptFrom`; every other entry is unchanged |
| RobotOpt.FillOptFromLastCol | example_problems/tutorial/RO_robot/services/robot_lib.py:521-523 | the last column, from the end, holds `OptFrom`; every other entry is unchanged |
| RobotOpt.FillOptFromInteriorDiag | example_problems/tutorial/RO_robot/services/robot_lib.py:525-530 | with diagonal moves, the whole table then holds `OptFrom` |
| RobotOpt.FillOptFromCellDiag | example_problems/tutorial/RO_robot/services/robot_lib.py:528-530 | one cell of that sweep: (i, j) gets `OptFrom`, nothing else changes |
| RobotOpt.FillOptFromInteriorOrth | example_problems/tutorial/RO_robot/services/robot_lib.py:532-536 | without diagonal moves, the whole table then holds `OptFrom` |
| RobotOpt.FillOptFromCellOrth | example_problems/tutorial/RO_robot/services/robot_lib.py:535-536 | one cell of that sweep: (i, j) gets `OptFrom`, nothing else changes |
| RobotOpt.OptFrom | example_problems/tutorial/RO_robot/services/robot_lib.py:516-536 | a blocked cell other than the bottom-right corner holds 0: no path continues from it |
| RobotOpt.OptFromMove | example_problems/tutorial/RO_robot/services/robot_lib.py:525-536 | a walkable cell's entry is at least its weight plus the entry of any cell one allowed move further on |
| RobotOpt.PathWeightLast | example_problems/tutorial/RO_robot/services/robot_lib.py:516-536 | a path's weight is the weight of all but its last cell plus the last cell's weight |
| RobotOpt.OptFromBoundsPaths | example_problems/tutorial/RO_robot/services/robot_lib.py:498-538 | no walkable feasible path to the bottom-right corner weighs more than the entry at its first cell |
| RobotOptReach.Better | example_problems/tutorial/RO_robot/services/robot_lib.py:479-493 | the better of two optional values: present when either is, at least each present one, and one of the two |
| RobotOptReach.OptToReach | example_problems/tutorial/RO_robot/services/robot_lib.py:471-493 | the corrected `dptable_opt_to`: the origin holds an entry at every spend from 0; an entry needs a spend of at least the cell's cost, and is at least the cell's value and the origin's value |
| RobotOptReach.OptFromReach | example_problems/tutorial/RO_robot/services/robot_lib.py:516-536 | the corrected `dptable_opt_from`: the corner holds an entry exactly when it is walkable; an entry needs the cell and the corner to be walkable |
| RobotOptReach.OptToReachBoundsPaths | example_problems/tutorial/RO_robot/services/robot_lib.py:449-450 | every feasible path from the origin within spend b reaches an entry at its last cell and spend b, and collects no more than it |
| RobotOptReach.OptToReachAttained | example_problems/tutorial/RO_robot/services/robot_lib.py:449-450 | every entry of the corrected `dptable_opt_to` is the value of some feasible path from the origin ending at that cell within that spend |
| RobotOptReach.OptToReachBelow | example_problems/tutorial/RO_robot/services/robot_lib.py:468-493 | a corrected entry never exceeds the entry the code stores |
| RobotOptReach.OptToCountsUnreached | example_problems/tutorial/RO_robot/services/robot_lib.py:471-493 | on [[0, -1, 3], [0, 0, 0]] without diagonal moves, the code stores 3 at (1, 2) for spend 0, every path within that spend collects less, and the corrected entry is 0 |
| RobotOptReach.OptFromReachBoundsPaths | example_problems/tutorial/RO_robot/services/robot_lib.py:508-509 | every walkable feasible path to the bottom-right corner starts at a cell holding a corrected entry, and weighs no more than it |
| RobotOptReach.OptFromReachAttained | example_problems/tutorial/RO_robot/services/robot_lib.py:508-509 | every corrected entry of `dptable_opt_from` is the weight of some walkable feasible path from that cell to the corner |
| RobotOptReach.OptFromReachBelow | example_problems/tutorial/RO_robot/services/robot_lib.py:516-536 | a corrected entry never exceeds the entry the code stores |
| RobotOptReach.CutOffTable | example_problems/tutorial/RO_robot/services/robot_lib.py:516-536 | on [[0, 9], [0, -1], [0, 0]] without diagonal moves, the code's table is [[9, 9], [0, 0], [0, 0]] |
| RobotOptReach.CutOffReach | example_problems/tutorial/RO_robot/services/robot_lib.py:516-536 | on the same grid, the corrected table holds nothing at (0, 1) and 0 at the origin |
| RobotOptReach.OptFromCountsUnreached | example_problems/tutorial/RO_robot/services/robot_lib.py:516-536 | on that grid the code stores 9 at the origin, every walkable path to the corner weighs less, and the corrected entry is 0 |
| RobotOptReach.AllOptPathsEmpty | example_problems/tutorial/RO_robot/services/robot_lib.py:674-718 | over that grid's table as the code fills it, the search of `build_all_opt_path` from the origin finds no path |
| RobotNumOpt.MaxValue | example_problems/tutorial/RO_robot/services/robot_lib.py:580 | `max(neighbors, key=value).value` is at least every neighbour's value and equals one of them |
| RobotNumOpt.CountAt | example_problems/tutorial/RO_robot/services/robot_lib.py:581-582 | the summed count of the neighbours holding a value lies between 0 and the total count, and is 0 when none holds it |
| RobotNumOpt.CountAtMaxPositive | example_problems/tutorial/RO_robot/services/robot_lib.py:580-582 | a neighbour with a positive count makes the count kept for its own value positive |
| RobotNumOpt.Merge | example_problems/tutorial/RO_robot/services/robot_lib.py:579-583 | an interior step's count lies between 0 and the neighbours' total, and its value is at least the weight plus every neighbour's value |
| RobotNumOpt.MergeSmall | example_problems/tutorial/RO_robot/services/robot_lib.py:579-593 | over two or three neighbours, the step is the written-out comparison the fill methods make |
| RobotNumOpt.SumCountsSmall | example_problems/tutorial/RO_robot/services/robot_lib.py:581-582 | the total count of two or three neighbours |
| RobotNumOpt.MaxValueSmall | example_problems/tutorial/RO_robot/services/robot_lib.py:580 | the best value of two or three neighbours |
| RobotNumOpt.NumOptTo | example_problems/tutorial/RO_robot/services/robot_lib.py:563-593 | the counts `dptable_num_opt_to` stores are never negative |
| RobotNumOpt.NumOptFrom | example_problems/tutorial/RO_robot/services/robot_lib.py:614-644 | the counts `dptable_num_opt_from` stores are never negative |
| RobotNumOpt.AsTupleMatrix | example_problems/tutorial/RO_robot/services/robot_lib.py:649-650 | each cell becomes its (count, value) pair, row by row, with the table's shape |
| RobotNumOpt.AsTupleMatrixInjective | example_problems/tutorial/RO_robot/services/robot_lib.py:649-650 | the conversion loses nothing: equal results come from equal tables |
| RobotNumOpt.DptableNumOptTo | example_problems/tutorial/RO_robot/services/robot_lib.py:547-595 | a table of the grid's shape whose every entry is the pair of `NumOptTo` |
| RobotNumOpt.FillNumOptToFirstRow | example_problems/tutorial/RO_robot/services/robot_lib.py:565-568 | the first row holds `NumOptTo`; every other entry is unchanged |
| RobotNumOpt.FillNumOptToFirstCol | example_problems/tutorial/RO_robot/services/robot_lib.py:570-573 | the first column holds `NumOptTo`; every other entry is unchanged |
| RobotNumOpt.FillNumOptToInteriorDiag | example_problems/tutorial/RO_robot/services/robot_lib.py:575-583 | with diagonal moves, the whole table then holds `NumOptTo` |
| RobotNumOpt.FillNumOptToCellDiag | example_problems/tutorial/RO_robot/services/robot_lib.py:578-583 | one cell of that sweep: (i, j) gets `NumOptTo`, nothing else changes |
| RobotNumOpt.FillNumOptToInteriorOrth | example_problems/tutorial/RO_robot/services/robot_lib.py:585-593 | without diagonal moves, the whole table then holds `NumOptTo` |
| RobotNumOpt.FillNumOptToCellOrth | example_problems/tutorial/RO_robot/services/robot_lib.py:588-593 | one cell of that sweep: (i, j) gets `NumOptTo`, nothing else changes |
| RobotNumOpt.DptableNumOptFrom | example_problems/tutorial/RO_robot/services/robot_lib.py:598-646 | a table of the grid's shape whose every entry is the pair of `NumOptFrom` |
| RobotNumOpt.FillNumOptFromLastRow | example_problems/tutorial/RO_robot/services/robot_lib.py:616-619 | the last row, from the end, holds `NumOptFrom`; every other entry is unchanged |
| RobotNumOpt.FillNumOptFromLastCol | example_problems/tutorial/RO_robot/services/robot_lib.py:621-624 | the last column, from the end, holds `NumOptFrom`; every other entry is unchanged |
| RobotNumOpt.FillNumOptFromInteriorDiag | example_problems/tutorial/RO_robot/services/robot_lib.py:626-634 | with diagonal moves, the whole table then holds `NumOptFrom` |
| RobotNumOpt.FillNumOptFromCellDiag | example_problems/tutorial/RO_robot/services/robot_lib.py:629-634 | one cell of that sweep: (i, j) gets `NumOptFrom`, nothing else changes |
| RobotNumOpt.FillNumOptFromInteriorOrth | example_problems/tutorial/RO_robot/services/robot_lib.py:636-644 | without diagonal moves, the whole table then holds `NumOptFrom` |
| RobotNumOpt.FillNumOptFromCellOrth | example_problems/tutorial/RO_robot/services/robot_lib.py:639-644 | one cell of that sweep: (i, j) gets `NumOptFrom`, nothing else changes |
| RobotNumOpt.NumOptFromValue | example_problems/tutorial/RO_robot/services/robot_lib.py:598-646 | the values `dptable_num_opt_from` stores are exactly the entries of `dptable_opt_from` |
| RobotNumOpt.NumOptToAtMost | example_problems/tutorial/RO_robot/services/robot_lib.py:547-595 | with a walkable origin, no cell counts more paths than `dptable_num_to` does |
| RobotNumOpt.NumOptFromAtMost | example_problems/tutorial/RO_robot/services/robot_lib.py:598-646 | no cell counts more paths than `dptable_num_from` does |
| RobotNumOpt.NumOptToStep | example_problems/tutorial/RO_robot/services/robot_lib.py:578-593 | a move into a walkable cell: its value is at least its weight plus the value it came from |
| RobotNumOpt.NumOptToBoundsPaths | example_problems/tutorial/RO_robot/services/robot_lib.py:547-595 | no walkable feasible path from the origin weighs more than the value stored at its last cell |
| RobotNumOpt.Reached | example_problems/tutorial/RO_robot/services/robot_lib.py:581-582 | keeps only neighbours with a positive count |
| RobotNumOpt.ReachedFacts | example_problems/tutorial/RO_robot/services/robot_lib.py:581-582 | it keeps exactly the neighbours with a positive count, so it keeps their total count |
| RobotNumOpt.NumOptToReach | example_problems/tutorial/RO_robot/services/robot_lib.py:575-593 | the corrected table's counts are never negative |
| RobotNumOpt.ReachMerge | example_problems/tutorial/RO_robot/services/robot_lib.py:579-583 | the corrected step's count is never negative |
| RobotNumOpt.ReachPreds | example_problems/tutorial/RO_robot/services/robot_lib.py:579-589 | the corrected cell is the corrected step over the in-range predecessors |
| RobotNumOpt.ReachMergePositive | example_problems/tutorial/RO_robot/services/robot_lib.py:579-583 | if some neighbour is reached, the corrected step counts at least one path |
| RobotNumOpt.ReachPredsSum | example_problems/tutorial/RO_robot/services/robot_lib.py:579-589 | the predecessor list's total count is that of left, up and up-left |
| RobotNumOpt.ReachCountAtMostStep | example_problems/tutorial/RO_robot/services/robot_lib.py:579-589 | the corrected count is at most the predecessors' counts together |
| RobotNumOpt.ReachAtMost | example_problems/tutorial/RO_robot/services/robot_lib.py:547-595 | with a walkable origin, the corrected table never counts more paths than `dptable_num_to` |
| RobotNumOpt.ReachAtMostStep | example_problems/tutorial/RO_robot/services/robot_lib.py:579-589 | the inductive step of that bound |
| RobotNumOpt.ReachStep | example_problems/tutorial/RO_robot/services/robot_lib.py:579-589 | a move from a reached cell into a walkable one reaches it, with value at least its weight plus the source's value |
| RobotNumOpt.PredecessorListed | example_problems/tutorial/RO_robot/services/robot_lib.py:579-589 | the cell a move comes from is among the predecessors of the cell it enters |
| RobotNumOpt.ReachMergeStep | example_problems/tutorial/RO_robot/services/robot_lib.py:579-583 | a reached neighbour makes the step count a path worth at least the weight plus that neighbour's value |
| RobotNumOpt.ReachPositive | example_problems/tutorial/RO_robot/services/robot_lib.py:547-595 | with a walkable origin, every cell `dptable_num_to` reaches has a positive corrected count |
| RobotNumOpt.ReachCountPositive | example_problems/tutorial/RO_robot/services/robot_lib.py:547-595 | with a walkable origin, the corrected count is positive exactly when `dptable_num_to`'s count is |
| RobotNumOpt.ReachBoundsPaths | example_problems/tutorial/RO_robot/services/robot_lib.py:547-595 | no walkable feasible path from the origin weighs more than the corrected value at its last cell |
| RobotNumOpt.NumOptToMissesPath | example_problems/tutorial/RO_robot/services/robot_lib.py:586-593 | on [[0, -1, 9], [0, 0, 0]], the table as written stores (0, 9) at the corner reached by one path of weight 0; the corrected one stores (1, 0) |
| RobotNumOptPaths.CountWeightJoin | example_problems/tutorial/RO_robot/services/robot_lib.py:578-593 | the paths of a given weight in two joined lists number those of each list together |
| RobotNumOptPaths.CountWeightAppend | example_problems/tutorial/RO_robot/services/robot_lib.py:583 | extending every path of a list by a cell turns the paths of weight t minus the cell's weight into exactly the extended paths of weight t |
| RobotNumOptPaths.UnreachedNoPaths | example_problems/tutorial/RO_robot/services/robot_lib.py:575-593 | with a walkable origin, a cell whose corrected count is 0 has no walkable path from the origin |
| RobotNumOptPaths.AboveBest | example_problems/tutorial/RO_robot/services/robot_lib.py:575-593 | no walkable path from the origin weighs more than the corrected value at its last cell, so none weighs any larger amount |
| RobotNumOptPaths.ViaShare | example_problems/tutorial/RO_robot/services/robot_lib.py:578-593 | the paths through one predecessor that reach the cell at its weight plus the best value number that predecessor's count when its value is the best, and none otherwise |
| RobotNumOptPaths.ReachShares | example_problems/tutorial/RO_robot/services/robot_lib.py:579-583 | a walkable cell other than the origin counts the summed counts of its reached predecessors holding the best value before it, and its value is its weight plus that best value |
| RobotNumOptPaths.ViaSharesSquare | example_problems/tutorial/RO_robot/services/robot_lib.py:585-593 | without diagonal moves, the paths to a cell of its weight plus the best value number the counts of the left and upper neighbours holding that value |
| RobotNumOptPaths.ViaSharesDiagonal | example_problems/tutorial/RO_robot/services/robot_lib.py:575-583 | with diagonal moves, the same with the upper-left neighbour added |
| RobotNumOptPaths.ReachCountsBest | example_problems/tutorial/RO_robot/services/robot_lib.py:543-544 | with a walkable origin, every cell's corrected count is the number of walkable paths from the origin weighing its corrected value |
| RobotNumOptPaths.NumOptToReachCountsBestPaths | example_problems/tutorial/RO_robot/services/robot_lib.py:543-544 | with a walkable origin, the listed paths to (m, n) are exactly the walkable ones, each once; none weighs more than the corrected value; and the corrected count is the number of them that weigh it |
| RobotNumOptPaths.NumOptToReachAttained | example_problems/tutorial/RO_robot/services/robot_lib.py:543-544 | with a walkable origin, a cell with a positive corrected count is reached by a walkable path whose weight is the corrected value |
| RobotPaths.OptPathCollector.constructor | example_problems/tutorial/RO_robot/services/robot_lib.py:674-680 | the shared state: grid, table of the same shape, empty list of paths |
| RobotPaths.OptPathCollector.BuildExcludeDiag | example_problems/tutorial/RO_robot/services/robot_lib.py:682-694 | appends exactly the completions of the path, found down first and then right |
| RobotPaths.OptPathCollector.BuildIncludeDiag | example_problems/tutorial/RO_robot/services/robot_lib.py:696-713 | appends exactly the completions of the path, found down, then right, then down-right |
| RobotPaths.BuildAllOptPath | example_problems/tutorial/RO_robot/services/robot_lib.py:674-718 | returns the completions of the one-cell path at the origin, in depth-first order |
| RobotPaths.Extensions | example_problems/tutorial/RO_robot/services/robot_lib.py:682-713 | every path the search collects from a partial path is at least as long as it and ends at the bottom-right corner |
| RobotPaths.Branch | example_problems/tutorial/RO_robot/services/robot_lib.py:686-710 | every path found through one neighbour is longer than the partial path and ends at the bottom-right corner |
| RobotGrid.FeasibleExtend | example_problems/tutorial/RO_robot/services/robot_lib.py:184-197 | a feasible path extended by one move is feasible |
| RobotPaths.BranchSound | example_problems/tutorial/RO_robot/services/robot_lib.py:686-710 | a path found through one neighbour extends the path through that neighbour, ends at the corner and follows the table |
| RobotPaths.ExtensionsSound | example_problems/tutorial/RO_robot/services/robot_lib.py:682-713 | every listed path extends the partial path, ends at the bottom-right corner, stays feasible and on the grid, and every added step keeps dptable[next] == dptable[cur] - f[cur] |
| RobotPaths.ExtensionsComplete | example_problems/tutorial/RO_robot/services/robot_lib.py:682-713 | every feasible extension that ends at the corner and keeps the value equation is listed |
| RobotPaths.AllOptPaths | example_problems/tutorial/RO_robot/services/robot_lib.py:674-718 | a path is returned exactly when it is feasible from (0, 0) to the corner and keeps the value equation; it lies on the grid and has between max(R, C) and R+C-1 cells, exactly R+C-1 without diagonal moves |
| RobotPaths.StepsTelescope | example_problems/tutorial/RO_robot/services/robot_lib.py:682-713 | along a path that keeps the value equation, its weight is the table at the first cell less the table at the last cell, plus the last cell's weight |
| RobotPaths.OptPathsAreOptimal | example_problems/tutorial/RO_robot/services/robot_lib.py:674-718 | over the `dptable_opt_from` table, every returned path weighs the table's origin entry, and no walkable corner-to-corner path weighs more |
| RobotPaths.BuildOptPath | example_problems/tutorial/RO_robot/services/robot_lib.py:653-671 | the stub returns the empty path |
| RobotPaths.ConcealCells | example_problems/tutorial/RO_robot/services/robot_lib.py:726-728 | every listed cell becomes -1 and every other cell keeps its value |
| RobotPaths.Conceal | example_problems/tutorial/RO_robot/services/robot_lib.py:721-728 | with the empty cell list, the table is left as it was |
| TileCounts.Fib | example_problems/tutorial/piastrelle/bots/piastrelle_DP.py:5-9 | every covering count is at least 1 |
| TileCounts.FibStep | example_problems/tutorial/piastrelle/bots/piastrelle_DP.py:5-9 | the covering counts never decrease |
| TileCounts.BuildNumWffs | example_problems/tutorial/piastrelle/bots/piastrelle_DP.py:3-9 | the filled `num_wffs` table has 1001 entries, the n-th being the number of coverings of n units |
| TileCounts.FillNumWffs | example_problems/tutorial/piastrelle/bots/piastrelle_DP.py:5-9 | the double loop yields a table starting 1, 1 whose every later entry is the sum of the two before it |
| TileCounts.FibTableIsFib | example_problems/tutorial/piastrelle/bots/piastrelle_DP.py:5-9 | such a table lists the covering counts |
| TileCounts.NumSol | example_problems/tutorial/piastrelle/bots/piastrelle_DP.py:11-13 | over the filled table, num_sol(n) is the number of coverings of n units; a negative n reads from the end of the table, as a Python index does |
| TileCounts.NumSolRecurrence | example_problems/tutorial/piastrelle/bots/piastrelle_DP.py:11-13 | num_sol(0) == num_sol(1) == 1, num_sol(n) == num_sol(n-1) + num_sol(n-2) for 2 <= n <= 1000, and a negative n reads from the end of the table |
| Piastrelle.CriterionNamed | example_problems/tutorial/piastrelle/bots/piastrelle_DP.py:29-32 | only the names "loves_short_tiles" and "loves_long_tiles" stand for the two orders |
| Piastrelle.UnitsBounds | example_problems/tutorial/piastrelle/bots/piastrelle_DP.py:15-51 | a covering of k tiles spans between k and 2k units |
| Piastrelle.RenderLength | example_problems/tutorial/piastrelle/bots/piastrelle_DP.py:15-51 | a covering's string has two characters per unit |
| Piastrelle.Parse | example_problems/tutorial/piastrelle/bots/piastrelle_DP.py:15-51 | a string read as a covering renders back to itself |
| Piastrelle.ParseRender | example_problems/tutorial/piastrelle/bots/piastrelle_DP.py:15-51 | reading back a rendered covering gives the covering |
| Piastrelle.ABound | example_problems/tutorial/piastrelle/bots/piastrelle_DP.py:15-32 | fewer coverings come before a covering than there are coverings of its strip |
| Piastrelle.ConsShort | example_problems/tutorial/piastrelle/bots/piastrelle_DP.py:21-24 | a leading short tile spans one unit, writes "[]" and adds no coverings before |
| Piastrelle.ConsLong | example_problems/tutorial/piastrelle/bots/piastrelle_DP.py:25-28 | a leading long tile spans two units, writes "[--]" and is preceded by every covering that starts with a short tile instead |
| Piastrelle.ScanStep | example_problems/tutorial/piastrelle/bots/piastrelle_DP.py:21-28 | at the start of a tile, the character after the bracket tells the tile's kind, and the scan ends exactly when the tiles do |
| Piastrelle.Rank | example_problems/tutorial/piastrelle/bots/piastrelle_DP.py:15-32 | the loop returns the scanned rank `ScanRank` of any string |
| Piastrelle.ScanRank | example_problems/tutorial/piastrelle/bots/piastrelle_DP.py:15-32 | a position exactly when the strip has fewer than two units or the criterion is one of the two orders; 1 below two units; at least 1 short tiles first |
| Piastrelle.ScanA | example_problems/tutorial/piastrelle/bots/piastrelle_DP.py:19-28 | over the filled table, the count the scan adds up is never negative |
| Piastrelle.ScanRankOfCovering | example_problems/tutorial/piastrelle/bots/piastrelle_DP.py:15-32 | on the string of a covering, `rank` gives the covering's position under the criterion |
| Piastrelle.ScanRender | example_problems/tutorial/piastrelle/bots/piastrelle_DP.py:19-28 | on a covering's string, the scan adds up exactly the coverings that come before it |
| Piastrelle.PositionOf | example_problems/tutorial/piastrelle/bots/piastrelle_DP.py:29-32 | the final `if` chain of `rank`: a position exactly below two units or under one of the two orders (Python's `None` otherwise); read from the filled covering-count table, the position is the rank `RankFrom` defines (1, a + 1, or num_sol(n) - a) |
| Piastrelle.ScanWhole | example_problems/tutorial/piastrelle/bots/piastrelle_DP.py:16-28 | the scan of a whole covering's string spans its units and adds up the coverings before it |
| Piastrelle.RenderAppend | example_problems/tutorial/piastrelle/bots/piastrelle_DP.py:41-50 | the string of two coverings laid end to end is the two strings joined |
| Piastrelle.RenderSnoc | example_problems/tutorial/piastrelle/bots/piastrelle_DP.py:41-50 | adding a tile at the end adds its string at the end |
| Piastrelle.UnrankTail | example_problems/tutorial/piastrelle/bots/piastrelle_DP.py:49-50 | below two units the loop leaves "[]" for an odd count and nothing otherwise |
| Piastrelle.SnocAssoc | example_problems/tutorial/piastrelle/bots/piastrelle_DP.py:41-48 | moving one tile from the rest to the end of what is built keeps the whole |
| Piastrelle.Unrank | example_problems/tutorial/piastrelle/bots/piastrelle_DP.py:34-51 | returns "0" for no tiles and otherwise the string of the covering at the position, whatever the criterion |
| Piastrelle.NextWff | example_problems/tutorial/piastrelle/bots/piastrelle_DP.py:53-56 | for any string, the unranked string at `rank` plus one, or no result where `rank` gives none; for a covering, that rank is its position under the criterion |
| Piastrelle.UnrankT | example_problems/tutorial/piastrelle/bots/piastrelle_DP.py:41-50 | the covering built for n units spans exactly n units |
| Piastrelle.UnrankString | example_problems/tutorial/piastrelle/bots/piastrelle_DP.py:34-51 | "0" for no tiles; otherwise a string of 2n characters that reads back as the covering `UnrankT` builds |
| Piastrelle.UnrankRank | example_problems/tutorial/piastrelle/bots/piastrelle_DP.py:34-51 | the covering unranked at position p has exactly p-1 coverings before it |
| Piastrelle.LeftoverOffset | example_problems/tutorial/piastrelle/bots/piastrelle_DP.py:49-50 | what is left below two units has no coverings before it |
| Piastrelle.ShortOffset | example_problems/tutorial/piastrelle/bots/piastrelle_DP.py:42-44 | a short tile in front keeps the offset of the rest |
| Piastrelle.LongOffset | example_problems/tutorial/piastrelle/bots/piastrelle_DP.py:45-48 | a long tile in front adds the coverings that start with a short tile |
| Piastrelle.RankUnrank | example_problems/tutorial/piastrelle/bots/piastrelle_DP.py:15-51 | unranking a covering's short-first position gives the covering back |
| Piastrelle.UnrankShortStep | example_problems/tutorial/piastrelle/bots/piastrelle_DP.py:42-44 | a position within the short-first block unranks to a short tile in front of the rest |
| Piastrelle.UnrankLongStep | example_problems/tutorial/piastrelle/bots/piastrelle_DP.py:45-48 | a position past that block unranks to a long tile in front of the rest |
| Piastrelle.RankBounds | example_problems/tutorial/piastrelle/bots/piastrelle_DP.py:15-32 | both orders give ranks from 1 to num_sol(n), and the two ranks add up to num_sol(n) + 1; any other criterion has a rank only below two units |
| Piastrelle.UnrankAtRank | example_problems/tutorial/piastrelle/bots/piastrelle_DP.py:34-51 | the string built at a covering's short-first position is the covering's string |
| Piastrelle.RoundTripShort | example_problems/tutorial/piastrelle/bots/piastrelle_DP.py:15-51 | for a covering of at least one unit, unrank(n, rank(w, short first)) == w |
| Piastrelle.UnrankedCovering | example_problems/tutorial/piastrelle/bots/piastrelle_DP.py:34-51 | the string unranked at any position 1..num_sol(n) is a covering of n units with p-1 coverings before it |
| Piastrelle.NextIsSuccessorShort | example_problems/tutorial/piastrelle/bots/piastrelle_DP.py:53-56 | short tiles first, `next_wff` of a covering that is not the last gives the covering of the same strip ranked one higher |
| Piastrelle.SuccessorShortAt | example_problems/tutorial/piastrelle/bots/piastrelle_DP.py:53-56 | short tiles first, the position after r names a covering of the same strip ranked r + 1 |
| Piastrelle.UnrankIgnoresCriterion | example_problems/tutorial/piastrelle/bots/piastrelle_DP.py:34-51 | "[][]" ranks 2 long tiles first, yet unrank(2, 2) returns "[--]" |
| Piastrelle.UnrankByCriterion | example_problems/tutorial/piastrelle/bots/piastrelle_DP.py:34-51 | unrank that counts long-first positions from the other end |
| Piastrelle.NextByCriterion | example_problems/tutorial/piastrelle/bots/piastrelle_DP.py:53-56 | for any string, the corrected unrank of `rank` plus one, or no result where `rank` gives none; for a covering, its position under the criterion plus one |
| Piastrelle.RoundTripByCriterion | example_problems/tutorial/piastrelle/bots/piastrelle_DP.py:15-51 | under either order, a covering of at least one unit, ranked and unranked with the correction, comes back as the same string |
| Piastrelle.NextIsSuccessor | example_problems/tutorial/piastrelle/bots/piastrelle_DP.py:53-56 | under either order, the corrected `next_wff` of a covering that is not the last gives the covering ranked one higher |

## Left out

- Input and output are not modelled: the tile bots and their `argv` dispatch (`piastrelle_DP.py:59-93`), and the debug `print` calls and logging in the robot library.
- `solver`, `check_instance_consistency` and `verify_submission_problem_specific` are not modelled. They are service glue over printing, `exit` and modules that are not part of this model, and `solver` calls the builders with arguments they do not accept.
- `walkable` and `check_budget_bounds` are predicates, `RobotGrid.Walkable` and `RobotGrid.CheckBudgetBounds`. They have no contract of their own; they are used in the contracts above.
- The grids in the model are rectangular. Every builder starts with `check_matrix_shape`, which the model states as a precondition.
- Python's dynamic types are not modelled. Cells are integer pairs, labels are strings, and a value the code cannot process raises, which the model shows as a `Failure` or `None`.
- CellLabels.ParseCell: the column letter is lower-cased by `CellLabels.Lower`, which maps only the ASCII capitals. Python's `str.lower` also lowers other letters, so the label ['3', 'É'] gives column 136 in Python and 104 here.
- CellLabels.Lower: ASCII only, for the same reason; no Unicode case table is modelled.
- `CellLabels.ParseInt` only accepts an optional sign followed by decimal digits. Python's `int` also accepts surrounding blanks and underscores between digits.
- The sorting criterion is a datatype with a third case standing for any other string. `rank` then falls off its `if` chain and returns Python's `None`, which the model gives as `None`.
- Piastrelle.NextWff: where `rank` returns `None`, the source raises a `TypeError` on `None + 1`. The model returns `None` instead.
- Piastrelle.Rank, Piastrelle.ScanRank, Piastrelle.NextWff, Piastrelle.Unrank, Piastrelle.UnrankByCriterion: require a strip of at most 1001 units (1000 for long tiles first, for `next_wff` and for `UnrankByCriterion`), the reach of `num_wffs`. The source fails only when it calls `num_sol` past that reach, so a string of more than 1001 short tiles still ranks 1 under `loves_short_tiles` in Python; the model does not cover such strings. `unrank` of more than 1001 tiles fails at the assertion in `num_sol` on its first step; the model leaves that failure out instead of returning an error.
- The table `num_wffs` is a module-level global. Here it is a parameter, whose contents `TileCounts.BuildNumWffs` proves.
- RobotOpt.OptTo: the code takes the best of 0 and each source entry plus the cell's value; the function takes the cell's value plus the best source entry. They agree because entries and values are never negative. `RobotOpt.FillOptCell` performs the code's comparisons and is proved against this form.
- RobotOpt.OptToBoundsPaths: an upper bound only, because no path need attain the entry the code stores: on [[0, -1, 3], [0, 0, 0]] the entry at (1, 2) for spend 0 is 3, while every path within that spend collects 0 (`RobotOptReach.OptToCountsUnreached`). `RobotOptReach.OptToReachAttained` proves attainment for the corrected table.
- RobotOpt.OptFromBoundsPaths: an upper bound only, for the same reason: on [[0, 9], [0, -1], [0, 0]] the entry at the origin is 9, while the only walkable path to the corner weighs 0 (`RobotOptReach.OptFromCountsUnreached`). `RobotOptReach.OptFromReachAttained` proves attainment for the corrected table.
- RobotNumOpt.NumOptToBoundsPaths: an upper bound only, because the value the code stores need not be attained (`RobotNumOpt.NumOptToMissesPath`); `RobotNumOpt.ReachBoundsPaths` bounds the corrected table, and `RobotNumOptPaths.NumOptToReachAttained` and `RobotNumOptPaths.NumOptToReachCountsBestPaths` prove that its value is attained and its count is the number of paths of that weight.
- RobotNumOpt.NumOptFromAtMost: the count is bounded by `dptable_num_from` but not proved equal to the number of best paths. `dptable_num_opt_from` has the mirror image of the unreached-neighbour issue reported below, and it is not corrected here.
- RobotPaths.AllOptPaths: characterises the returned paths by the value equation alone. As in the code, nothing stops a listed path from crossing a blocked cell; only `RobotPaths.OptPathsAreOptimal` assumes walkable paths. Over a table that `dptable_opt_from` fills as written, the list can be empty (`RobotOptReach.AllOptPathsEmpty`).

## Findings

| source | as written | input that shows it | evidently intended | confidence | as-written member | corrected member |
|---|---|---|---|---|---|---|
| example_problems/tutorial/RO_robot/services/robot_lib.py:290-303 | the last-column and last-row sweeps charge the cost of the cell a move leaves, while the interior sweep charges the cell it enters | grid [[0], [-2]]: the only path into (1, 0) is counted in layer 0, though the cell it enters costs 2 | every move charged the cell it enters, as in the interior sweep | not executed | RobotBudgetCount.BorderChargeCounterexample | RobotBudgetCount.EnteredLayers (with RobotBudgetCount.EnteredLayersCoverCost and RobotBudgetCount.EnteredLayersInterior) |
| example_problems/tutorial/RO_robot/services/robot_lib.py:586-593 | a neighbour that no path reaches, holding (0, 0) or the value of an unreachable chain, still competes for the best value | grid [[0, -1, 9], [0, 0, 0]] without diagonal moves: the corner stores (0, 9), though one path of weight 0 reaches it | only reached neighbours compete, and a cell none of them reaches holds (0, 0) | not executed | RobotNumOpt.NumOptToMissesPath | RobotNumOpt.NumOptToReach (with RobotNumOptPaths.NumOptToReachCountsBestPaths and RobotNumOptPaths.NumOptToReachAttained) |
| example_problems/tutorial/RO_robot/services/robot_lib.py:471-493 | a spend slot that no path reaches still holds 0, or a value passed on from an unreachable one, and competes in the `max` of the cells after it | grid [[0, -1, 3], [0, 0, 0]] without diagonal moves: (1, 2) at spend 0 holds 3, passed on through the blocked (0, 1) that spend 0 cannot enter, though every path within that spend collects 0 | as the docstring says, each entry is the best value of a path ending at the cell within the spend, so unreached slots do not compete | not executed | RobotOptReach.OptToCountsUnreached | RobotOptReach.OptToReach (with RobotOptReach.OptToReachBoundsPaths and RobotOptReach.OptToReachAttained) |
| example_problems/tutorial/RO_robot/services/robot_lib.py:516-536 | a walkable cell whose only successors are cut off from the corner still takes the best of their entries | grid [[0, 9], [0, -1], [0, 0]] without diagonal moves: the origin holds 9, taken from (0, 1), whose only way on is blocked; the only walkable path to the corner weighs 0, and `build_all_opt_path` over this table finds no path | as the docstring says, each entry is the best weight of a path from the cell to the corner, so cut-off successors do not compete | not executed | RobotOptReach.OptFromCountsUnreached (with RobotOptReach.AllOptPathsEmpty) | RobotOptReach.OptFromReach (with RobotOptReach.OptFromReachBoundsPaths and RobotOptReach.OptFromReachAttained) |
| example_problems/tutorial/piastrelle/bots/piastrelle_DP.py:34-51 | `unrank` never reads its criterion, so it always counts positions short tiles first | "[][]" ranks 2 with `loves_long_tiles`, and unrank(2, 2, `loves_long_tiles`) returns "[--]" | under `loves_long_tiles`, unrank counts positions from the other end, so that it undoes `rank` | not executed | Piastrelle.UnrankIgnoresCriterion | Piastrelle.UnrankByCriterion (with Piastrelle.RoundTripByCriterion and Piastrelle.NextIsSuccessor) |
