# Grid A* with turn restrictions, modelled in Dafny

This project models the grid path finder in `A_Star_Final.py`. The finder runs a best-first search over a 0/1 occupancy grid. Its first move may go in any of the four directions. After that, each move must either go straight on or turn clockwise, as a fixed turn table says. Once the goal is taken from the open list, the finder walks the parent links back to the start. It collects the cells and a Finnish label for each step. Then it thins the cell list with a one-pass simplifier.

Modules (one file each):

- `Wrappers` (`wrappers.dfy`): `Option`.
- `Grid` (`grid.dfy`): cells as `Pos(r, c)`, the maze, the bounds and walkability tests, and the squared-distance heuristic.
- `Directions` (`directions.dfy`): the four unit steps and their labels "YLÖS", "OIKEA", "ALAS" and "VASEN", with "TUNNISTAMATON" for anything else. It also holds the turn table and the walk predicates `UnitSteps` and `TurnsAllowed`.
- `Simplifier` (`simplifier.dfy`): `Simplify` is the specification and `SimplifyPath` is the loop as written.
- `Nodes` (`nodes.dfy`): search nodes kept in an arena, a `seq<Node>` where each parent is an index smaller than the node's own. Also the moves an expansion tries, and the arena invariant.
- `Reconstruction` (`reconstruction.dfy`): the walk back along parent links (`Reconstruct`) and the route it yields (`Route`).
- `AStarSearch` (`astar.dfy`): one move of an expansion (`TryMove`) and the whole expansion (`Fold` and `Expand`). Also the first-minimum selection, removal by position, and the main loop. `Rounds` is a fuel-indexed function that specifies the loop round by round. `RunRounds` is the loop itself, and it records the states it passes through as a ghost trace. `AStar` runs it and states the outcome in terms of `Rounds`.

The search keeps its lists, set and dictionary as local values. The open list is a `seq<nat>` of arena indices. The closed set is a `set<Pos>` and the g map is a `map<Pos, int>`. Methods return the updated values.

The source's own behaviour is kept as written, even where it departs from the usual reading of A*:

- The closed-set test (`A_Star_Final.py:99`) reads the g of a newly constructed node, which is still 0. So it rejects a closed cell only when that cell's recorded g is at most 0, and that happens only for the start cell (`ClosedRejectsOnlyStart`). Every other closed cell can be pushed again (`ClosedCellReopened`). Termination is therefore not guaranteed. `AStar` takes a `fuel` bound on its rounds and reports `OutOfFuel` when the bound runs out.
- Selection takes the first open entry of least f (`SelectMin`). Removal deletes the first open entry at the same cell (`RemoveFirstSame`), which need not be the selected node.
- The start node carries g = h = f = 0.
- `simplify_path` compares each cell with the last kept cell, not with the previous input cell. Straight runs are thinned rather than collapsed (`FourInLine`, `NoTwoDropsInRow`). A one-cell path comes out doubled (`SimplifySingleton`), so a search with start = goal returns `([start, start], [])`. The pass is not idempotent (`NotIdempotent`).

## Model

| member | source | states |
|---|---|---|
| `Grid.Heuristic` | A_Star_Final.py:43-45 | the squared Euclidean distance is never negative and is 0 exactly when the two cells are equal |
| `Grid.HeuristicSymmetric` | A_Star_Final.py:43-45 | the heuristic does not depend on argument order |
| `Directions.DirectionName` | A_Star_Final.py:33 | the label is the fallback "TUNNISTAMATON" exactly when the step is not one of the four unit steps |
| `Directions.NamesDistinct` | A_Star_Final.py:33 | different directions get different labels |
| `Directions.AllowedAfter` | A_Star_Final.py:36-41 | the turn table has an entry exactly for the four directions; each entry is [itself, its clockwise neighbour] and never holds the reverse step |
| `Directions.ClockwiseCycle` | A_Star_Final.py:32-41 | the table's clockwise turn maps directions to directions, never to the same or the opposite one, and four turns return to the start |
| `Directions.AllowedAreDirections` | A_Star_Final.py:82-86 | whatever an expansion tries, table hit or default, is a unit step: 2 moves after a known step, 4 otherwise |
| `Nodes.SamePositionIgnoresCosts` | A_Star_Final.py:23-25 | node equality compares cells only: it is symmetric and unaffected by parent, g, h or f |
| `Nodes.MovesFor` | A_Star_Final.py:81-86 | a parentless node tries all four moves; a node reached by a unit step tries exactly [step, clockwise(step)]; every move tried is a unit step |
| `Simplifier.KeptIndices` | A_Star_Final.py:124-131 | the interior indices the pass keeps lie strictly between the first and the last index, at most one per interior cell |
| `Simplifier.KeptIndicesIncreasing` | A_Star_Final.py:124-131 | kept indices come out in increasing input order |
| `Simplifier.Simplify` | A_Star_Final.py:118-134 | empty input gives empty output; otherwise the output has at least two cells, starts with path[0], ends with path[-1], and is no longer than an input of two or more cells |
| `Simplifier.SimplifyPath` | A_Star_Final.py:118-134 | the appending loop computes exactly `Simplify` |
| `Simplifier.KeptRule` | A_Star_Final.py:124-131 | interior cell i is kept exactly when (path[i] minus the last kept cell) differs from (path[i+1] minus path[i]) |
| `Simplifier.SimplifyIsSubsequence` | A_Star_Final.py:123-133 | for inputs of length two or more the output is the input at strictly increasing indices, from the first index to the last |
| `Simplifier.SimplifySingleton` | A_Star_Final.py:120-133 | a one-cell path [p] becomes [p, p] |
| `Simplifier.LastKeptShape` | A_Star_Final.py:125-131 | the last kept cell before index i is path[i-1], or one step of the same size behind it when path[i-1] was dropped |
| `Simplifier.TurnKept` | A_Star_Final.py:124-131 | on a unit-step path every cell where the direction changes is kept |
| `Simplifier.NoTwoDropsInRow` | A_Star_Final.py:124-131 | on a unit-step path two consecutive interior cells are never both dropped, so straight runs are only thinned |
| `Simplifier.ThreeInLine` | A_Star_Final.py:118-134 | three equally spaced cells in a straight line keep only their ends |
| `Simplifier.FourInLine` | A_Star_Final.py:118-134 | four cells in a straight line keep the first, the third and the last |
| `Simplifier.FiveInLine` | A_Star_Final.py:118-134 | five cells in a straight unit-step line keep the first, the third and the last |
| `Simplifier.NotIdempotent` | A_Star_Final.py:118-134 | simplifying a five-cell straight line twice gives a shorter result than simplifying it once |
| `Reconstruction.Route` | A_Star_Final.py:71-79 | the route to a node is non-empty and ends at that node's cell |
| `Reconstruction.Reconstruct` | A_Star_Final.py:69-79 | walking parent links and reversing yields the route from the root to the node, with one label per step naming that step, in start-to-goal order |
| `Reconstruction.RouteStartsAtStart` | A_Star_Final.py:51-59 | every route in the search arena begins at the start cell |
| `Reconstruction.RouteIsLegalWalk` | A_Star_Final.py:81-114 | every route moves in unit steps; each step after the first obeys the turn table applied to the step before; every cell after the start is in bounds and walkable |
| `Reconstruction.LabelsRecognized` | A_Star_Final.py:73-77 | on a unit-step walk the labels number one fewer than the cells and never include "TUNNISTAMATON" |
| `AStarSearch.TryMove` | A_Star_Final.py:89-114 | one move of an expansion only appends to the node arena |
| `AStarSearch.Fold` | A_Star_Final.py:89-114 | a sequence of moves only appends to the node arena |
| `AStarSearch.AllowedMoves` | A_Star_Final.py:82-86 | the moves computed before the loop are exactly `MovesFor`: all four without a parent, the table entry for the incoming step otherwise |
| `AStarSearch.Expand` | A_Star_Final.py:81-114 | the expansion loop tries exactly the moves `MovesFor` gives, in order, each as `TryMove` |
| `AStarSearch.PushedNode` | A_Star_Final.py:90-114 | under the search invariant with the start closed, a move either changes nothing or appends exactly one node and its open entry; that node is a child of the expanded node one move away, in bounds, walkable, never the start cell, has g one more than its parent's (so at least 1) and f at least g, has its g recorded, and has strictly smaller f than every open node at its cell |
| `AStarSearch.DominatedNotPushed` | A_Star_Final.py:107-109 | a candidate is not pushed when an open node at the same cell has f no greater than its own; ties favour the existing entry |
| `AStarSearch.ClosedRejectsOnlyStart` | A_Star_Final.py:98-100 | once the start is closed, the closed-set test rejects a cell exactly when it is the start cell |
| `AStarSearch.ClosedCellReopened` | A_Star_Final.py:98-100 | a closed cell other than the start is pushed again whenever it is in bounds, walkable and not dominated |
| `AStarSearch.StartNeverRepushed` | A_Star_Final.py:98-100 | once the start is closed, no move pushes a node at the start cell |
| `AStarSearch.TryMoveKeepsInvariant` | A_Star_Final.py:89-114 | one move keeps the search invariant: a well-formed arena, valid open indices, recorded g of 0 for the start only |
| `AStarSearch.FoldKeepsInvariant` | A_Star_Final.py:89-114 | a whole expansion keeps the search invariant |
| `AStarSearch.ExpansionMoves` | A_Star_Final.py:81-86 | the start node's expansion tries all four moves; any other node's tries exactly [incoming step, its clockwise turn], never the reverse |
| `AStarSearch.FirstMin` | A_Star_Final.py:63 | the index picked is in range, its entry has f no greater than any open entry's, and every earlier entry has strictly greater f |
| `AStarSearch.FirstSame` | A_Star_Final.py:64 | the index picked is in range, its entry is at the target node's cell, and no earlier entry is |
| `AStarSearch.SelectMin` | A_Star_Final.py:63 | the scan returns exactly `FirstMin`, the first open entry of least f |
| `AStarSearch.RemoveFirstSame` | A_Star_Final.py:64 | the index found is exactly `FirstSame`, and the returned list is the open list with that one entry removed and the rest in order |
| `AStarSearch.TakeNext` | A_Star_Final.py:63-65 | the node taken is the one `Rounds` selects, and the open list and closed set afterwards are those of `Taken` |
| `AStarSearch.RemovalKeepsInvariant` | A_Star_Final.py:64 | removing any one open entry keeps the search invariant |
| `AStarSearch.BuildAnswer` | A_Star_Final.py:68-79 | at the goal, the raw route returned is exactly the parent chain `Route(nodes, cur)` of the goal node; it starts at start and ends at the goal. The route moves in unit steps, obeys the turn table and crosses only walkable cells. The returned path is its simplification, starting at start and ending at the goal. The labels name each step in order and never include the fallback label |
| `AStarSearch.RoundKeepsReachable` | A_Star_Final.py:61-114 | from any state the search can reach, both the removal half of a round and a whole round away from the goal lead to states the search can reach, with the arena untouched by the removal |
| `AStarSearch.Rounds` | A_Star_Final.py:61-116 | the rounds used never exceed the bound; `OutOfFuel` only with every round used and open entries left; `([], [])` only with the open list empty; a non-empty answer before the bound is spent, at an arena node on the goal cell, and that node's route is a legal walk from start to goal whose simplification and step labels are the answer |
| `AStarSearch.RoundsStartIsGoal` | A_Star_Final.py:51-79 | with start = goal and at least one round allowed, the first round answers ([start, start], []) |
| `AStarSearch.RoundsOnward` | A_Star_Final.py:61-114 | a round that does not take the goal leads to a reachable state, and the rounds from the old state are the rounds from the new one plus one |
| `AStarSearch.TraceRounds` | A_Star_Final.py:61-114 | along any trace of rounds away from the goal, the rounds from its first state equal the rounds from its last, with the trace's length added to the count |
| `AStarSearch.TraceFound` | A_Star_Final.py:61-79 | rounds along a trace that ends by taking a goal node answer with that node's simplified route and labels, having used the trace's length |
| `AStarSearch.TraceHalted` | A_Star_Final.py:61-116 | rounds along a trace that ends with an empty open list answer ([], []); with the fuel spent they answer `OutOfFuel`; either way at the trace's last state |
| `AStarSearch.RunReported` | A_Star_Final.py:47-116 | any answer that agrees with `Rounds` from the start state has the search's promised outcome: bounds on the rounds used, `OutOfFuel` and `([], [])` only in their cases, and a non-empty answer that satisfies everything `BuildAnswer` states; with start = goal, ([start, start], []) |
| `AStarSearch.RunRounds` | A_Star_Final.py:47-116 | the loop's ghost trace starts at the start state and chains rounds away from the goal. On a non-empty answer the last traced state's selected node is at the goal, and the answer is its simplified route and labels. Otherwise the loop stopped on an empty open list (`([], [])`) or with the fuel spent (`OutOfFuel`). The final state keeps the search invariant |
| `AStarSearch.AStar` | A_Star_Final.py:47-116 | the outcome, the rounds used, the final state and the goal index are exactly those of `Rounds` from the start state. Hence the search invariant holds at the end and the rounds used never exceed the bound. `OutOfFuel` comes back only when every allowed round was used and the open list is still non-empty; `([], [])` only when the open list is empty. A non-empty path comes back before the bound is spent: its raw route is the parent chain of an arena node at the goal, and it satisfies everything `BuildAnswer` states. With start = goal and at least one round allowed, the result is ([start, start], []) |

## Left out

- `visualize_maze_and_path` (drawing and animating the grid): a plotting library, floating-point arrow geometry and a UI, none of which affects the search.
- `main`: a hard-coded maze, a call to the search and console output. Running the search on that maze, or on any concrete grid, is not modelled either, because the search is a method and the model proves its contract for all inputs instead.
- `Node.__repr__`: debugging text only.
- `came_from`: written by the search but never read, so it is omitted.
- `float('inf')` in the g-cost lookup: modelled as "a cell with no recorded g is never rejected by the closed-set test".
- AStar: the search is bounded by `fuel` rounds and returns `OutOfFuel` when the bound runs out; the source loops without a bound and need not terminate.
- AStar: no optimality or shortest-path property is stated. The heuristic overestimates, the dominance tests are not strict and the turn table restricts moves.
- The maze must be rectangular. This excludes jagged mazes that the source handles: it fails only when the search probes a column past the end of a shorter row, and rows longer than the first are never a problem.
