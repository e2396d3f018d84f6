# Grid pathfinding of a 3-D snake bot, in Dafny

This project models the decision logic of a snake bot for a 3-D grid game, and proves properties about it:

- **the world snapshot** (`gt.py`): the integer cell `Vec3d` with its Manhattan distance, and the parsers that turn the server's JSON into typed snake, enemy, food and map records;
- **single-goal A\*** (`algo.py`): it searches the 6-connected box `[0, SIZE)` with unit steps, with fences and enemy bodies as obstacles;
- **multi-goal A\*** (`algo2.py`): it searches toward every candidate food at once, picks the food with the best points-per-step ratio, rebuilds the path to it and turns its first step into a direction.

Modules:

- `Geometry` (`geometry.dfy`): `Vec3d`, Manhattan distance, the six axis neighbours, the box of cells.
- `Walks` (`walks.dfy`): walks, the frontier argument behind A*'s optimality and completeness, and the termination measure.
- `Frontier` (`frontier.dfy`): the `heapq` frontier as a sequence with extract-min under Python's tuple order.
- `Snapshot` (`snapshot.dfy`): `gt.py`.
- `SingleGoal` (`singlegoal.dfy`): `algo.py`.
- `MultiGoal` (`multigoal.dfy`): `algo2.py`.
- `Wrappers` (`wrappers.dfy`): `Option`.

The searches are imperative, as in the source. They loop over a frontier sequence and reassign score and predecessor maps. Each search is proved against a specification:

- **Sound**: a returned path is a walk through passable cells.
- **Optimal**: no passable walk is shorter.
- **Complete**: `None`, or a goal left unscored, means no passable walk exists.
- **Terminates**: the measure is (unscored cells of the box, total score, frontier length), which falls lexicographically.

The single search does not rely on a consistent heuristic for optimality. It uses the invariant "every scored cell is either queued with its current score or settled". For the multi-goal search, the minimum-distance heuristic is proved admissible, and a goal popped first is proved to be scored optimally.

Where the original leaves something undefined, the model supplies a definition:

- `Vec3d.neighbors()` (called at `algo.py:53` and `algo2.py:83`) is the cell moved by each of +x, −x, +y, −y, +z, −z, in that order.
- `Vec3d` subtraction (`algo2.py:193`) is component-wise.
- `Snake.head` (`algo2.py:157`) is the first body cell.

Snake ids are kept as strings, as in the snapshot at `gt.py:135`, although `gt.py:17` annotates the field as `int`.

## Model

| member | source | states |
|---|---|---|
| Geometry.Manh | gt.py:11-12 | the distance is a natural number, and it is 0 exactly when the two cells are equal |
| Geometry.ManhSymmetric | gt.py:11-12 | the distance is symmetric |
| Geometry.ManhTriangle | gt.py:11-12 | the distance satisfies the triangle inequality |
| Geometry.NeighborShiftsDistance | gt.py:11-12 | one axis step changes the distance to any fixed cell by exactly one |
| Geometry.Neighbors | algo.py:53 | six cells, each the cell plus one unit axis offset; they are exactly the cells at distance 1 |
| Geometry.NeighborSet | algo.py:53 | the set of the six neighbours is exactly the set of cells at distance 1 |
| Geometry.Sub | algo2.py:193 | component-wise difference: adding it back gives the first cell, and its length is the distance |
| Geometry.StepIsUnit | algo2.py:192-193 | the difference between a neighbour and the cell is one of the six unit axis vectors |
| Walks.UntouchedCell | algo.py:53-64 | a relaxation leaves the cost and presence of every cell that was not visited unchanged |
| Walks.RelaxSkipStep | algo.py:54-60 | a neighbour that is out of bounds, blocked or not improved leaves cost and predecessor maps exactly as they were |
| Walks.RelaxUpdateStep | algo.py:60-63 | a passable, improved neighbour gets exactly the current cost plus one and the current cell as its predecessor, and nothing else changes |
| Frontier.EntryLeIsTotalOrder | algo.py:34-36 | the lexicographic order on `(f, g, (x, y, z))` entries is a total order |
| Frontier.PopMin | algo.py:42 | `heappop` returns an entry of the frontier that is no greater than any entry, and the rest is the frontier minus exactly that entry |
| Snapshot.ToVec | gt.py:66 | `Vec3d(*c)` succeeds exactly on three-element lists and inverts `list(v)` |
| Snapshot.MapAll | gt.py:68 | a comprehension whose element conversion may fail: it fails iff some element fails, and otherwise keeps length and order |
| Snapshot.ParseSnake | gt.py:63-72 | succeeds iff every coordinate has three elements; copies id, status, death count and revive time; keeps the body's length and order |
| Snapshot.ParseEnemySnake | gt.py:75-80 | copies geometry (as plain tuples), status and kills; never fails |
| Snapshot.ParseFood | gt.py:83-84 | copies coordinate and points; the kind is always normal |
| Snapshot.ParseSpecialFood | gt.py:87-88 | the given kind, and always zero points |
| Snapshot.ParseEnemies | gt.py:115 | parses every enemy, one by one, in order |
| Snapshot.ParseMap | gt.py:92-116 | succeeds iff every coordinate list has three elements; copies size, name, points, turn, tick time and revive timeout; the fence, food, snake and enemy lists keep their lengths |
| Snapshot.ParseMapContents | gt.py:98-115 | every parsed list is the input list parsed element by element, in order; golden and suspicious foods have zero points and their own kind |
| Snapshot.AbsentSpecialFoodIsEmpty | gt.py:101-108 | without `specialFood`, or without one of its keys, that food list is empty |
| Snapshot.MoveCommandOf | gt.py:25-26 | the command holds the snake's id and the direction as a three-element list that converts back to the direction |
| SingleGoal.InBounds | algo.py:20-22 | `in_bounds` holds exactly on the cells `0 <= x,y,z < SIZE` |
| SingleGoal.EnemyPositions | algo.py:14 | the flattened list holds exactly the segments of the enemies' bodies |
| SingleGoal.IsObstacle | algo.py:7-17 | a cell is an obstacle iff it is a fence or a segment of some enemy's body |
| SingleGoal.PassableCell | algo.py:54-57 | the search may enter a cell iff it is in bounds and not a fence or an enemy segment |
| SingleGoal.Expand | algo.py:53-64 | the exact new state: the keys are the old keys plus the passable neighbours that improve; each of those gets the current cost plus one and the current cell as predecessor; every other cell keeps its cost and predecessor; the frontier gains, in neighbour order, one `(g + h, g, cell)` entry per improved neighbour; and the predecessor tree is kept, scores only drop, and the expanded cell becomes settled |
| SingleGoal.RebuildPath | algo.py:43-51 | following `came_from` back from the goal gives a passable walk from start to goal, no longer than the goal's cost plus one |
| SingleGoal.GoalCostIsOptimal | algo.py:41-44 | when the least frontier entry is the goal, no passable walk is cheaper than the goal's cost |
| SingleGoal.SearchStep | algo.py:41-64 | popping a non-goal entry and relaxing keeps the search invariant (sound entries; every scored cell queued with its cost or settled; a scored goal is queued) |
| SingleGoal.FoundIsShortest | algo.py:44-51 | the rebuilt path is no longer than any passable walk |
| SingleGoal.ExhaustedIsUnreachable | algo.py:66-67 | once the frontier is empty, no passable walk reaches the goal |
| SingleGoal.AStar | algo.py:25-67 | the result starts at `start`, ends at `goal`, has neighbouring consecutive cells and passable cells after the first, and is shortest; `None` iff the goal is unreachable; `[start]` when start equals goal; `None` for a blocked or out-of-bounds goal; `manh(start, goal) + 1` cells in an obstacle-free box |
| SingleGoal.ResultFacts | algo.py:42-44 | for the start, a blocked goal and an open box, the consequences of soundness, optimality and completeness that `AStar` states |
| MultiGoal.IsValidCell | algo2.py:7-18 | a cell is valid iff it is inside the box and not a fence; snake bodies are not checked |
| MultiGoal.Manhattan3d | algo2.py:21-22 | the same distance as `Vec3d.manh` |
| MultiGoal.NearestDistanceIsMinimum | algo2.py:30 | the `min` fold is at most the distance to every goal, and equals the distance to some goal |
| MultiGoal.MultiGoalHeuristic | algo2.py:25-30 | the heuristic never exceeds the distance to any goal (it is admissible) |
| MultiGoal.HeuristicAtGoal | algo2.py:25-30 | the heuristic is 0 at a goal |
| MultiGoal.HeuristicConsistent | algo2.py:25-30 | the heuristic falls by at most the distance moved |
| MultiGoal.AwayFromStartIsPositive | algo2.py:50-51 | every scored cell other than the start scores at least 1 |
| MultiGoal.TreeWalk | algo2.py:84-92 | following the predecessors from any scored cell gives a valid walk from the start, no longer than the score plus one |
| MultiGoal.TreeRelax | algo2.py:87-92 | one relaxation keeps the tree: the start scores 0 and has no predecessor; every other key is valid, one step from its predecessor, and scores strictly more |
| MultiGoal.Expand | algo2.py:83-98 | the exact new state: the keys are the old keys plus the valid neighbours whose score improves; each of those gets the current score plus one and the current cell as predecessor; every other cell keeps its score and predecessor; the open set gains, in neighbour order, one `(g + h, cell)` entry per improved neighbour; and the tree is kept, scores only drop, and the expanded cell becomes settled |
| MultiGoal.PoppedGoalIsOptimal | algo2.py:66-72 | a goal popped as the least entry is scored no higher than any valid walk to it needs |
| MultiGoal.OptimalStaysOptimal | algo2.py:90-92 | lowering scores keeps an optimal goal score optimal |
| MultiGoal.SearchStep | algo2.py:66-98 | popping an entry and relaxing keeps the search invariant (entries no better than `g + h`; every scored cell queued with its score or settled) |
| MultiGoal.SubsetSize | algo2.py:78 | a set of discovered goals as large as the goal set is the whole goal set |
| MultiGoal.SearchResult | algo2.py:66-100 | when the search stops, each goal is scored iff it is reachable, and then optimally; an emptied heap leaves every scored cell settled; a goal left unscored means the heap was emptied |
| MultiGoal.AStarMultiGoal | algo2.py:33-100 | the returned maps form a tree of valid walks from the start; each goal is scored iff reachable, and then with its shortest distance; if some goal is left unscored, the open set was emptied and every scored cell is settled |
| MultiGoal.PickBestFood | algo2.py:103-125 | unscored foods are skipped; the first food at distance 0 is returned; otherwise the first maximiser of `points / distance`; `None` iff no food is scored |
| MultiGoal.ChainFacts | algo2.py:128-142 | the chain back from a cell ends at it, starts at a cell without a predecessor, links each cell to the one before it, is `[t]` when `t` has no predecessor, and is bounded by the score |
| MultiGoal.ReconstructPath | algo2.py:128-142 | the path ends with the target, its first cell has no `came_from` entry, each cell is `came_from` of the next, and it is `[t]` if `t` has no entry |
| MultiGoal.LinkedPathIsWalk | algo2.py:186-193 | a predecessor path from a scored cell is a valid walk from the start |
| MultiGoal.AllFoods | algo2.py:159 | the food list holds the normal, then the golden, then the suspicious foods, each in its own order |
| MultiGoal.Candidates | algo2.py:165-169 | the candidates are exactly the foods within `radius` of the head and with positive points |
| MultiGoal.CandidatesAppend | algo2.py:165-169 | filtering a concatenation is the concatenation of the filtered parts, so the source order is kept |
| MultiGoal.CandidatesCount | algo2.py:165-169 | a kept food occurs among the candidates exactly as often as in the food list, and a dropped food not at all |
| MultiGoal.Coordinates | algo2.py:175 | one goal per candidate, its coordinate, in order |
| MultiGoal.NoneReachable | algo2.py:181-183 | no scored candidate means no reachable candidate |
| MultiGoal.MoveFacts | algo2.py:186-189 | a path of at least two cells to the chosen food is shortest, and no candidate lies under the head |
| MultiGoal.BestRatio | algo2.py:180-181 | over shortest walks, no candidate has a better points-per-step ratio than the chosen food |
| MultiGoal.NextMove | algo2.py:145-194 | `None` iff there is no candidate, none is reachable, or one lies under the head; otherwise a candidate with the best ratio over shortest walks, a shortest valid walk to it of at least two cells, and a direction `path[1] - head` that is a unit axis vector |

## Left out

- JSON decoding, and the `KeyError`s and type errors of missing or mistyped keys. The snapshot is a record whose required keys are always present. Only the arity of coordinate lists is checked (modelled: a `Vec3d(*c)` failure gives `None`).
- `Snake.revive_remain_ms` comes from `data.get`: an absent key and `null` are both `None`.
- Floating point. The ratio `points / dist` in `pick_best_food_astar` is exact real division. `float("-inf")` as the starting best score is an absent best food. `float("inf")` for an unscored cell is a missing key.
- Heap layout. The `heapq` binary heap is a sequence with linear extract-min under the same tuple order, so the same entry is popped.
- The `fScore` dictionary of `a_star_multi_goal`. It is only written, and only its pushed value is read, so the model pushes the priority directly.
- `Vec3d.neighbors()`, `Vec3d` subtraction and `Snake.head` are not defined in `gt.py`. They are given as stated above. The neighbour order only affects which of several equally short paths is found.
- `snake_ai_move_astar_multi` (`algo2.py:197-209`). It unpacks a result that can be `None`, and it builds `SnakeBrain`, which `gt.py` does not define (so the import at `algo2.py:4` would fail).
- The `__main__` demos of `gt.py` and `algo.py`, and `command()` (`gt.py:119-124`), a constant used by no core function.
- The UI, rendering, network client and server, game loop, replay store and file I/O of the rest of the repository. algo.py and algo2.py are the bot's decision logic.
- Snapshot.Head: requires a non-empty body, so NextMove requires one too. The source reads the head of the snake it is given.
- MultiGoal.MultiGoalHeuristic: requires a non-empty goal list, and so do AStarMultiGoal and Expand, because Python's `min` raises on an empty sequence. The only caller returns early when there are no candidates.
- MultiGoal.ReconstructPath: requires predecessor links whose scores strictly decrease. On a cyclic `came_from` the source would loop forever. The maps built by `a_star_multi_goal` always satisfy this (`Tree`).
- MultiGoal.NextMove: does not restate the first-maximiser tie-break among equally good foods. PickBestFood states it.
- SingleGoal.AStar: does not state which of several equally short paths is returned.
