# A* grid pathfinding, modelled in Dafny

This project models the path search in `src/Pathfinding.ts` of memview-pathfinding. The terrain is a
grid of integers indexed `[x][y]`. A cell is walkable when its value is `0`. The search is A* with
four-way moves and a unit step cost. Each node carries its cell, its cost so far `g`, a heuristic
estimate `h` and the priority `f = g + h`, plus a link to the node it was reached from.

On every iteration `findPath` does the following:
- it sorts the open list by `f` and shifts off the front node;
- it adds that node's cell to the closed set;
- if the node stands on the target, it returns the chain of parent links as a path from start to target;
- otherwise it offers each neighbour from `getNeighbors` to the open list.

A neighbour is skipped when its cell is closed. It is appended when no open node stands on its cell,
or when its `g` is strictly smaller than that of the first open node standing there. Otherwise it is
dropped. When the open list runs dry the search returns `null`.

Modules:
- `Wrappers` holds `Option`.
- `Grid` holds cells, bounds, walkability, adjacency and walks.
- `Heuristics` holds the Manhattan heuristic and its random variant.
- `Nodes` holds search nodes, parent chains and the search-path predicate.
- `Frontier` holds the open-list operations:
  - the stable sort by `f` the search relies on;
  - `find`;
  - the push decision;
  - the count of stale entries.
- `Neighbors` holds `getNeighbors`.
- `Pathfinding` holds the search loop and the `Pathfinding` class with its `openCount` and
  `closedCount` fields.

`Pathfinding.Search` holds the loop of `findPath`. It works on plain values: the open list as a
`seq<Node>` that each step reassigns, and the closed set as a `set<Vector2>`. The class method
`Pathfinding.Pathfinding.FindPath` supplies the object's terrain and heuristic target. It writes the
two counters the way `findPath` does, setting them only when a path is found.

One iteration of the loop is also written as a function, `Pathfinding.Step`, on a `SearchState`
made of the open list, the closed set and the node popped on the target, if any. `Pathfinding.Run`
applies `Step` a given number of times. The loop body `Pathfinding.Iterate` is proved to compute
`Step`. `Pathfinding.Search` is proved to stop in the state `Run` reaches from the start node alone,
and that final state is unique.

The main results:
- A returned path is a search path:
  - it starts at the start cell with `g = 0` and no parent, and ends at the target;
  - consecutive nodes are one orthogonal step apart, and each is the parent of the next;
  - every cell after the start is free;
  - the node at index `i` has `g = i`, so the length is the target node's `g + 1`;
  - every node has `h` equal to the Manhattan distance to the heuristic target and `f = g + h`.
- A returned path visits no cell twice, and every cell on it is closed. It is no longer than the
  closed set.
- When start equals target, the path has exactly one node.
- `null` is returned only when the open list is empty. In that case no walk over free cells leads
  from the start to the target.
- The loop terminates. Its measure is the number of cells of the grid (plus the start) not yet
  closed, then the number of open entries whose cell is already closed.

## Model

| member | source | states |
|---|---|---|
| Grid.Abs | src/Pathfinding.ts:221 | `Math.abs`: the result is the operand or its negation, and is never negative |
| Grid.InBounds | src/Pathfinding.ts:251-254 | definition, no contract: the four bounds tests, with the column bound taken from the first row's length |
| Grid.IsFree | src/Pathfinding.ts:249-256 | definition, no contract: the filter, inside the bounds and of terrain value 0, where a cell past the end of a shorter row is not free |
| Grid.CellsAreInBounds | src/Pathfinding.ts:251-254 | the finite set of grid cells is exactly the coordinates passing the four bounds tests, with the column bound taken from the first row |
| Grid.FreeInCells | src/Pathfinding.ts:251-255 | every cell passing the bounds-and-terrain filter lies in the finite set of grid cells |
| Grid.WalkStaysInside | src/Pathfinding.ts:249-256 | a walk starting in a set that is closed under free orthogonal steps never leaves it |
| Heuristics.Manhattan | src/Pathfinding.ts:220-221 | the Manhattan heuristic is non-negative and zero exactly at the target (also the default branch, 232-233) |
| Heuristics.ManhattanConsistent | src/Pathfinding.ts:220-221 | one orthogonal step changes the heuristic by at most one |
| Heuristics.ManhattanAdmissible | src/Pathfinding.ts:220-221 | the heuristic never exceeds the number of steps of an orthogonal walk to the target |
| Heuristics.ManhattanRandom | src/Pathfinding.ts:226-231 | with the noise already in [0, 2) (the random draw times two), the value lies in [Manhattan, Manhattan + 2) |
| Heuristics.ManhattanRandomOverestimates | src/Pathfinding.ts:226-231 | with positive noise the random variant is positive at the target itself |
| Nodes.Key | src/Pathfinding.ts:180-202 | definition, no contract: a node's cell as an integer pair. It stands for the closed-set key `` `${x},${y}` `` at 180 and 199, which is one-to-one on integer pairs, and for the coordinate match of `find` at 202 |
| Nodes.Ancestry | src/Pathfinding.ts:187-192 | the parent chain starts at the node, each entry's parent is the next entry, and the last entry has no parent |
| Nodes.Reversed | src/Pathfinding.ts:195 | `reverse` keeps the length and puts at index `i` the element `i` places from the end |
| Nodes.DerivedAncestry | src/Pathfinding.ts:166-173 | a node built from the start node by child steps has `g + 1` ancestors, ending at the start, each `g` lower by one |
| Nodes.PathOfDerived | src/Pathfinding.ts:186-195 | the reversed parent chain of such a node is a search path of length `g + 1` ending at the node |
| Nodes.DistinctCellsCount | src/Pathfinding.ts:193-194 | a node list without repeated cells covers as many cells as it has nodes |
| Nodes.ReversedDistinct | src/Pathfinding.ts:195 | reversing keeps cells distinct |
| Frontier.InsertByF | src/Pathfinding.ts:178 | the insertion step of the stable sort that models `sort`: it adds exactly the inserted node to the list |
| Frontier.InsertByFSorted | src/Pathfinding.ts:178 | inserting into a list sorted by `f` keeps it sorted |
| Frontier.SortByF | src/Pathfinding.ts:178 | the sort by `f` is a permutation and yields a list ordered by `f` |
| Frontier.InsertByFStable | src/Pathfinding.ts:178 | insertion keeps the relative order of equal-`f` nodes, with the inserted node first |
| Frontier.SortByFStable | src/Pathfinding.ts:178 | the sort is stable: nodes with equal `f` keep their order |
| Frontier.ShiftTakesMinimum | src/Pathfinding.ts:178-179 | the shifted-off node has `f` no greater than every node of the list and of the remainder, and the list loses exactly that one entry |
| Frontier.FirstIndex | src/Pathfinding.ts:201-203 | the index found is the first one whose node stands on the cell, or the length when none does |
| Frontier.FindAt | src/Pathfinding.ts:201-203 | `find` returns nothing exactly when no open node stands on the cell, and otherwise the first node that does |
| Frontier.Offer | src/Pathfinding.ts:199-207 | the open list is unchanged or gains exactly the neighbour at its end, and it gains it exactly when the cell is not closed and the neighbour's `g` beats the first open node on that cell, if any |
| Frontier.OfferCoversCell | src/Pathfinding.ts:199-207 | after an offer, the neighbour's cell is closed or stands in the open list, and no open cell is lost |
| Frontier.OfferEach | src/Pathfinding.ts:198-208 | the neighbour loop, each neighbour offered in order to the list the earlier offers left, keeps the old list as a prefix and appends at most one entry per neighbour |
| Frontier.OfferEachAppends | src/Pathfinding.ts:198-208 | every entry the neighbour loop appends is a neighbour on a cell not closed, so the number of stale entries is unchanged |
| Frontier.OfferEachFrom | src/Pathfinding.ts:198-208 | every entry after the neighbour loop was open before or is a neighbour on a cell not closed |
| Frontier.OfferEachCovers | src/Pathfinding.ts:198-208 | after the neighbour loop no open cell is lost, and every neighbour's cell is closed or open |
| Frontier.StaleCount | src/Pathfinding.ts:177-180 | the number of open entries on closed cells is at most the list length |
| Frontier.StaleCountAppend | src/Pathfinding.ts:206 | a push adds one stale entry exactly when the pushed cell is closed |
| Frontier.StaleCountInsert | src/Pathfinding.ts:178 | insertion adds one stale entry exactly when the inserted cell is closed |
| Frontier.StaleCountSort | src/Pathfinding.ts:178 | sorting leaves the number of stale entries unchanged |
| Neighbors.Dirs | src/Pathfinding.ts:238-243 | definition, no contract: the four offsets in the source's order, (0,-1), (0,1), (-1,0), (1,0). Expand follows this order, so it fixes the order in which neighbours are appended, which equal-`f` entry the stable sort puts first, and so which path comes back |
| Neighbors.Offset | src/Pathfinding.ts:245-248 | definition, no contract: the first `map`, the cell reached from the node by one offset |
| Neighbors.Expand | src/Pathfinding.ts:244-268 | the map/filter/map pipeline yields at most one node per direction |
| Neighbors.ExpandSound | src/Pathfinding.ts:249-267 | each generated node is a child: one unit step away, free, `g + 1`, Manhattan `h`, `f = g + h`, parent the expanded node |
| Neighbors.ExpandComplete | src/Pathfinding.ts:244-256 | every direction whose cell is free yields a node on that cell |
| Neighbors.ExpandDistinct | src/Pathfinding.ts:238-256 | distinct unit directions yield distinct cells |
| Neighbors.AdjacentIsDir | src/Pathfinding.ts:238-243 | every orthogonally adjacent cell is reached by one of the four listed directions |
| Neighbors.GetNeighbors | src/Pathfinding.ts:237-269 | at most four neighbours, each a child of the node on a free adjacent cell, all free adjacent cells present, no cell twice |
| Neighbors.ChildDerived | src/Pathfinding.ts:257-267 | a child of a node derived from the start is itself derived from the start |
| Pathfinding.ChildSettled | src/Pathfinding.ts:198-207 | a pushed child of a closed node has all its ancestors closed and no repeated cell on its chain |
| Pathfinding.SettledGrows | src/Pathfinding.ts:180 | that property survives the growth of the closed set |
| Pathfinding.FrontierKept | src/Pathfinding.ts:177-208 | one iteration keeps every open node derived from the start, with closed ancestors, on the grid or the start |
| Pathfinding.CoverKept | src/Pathfinding.ts:177-208 | one iteration keeps every free neighbour of a closed cell either closed or open |
| Pathfinding.CloseCell | src/Pathfinding.ts:180 | the closed set only grows, by at most one cell, contains the popped cell, and re-adding it changes nothing |
| Pathfinding.MeasureDrops | src/Pathfinding.ts:177-208 | each iteration closes a new cell or removes a stale entry, so the lexicographic measure decreases |
| Pathfinding.PathFound | src/Pathfinding.ts:186-195 | the path read off the popped target node is a search path of length `g + 1`, with distinct cells, all closed |
| Pathfinding.ExhaustedMeansUnreachable | src/Pathfinding.ts:211 | when the open list is empty and the start but not the target is closed, no walk over free cells reaches the target |
| Pathfinding.SearchInvInit | src/Pathfinding.ts:161-175 | the state before the first iteration, the start node alone open and nothing closed, satisfies the loop invariant |
| Pathfinding.ExpansionKeeps | src/Pathfinding.ts:177-208 | an iteration that pops a node off the target and offers its neighbours keeps the loop invariant and decreases the termination measure |
| Pathfinding.StartNode | src/Pathfinding.ts:164-173 | definition, no contract: the start node on the start cell with `g = 0`, `h` and `f` the Manhattan estimate to the heuristic target, and no parent |
| Pathfinding.Initial | src/Pathfinding.ts:161-175 | definition, no contract: the state before the loop, with the start node alone open, nothing closed and nothing found |
| Pathfinding.Finished | src/Pathfinding.ts:177-186 | definition, no contract: the loop has stopped, because a node on the target was popped or the open list is empty |
| Pathfinding.Step | src/Pathfinding.ts:178-208 | definition, no contract: one iteration of the loop. It sorts by `f`, shifts off the front node and closes its cell. A node on the target is recorded as found; otherwise the open list becomes OfferEach of the neighbours. A finished state is left as it is |
| Pathfinding.Run | src/Pathfinding.ts:177-209 | definition, no contract: the state after a given number of iterations of the `while` loop, each one Step |
| Pathfinding.RunStep | src/Pathfinding.ts:177-209 | running one iteration more is one more Step of the loop after the run |
| Pathfinding.RunAdd | src/Pathfinding.ts:177-209 | running `n + k` iterations is running `n`, then `k` more |
| Pathfinding.RunFinished | src/Pathfinding.ts:177-209 | once a node on the target was popped or the open list is empty, further iterations change nothing |
| Pathfinding.FinalStateUnique | src/Pathfinding.ts:177-211 | any two iteration counts that both stop the loop reach the same state, so the path, the open list and the closed set the loop ends with are determined by the inputs |
| Pathfinding.TargetReached | src/Pathfinding.ts:178-195 | when the popped node is on the target, its reversed parent chain is a search path with distinct closed cells, and the node's `f` is least among the entries left. A search from the target returns one node |
| Pathfinding.OfferAll | src/Pathfinding.ts:198-208 | the `for` loop over the neighbours yields exactly OfferEach: the skip on a closed cell, the `find` and the strict `g` comparison applied to each neighbour in order |
| Pathfinding.StepKeeps | src/Pathfinding.ts:177-208 | one Step from a state satisfying the loop invariant either stops on the target with a search path over closed, distinct cells whose last node has the least `f` left, or keeps the invariant and decreases the termination measure |
| Pathfinding.Iterate | src/Pathfinding.ts:178-208 | the loop body (sort, shift, close, the target test, then the neighbour loop) produces exactly the state Step gives |
| Pathfinding.ReadPath | src/Pathfinding.ts:187-195 | the push loop over parent links followed by `reverse` yields the reversed parent chain, from a parentless node to the popped node |
| Pathfinding.Search | src/Pathfinding.ts:157-212 | the loop stops in the final state of Run from the start node alone, which FinalStateUnique shows is unique. The path is the reversed parent chain of that state's popped node, and the counts are the sizes of its open list and closed set. A returned path is a search path from start to target with distinct, closed cells, and its last node has the least `f` left open. Start equal to target gives one node. `None` comes only with an empty open list and an unreachable target |
| Pathfinding.Pathfinding.constructor | src/Pathfinding.ts:10-40 | the object starts with the given terrain, target (3, 3) and both counters zero |
| Pathfinding.Pathfinding.FindPath | src/Pathfinding.ts:157-212 | on success the path is a search path from start to target with distinct cells. It is the reversed parent chain of the node popped in the loop's final state, and `openCount` and `closedCount` are the sizes of that state's open list and closed set, so the path length is at most `closedCount`, which is at most the number of grid cells plus the start. On `null` the loop ended with an empty open list, the counters are untouched and the target is unreachable |

## Left out

- The Euclidean heuristic (src/Pathfinding.ts:222-225) is left out: it needs floating-point `sqrt`.
- Heuristic selection is left out. Nodes always use the Manhattan heuristic, which is the initial value 0 of `selectedHeuristic` and also the default branch. The selection is driven by key bindings and buttons in the UI.
- Heuristics.ManhattanRandom stands alone. `Math.random()` is a parameter `noise` in [0, 2) that already includes the factor 2, and the search does not use this variant, since its `h` and `f` would be reals.
- The rendering layer is left out: the MemView calls, `init`'s render loop, the key and mouse bindings and `visualizeLists`. The `visualizeLists` hook inside the loop only draws, so it is a no-op in the model.
- `async`/`await` and `sleep` are left out. The search is an ordinary sequential method.
- Timing with `performance.now()` is left out.
- The target-change check by reference before calling `findPath` is left out. That check also tests that the target cell is free.
- The marking of `pathGrid` with the result is left out; it is display state only.
- Random terrain generation in the constructor is left out. The constructor takes the terrain as a parameter instead.
- A ragged terrain is read as the code reads it: bounds use the first row's length, and a cell beyond a shorter row is not free, because `undefined` is not `0`.
- The closed set's string keys `` `${x},${y}` `` are modelled as `Vector2` values. That string is distinct for distinct integer pairs.
- Pathfinding.Search: the model does not prove that the returned path is a shortest one (that its length equals the breadth-first distance).
- Pathfinding.Search keeps the open list and the closed set as values rather than an array mutated in place. `sort`, `shift` and `push` become reassignments.

Where the code departs from the usual description of this search, the model follows the code:
- No check that start and target are inside the grid or free. A blocked start still seeds the search.
- A better neighbour is pushed as a duplicate rather than replacing the open entry.
- Popped nodes are not re-checked against the closed set, so a stale duplicate is expanded again.
- Ties in `f` are broken only by the order of the stable sort, not by `h`.
