# Path-finding mazes, modelled in Dafny

This project models the core of `app.js` from the PathFindingAlgorithms
repository. That core is a browser game: a rectangular maze of blocks with
four walls each. The maze is carved by a randomized depth-first
backtracker. A player can be moved with the arrow keys, or walked to the
target by one of four searches: breadth-first, depth-first, A\* and
Dijkstra. The last two search with a binary-heap `PriorityQueue`.

The modules follow the program's parts:

- `Geometry` (`geometry.dfy`): `Point`, the side and delta tables, and `heuristic`.
- `Grids` (`grids.dfy`): the blocks' `open` records as a grid of `Walls`, legal moves, walks and reachability.
- `PriorityQueues` (`priority_queue.dfy`): the heap class.
- `Shuffling` (`shuffle.dfy`): `shuffleArray` on an array.
- `Generation` (`generation.dfy`): the loop bodies of `generate` and `generateMultipleSolutions`, and the spanning-tree invariant they keep.
- `Searching` (`search.dfy`): the four search loops, the `previous` chains they build, and the path rebuild.
- `Mazes` (`maze.dfy`): the `Maze` object as a class whose methods update its fields.
- `Options` and `Sequences`: small shared helpers.

The main results:

- **Generation.** After either generator, the open walls are the old ones plus `x*y - 1` carved walls. All of them are new when the grid starts closed, as in `reset`. Every block is afterwards reachable from the start. No wall that was open before is closed.
- **Searches.** All four searches end on a chain of legal moves rooted at the player's position. That chain ends at the target exactly when the target is reachable.
- **Solve.** `Solve` walks the player along that chain. Its `solved` flag is set exactly when the walk passes the target.
- **Priority queue.** `queue` and the corrected `dequeue` keep the heap order and the multiset of entries. `dequeue` returns a minimum. The searches run `dequeue` as written; their contracts do not depend on heap order.
- **Shuffle.** `shuffleArray` permutes its array.

Randomness enters as parameters:

- `rand` is the value of `parseInt(Math.random() * 1000)` at each generation step.
- `js` holds the `Math.floor(Math.random() * (i + 1))` draws of one shuffle.

Two behaviours of the code are worth noting:

- **A search that fails does not report "unreachable".** When the frontier empties without reaching the target, the code still rebuilds the chain of the last cell it took from the frontier and walks the player there. `Solve` states exactly that: `position == targetPosition` holds iff the target is reachable.
- **Neither generator resets the blocks.** `generateMultipleSolutions` carves a second spanning tree over the walls already open, so on an already carved maze it can produce cycles. On a closed grid it produces a perfect maze, like `generate`.

## Model

| member | source | states |
|---|---|---|
| Geometry.Serialize | app.js:128-130 | the key holds the point's two coordinates, so the point can be read back from it |
| Geometry.InsideBounds | app.js:133-135 | a point is inside the bounds only when both dimensions are positive |
| Geometry.Offset | app.js:138-140 | adding a delta moves the point by the delta's Manhattan length, and leaves it in place exactly when the delta is zero |
| Geometry.Equals | app.js:123-125 | `equals` holds exactly when both coordinates agree, that is when the points are the same value |
| Geometry.Heuristic | app.js:143-147 | the Manhattan distance is zero exactly when the two points are equal |
| Geometry.IndexOf | app.js:170 | `sides.indexOf` finds each side, at a unique index of the table |
| Geometry.SerializeInjective | app.js:128-130 | two points serialize to the same key exactly when they are equal, so the visited sets are sets of points |
| Geometry.HeuristicSymmetric | app.js:143-147 | the heuristic distance is symmetric |
| Geometry.HeuristicStep | app.js:170-177 | every delta of the side table moves a point by heuristic distance exactly 1 |
| Geometry.HeuristicConsistent | app.js:690-691 | the heuristic to the target changes by at most 1 across one move (the heuristic is consistent) |
| Geometry.OppositeSidesNegateDelta | app.js:170-177 | `oppositeSides[i]` is the opposite of `sides[i]` and its delta is the negated delta |
| Geometry.StepBack | app.js:170-177 | a step followed by a step to the opposite side returns to the same point; opposite is an involution |
| Geometry.StepsDistinct | app.js:172-177 | a step always leaves the point, and distinct sides lead to distinct neighbours |
| Grids.Walls.Opened | app.js:336 | setting `open[side] = true` opens that side and leaves the other three as they were |
| Grids.At | app.js:208-210 | `getBlock` returns the record whose open sides are exactly the open walls of that block |
| Grids.SetAt | app.js:335-340 | replacing one block's record changes only that block's walls and keeps the grid's shape |
| Grids.ClosedGrid | app.js:198-205 | freshly created blocks have all four walls closed, in a grid of the given shape |
| Grids.Move | app.js:267-283 | a move succeeds exactly when the next point is inside the bounds and the current block's wall on that side is open; it then lands on the neighbour |
| Grids.CellsMembership | app.js:133-135 | a key is among the grid's cells exactly when its point is inside the bounds |
| Grids.CellsCardinality | app.js:300 | the grid has `bounds.x * bounds.y` cells, the `blockCount` the generators count to |
| Grids.PathAppend | app.js:282 | appending one legal move to a walk gives a walk that ends at the new point |
| Grids.PathExtends | app.js:334-340 | opening walls keeps every existing walk legal |
| Grids.PathInside | app.js:272-275 | every point of a legal walk is inside the bounds |
| Grids.MoveReversible | app.js:334-340 | on a grid whose open walls are symmetric, every legal move can be undone by the opposite move |
| Grids.HeuristicAdmissible | app.js:143-147 | the heuristic distance from a walk's start to its end never exceeds the walk's length |
| Grids.ClosedSetHoldsWalk | app.js:379-400 | a set of cells closed under legal moves holds the end of every walk that starts inside it |
| Grids.ClosedSetCoversGrid | app.js:322-327 | a set of in-bounds cells closed under steps inside the bounds holds every cell of the grid |
| Grids.LinkedByMove | app.js:384-399 | a legal move links the block to its neighbour |
| Grids.ReachableItself | app.js:407 | every block is reachable from itself by the empty walk |
| Grids.ReachableExtends | app.js:334-340 | opening walls keeps every reachable block reachable |
| Grids.ReachableStep | app.js:384-399 | a legal move from a reachable block reaches its neighbour |
| Grids.LinkedNeighbours | app.js:690 | blocks linked by a legal move are at heuristic distance 1, so A\*'s `g` grows by 1 per move |
| Sequences.Swapped | app.js:23-27 | the swap exchanges two entries, leaves every other entry and keeps the multiset |
| Sequences.Reversed | app.js:424-431 | popping the rebuilt path visits its entries from last to first |
| Sequences.ReversedMembers | app.js:424-431 | the walk visits exactly the points of the rebuilt path |
| PriorityQueues.Parent | app.js:8-10 | the parent of every index above 0 is a smaller index; the root has none |
| PriorityQueues.LeftChild | app.js:13-15 | the left child of an index lies past it and has that index as parent |
| PriorityQueues.RightChild | app.js:18-20 | the right child follows the left child and has the same parent |
| PriorityQueues.ChildrenOfParent | app.js:8-20 | every non-root index is the left or the right child of its parent |
| PriorityQueues.RootIsMinimum | app.js:45-46 | in heap order, the root's key is at most the key of every index |
| PriorityQueues.RootPrecedesAll | app.js:45-46 | in heap order, the root's key is at most every entry's key |
| PriorityQueues.SiftDownAsWritten | app.js:53-78 | the sift-down loop, as written, keeps the heap's length and multiset |
| PriorityQueues.DequeuedAsWritten | app.js:45-82 | `dequeue` as written removes exactly one copy of the root |
| PriorityQueues.DequeueAsWrittenBreaksOrder | app.js:66-72 | on the heap-ordered `[0, 5, 6, 5]`, `dequeue` as written leaves `[6, 5, 5]`, which is not heap-ordered |
| PriorityQueues.PriorityQueue.constructor | app.js:2-5 | a new queue has the given comparator key and an empty heap |
| PriorityQueues.PriorityQueue.Length | app.js:85-87 | `length` is the number of entries in the heap, zero exactly when the heap is empty |
| PriorityQueues.PriorityQueue.Swap | app.js:23-27 | `_swap` exchanges the two heap entries |
| PriorityQueues.PriorityQueue.Queue | app.js:30-42 | `queue` adds the value once, grows the heap by one and keeps the heap order |
| PriorityQueues.PriorityQueue.SiftUpStep | app.js:35-41 | one sift-up swap keeps the heap order everywhere but the entry being moved up |
| PriorityQueues.PriorityQueue.DequeueAsWritten | app.js:45-82 | `dequeue` as written returns the root, or nothing on an empty heap, and leaves `DequeuedAsWritten` of the old heap |
| PriorityQueues.PriorityQueue.Dequeue | app.js:45-82 | the corrected `dequeue` returns the root, or nothing on an empty heap; it removes one copy of the root, keeps the heap order, and the returned key is at most every key left |
| PriorityQueues.PriorityQueue.MovedToRoot | app.js:46-51 | moving the last entry to the root removes one copy of the old root and keeps the heap order below the root |
| PriorityQueues.PriorityQueue.SiftDown | app.js:53-78 | the sift-down loop keeps the heap's length and multiset, and restores heap order |
| PriorityQueues.PriorityQueue.SiftDownStop | app.js:74 | when neither child is smaller, the heap is ordered |
| PriorityQueues.PriorityQueue.SiftDownStep | app.js:57-77 | swapping with the smaller child moves the one disorder down to that child |
| Shuffling.ShuffledDownTo | app.js:604-607 | the shuffle loop, run from the last index down to any index, keeps the length and the multiset |
| Shuffling.ShuffledPermutes | app.js:603-608 | a shuffle is a permutation: same length, same multiset, same members |
| Shuffling.ShuffledLast | app.js:584-586 | the adjacent that `pop()` takes after the shuffle is one of the adjacents |
| Shuffling.SwapEntries | app.js:606 | the destructuring assignment swaps entries `i` and `j` |
| Shuffling.ShuffleArray | app.js:603-608 | the array ends as the shuffle of its old contents under the draws, with the same multiset |
| Generation.Candidate | app.js:254-258 | candidate `i` is the neighbour on `sides[i]`, with `oppositeSides[i]` as the side seen from it |
| Generation.AdjacentsUpTo | app.js:252-264 | the first `i` deltas yield, in table order, exactly the in-bounds unvisited neighbours among them |
| Generation.AdjacentsExactly | app.js:252-264 | `getAdjacents` returns at most four neighbours, in table order: exactly those inside the bounds and not visited, and none when every in-bounds neighbour is visited |
| Generation.BacktrackStep | app.js:324-327 | when the top has no unvisited neighbour inside the bounds, the body marks it visited, pops it and changes no wall |
| Generation.CarveStep | app.js:329-340 | carving to any adjacent marks the top visited, pushes an unvisited in-bounds neighbour at distance 1 and opens exactly the wall between the two |
| Generation.GenerateBody | app.js:309-341 | one body of `generate`'s loop either pops a top whose in-bounds neighbours are all visited, changing no wall, or pushes an unvisited neighbour and opens exactly the wall between them |
| Generation.MultipleSolutionsBody | app.js:563-597 | the same two outcomes for one body of `generateMultipleSolutions`' loop, the neighbour being the last entry of the shuffled adjacents |
| Generation.Carve | app.js:329-340 | a carve pushes the neighbour, keeps the visited set and opens exactly the two faces of the wall between the cells |
| Generation.CarveWalls | app.js:334-340 | opening `np.side` on the block and `np.oppositeSide` on the neighbour opens those two faces and nothing else |
| Generation.CanonicalSameWall | app.js:334-340 | two (block, side) faces name the same wall exactly when they are equal or are the two faces of one wall |
| Generation.OpenEdgesClosed | app.js:198-205 | a freshly created grid has no open wall |
| Generation.CarvedInitially | app.js:300-306 | the generation invariant holds at the start, with the stack holding the start only |
| Generation.ReachedBounded | app.js:308 | the visited set never outgrows `blockCount` |
| Generation.StackNotEmpty | app.js:308-310 | while fewer than `blockCount` cells are visited, the stack is not empty and its top is inside the bounds |
| Generation.MarkTopKeeps | app.js:315-320 | marking the top cell visited keeps the generation invariant |
| Generation.BacktrackKeeps | app.js:324-327 | popping a cell without unvisited neighbours keeps the generation invariant |
| Generation.CarveKeepsSymmetric | app.js:334-340 | a carve keeps the open walls symmetric |
| Generation.CarveKeepsWalls | app.js:334-340 | a carve keeps the walls symmetric and records one carved wall in the tree, joining two reached blocks |
| Generation.CarveKeepsReachable | app.js:329-340 | the carved neighbour is reachable from the start |
| Generation.CarveKeeps | app.js:329-340 | a carve keeps the generation invariant and adds one reached cell and one carved wall |
| Generation.OpenEdgesCarved | app.js:334-340 | the open walls are the walls open before plus the carved tree |
| Generation.CarvedCompletely | app.js:307-308 | when `blockCount` cells are visited, every cell is reachable from the start, and the open walls are the old ones plus `blockCount - 1` carved walls |
| Generation.GenerateBodyKeeps | app.js:309-341 | one iteration of `generate` keeps the invariant, and either visits a new cell or pops the stack |
| Generation.MultipleSolutionsBodyKeeps | app.js:563-597 | one iteration of `generateMultipleSolutions` keeps the invariant, and either visits a new cell or pops the stack |
| Searching.TraceOkRooted | app.js:396 | a chain of legal `previous` links is rooted at the start and ends inside the bounds |
| Searching.PathBack | app.js:406-410 | the rebuilt path never holds the start and is no longer than the chain |
| Searching.PathBackWalks | app.js:403-431 | the rebuilt path, reversed, is a legal walk from the start to the last cell |
| Searching.RebuiltWalk | app.js:403-431 | the rebuilt path, reversed, is a legal walk from the start that ends at the last cell; its first entry is that cell, or the cell is the start when the path is empty; every entry is inside the bounds |
| Searching.ExpansionsUpTo | app.js:379-400 | the first `i` open sides yield, for each of them, the in-bounds unvisited neighbour linked back to the current cell |
| Searching.ExpansionsExactly | app.js:379-400 | an expansion pushes at most four entries; each is a linked, unvisited neighbour whose `previous` is the current cell, and every such neighbour is pushed |
| Searching.SearchBegins | app.js:355-358 | the search invariant holds on the frontier that holds only the start |
| Searching.SkipKeeps | app.js:371-374 | taking an already visited cell from the frontier keeps the search invariant |
| Searching.ExpandKeeps | app.js:376-400 | visiting a cell and pushing its expansions keeps the search invariant |
| Searching.SearchEnds | app.js:362-366 | when the loop stops, the last cell is the target exactly when the target is reachable from the start |
| Searching.Expand | app.js:379-400 | the `for (side in block.open)` loop pushes exactly the expansions, in key order |
| Searching.SearchBreadthFirst | app.js:355-402 | `solve`'s FIFO loop ends on a legal chain from the start, ending at the target iff the target is reachable |
| Searching.SearchDepthFirst | app.js:448-494 | `solveDFS`'s LIFO loop ends on a legal chain from the start, ending at the target iff the target is reachable |
| Searching.DequeueThenQueue | app.js:658-695 | after a dequeue and the expansion's queues, the frontier is the old one less the root plus the new entries |
| Searching.QueueAll | app.js:802 | queuing every expansion adds exactly those entries and keeps the heap order |
| Searching.DistanceChildren | app.js:790-802 | Dijkstra queues one entry per expansion, holding that expansion's chain |
| Searching.DistanceCountsLinks | app.js:794 | each queued `distance` is the number of moves in the entry's chain |
| Searching.SearchDijkstra | app.js:744-805 | `solveDijkstra`'s loop ends on a legal chain from the start, ending at the target iff the target is reachable |
| Searching.ScoredChildren | app.js:687-695 | A\* queues one entry per expansion, holding that expansion's chain |
| Searching.ScoreCountsLinks | app.js:690-692 | each queued `g` is the number of moves in the entry's chain, and `f` is `g` plus the heuristic distance to the target |
| Searching.SearchAStar | app.js:640-698 | `solveAStar`'s loop ends on a legal chain from the start, ending at the target iff the target is reachable |
| Searching.BuildPath | app.js:406-410 | the rebuild loop collects the chain's points back to, and excluding, the first one equal to the start |
| Searching.Search | app.js:347-840 | whichever algorithm runs, the search ends on a legal chain from the start, ending at the target iff the target is reachable |
| Mazes.Maze.constructor | app.js:150-195 | the maze keeps the grid size and the start; the target defaults to the bottom-right block; no solve or reset is running |
| Mazes.Maze.SetPlayerPosition | app.js:286-296 | the player moves to the point; `solved` is set when it is the target; `onSolved` fires once, only on the first arrival and only outside a solve |
| Mazes.Maze.MovePlayer | app.js:267-283 | the player moves to the neighbour exactly when the move is legal, and otherwise stays; `solved` follows its arrival at the target, and `onSolved` fires on the first legal arrival outside a solve |
| Mazes.Maze.GetAdjacents | app.js:252-264 | the loop returns exactly `Adjacents`: the in-bounds unvisited neighbours in table order |
| Mazes.Maze.OpenWalls | app.js:334-340 | the two faces of the wall between the block and `np` are opened |
| Mazes.Maze.GenerateStep | app.js:309-341 | one iteration of `generate` updates the stack, the visited set and the blocks as `GenerateBody` says |
| Mazes.Maze.GenerateIteration | app.js:309-341 | one iteration of `generate` keeps the generation invariant, and either reaches a new block or shrinks the stack |
| Mazes.Maze.GenerateLoop | app.js:306-343 | the loop ends with every block visited and the generation invariant holding against the blocks it started from |
| Mazes.Maze.PopShuffled | app.js:584-586 | shuffling the adjacents and popping yields `ShuffledLast` of them |
| Mazes.Maze.MultipleSolutionsStep | app.js:563-597 | one iteration of `generateMultipleSolutions` updates the stack, the visited set and the blocks as `MultipleSolutionsBody` says |
| Mazes.Maze.MultipleSolutionsIteration | app.js:563-597 | one iteration of `generateMultipleSolutions` keeps the generation invariant, and either reaches a new block or shrinks the stack |
| Mazes.Maze.MultipleSolutionsLoop | app.js:560-599 | the loop ends with every block visited and the generation invariant holding against the blocks it started from |
| Mazes.Maze.Generate | app.js:299-344 | after generation the open walls are the old ones plus `x*y - 1` carved walls (all new when the grid starts closed, as in `reset`); none is closed, the walls stay symmetric, and every block is reachable from the start |
| Mazes.Maze.GenerateMultipleSolutions | app.js:553-600 | the same for `generateMultipleSolutions`: the old open walls plus `x*y - 1` carved walls, none closed, every block reachable from the start |
| Mazes.Maze.Reset | app.js:218-249 | a reset starts exactly when no solve or reset is running. It then carves a perfect maze with `x*y - 1` open walls and every block reachable, puts the player on the start and clears the flags |
| Mazes.Maze.FinishSolve | app.js:403-436 | the rebuilt chain is walked from the player's position to its last cell; `solved` is set iff the walk passes the target; the blocks do not change and `onSolved` does not fire |
| Mazes.Maze.EndSolve | app.js:433-436 | the final step of a solve clears `solving` and changes nothing else |
| Mazes.Maze.WalkPath | app.js:424-431 | popping the path moves the player to its first entry and sets `solved` iff the target is among its entries |
| Mazes.Maze.Solve | app.js:347-437 | a solve starts exactly when no solve or reset is running; it then walks the player along a legal walk that ends at the target exactly when the target is reachable, without changing the blocks or firing `onSolved` |

## Left out

- The DOM is not modelled: block elements, CSS classes (`current`, `visited`, `path`, `generated`, `target`, `error`), the `dataset.index` counter and `addEphemeralClass` all leave no trace in the model.
- `whileAsync` and its timers are not modelled. Every loop it drives runs to completion inside one method call. So another call cannot interleave with a running solve or reset, and the `reseting` flag is never observed set.
- The path highlight animation (the first `whileAsync` after each rebuild) is only display and is left out.
- `Math.random` is not modelled. Its draws are parameters: `rand` for `generate`, and `shuffles` (one sequence of draws per step) for `generateMultipleSolutions`.
- `onSolved` is a ghost counter, `onSolvedCalls`, of the calls made since the last reset. The callback's own effects are outside the maze.
- `console.log`, `parseInt` in `Point` and `JSON.stringify` in `serialize` are left out. Points are integer pairs, and `Serialize` maps a point to the pair it stands for.
- The `keydown` handler (app.js:186-194) only calls `movePlayer` when no solve is running and the maze is not solved. Key codes are not modelled.
- `clearMaze`, `clearMazeAndReset` and `generateRandomEnd` are not part of this model. The first two only touch CSS classes apart from one `setPlayerPosition`. The third changes the target and regenerates, which needs a mutable target.
- Mazes.Maze.constructor: the source constructor leaves the blocks table empty and the player position unset until `reset`. The model starts with every wall closed and the player on the start so that `Valid` holds from construction.
- PriorityQueues.PriorityQueue.constructor: the comparator is modelled as the key difference `key(a) - key(b)`, which is the form of both call sites (app.js:643, app.js:747). Other comparators are not modelled.
- PriorityQueues.PriorityQueue.Dequeue: on an empty heap the source returns `undefined`, and this model returns `None`.
- Searching.SearchDijkstra: the contract does not state that the chain found is a shortest one.
- Searching.SearchAStar: the contract does not state that the chain found is a shortest one.
- Searching.SearchBreadthFirst: the contract does not state that the chain found is a shortest one.
- Mazes.Maze.Solve: all four `solve*` methods share their guard, rebuild and walk, and differ only in the search loop. They are modelled as one method taking an `Algorithm`.

## Findings

| source | as written | input that shows it | evidently intended | confidence | as-written member | corrected member |
|---|---|---|---|---|---|---|
| app.js:66-72 | when the left child is not smaller than the moved entry (`swapIdx` still null), `dequeue` swaps with the right child without comparing it to the moved entry | the heap-ordered `[0, 5, 6, 5]` (keys) dequeues to `[6, 5, 5]`, whose root is larger than both children | swap with the right child only when it is smaller than the moved entry and than the left child, so the heap stays ordered | not executed | PriorityQueues.DequeueAsWrittenBreaksOrder | PriorityQueues.PriorityQueue.Dequeue |
