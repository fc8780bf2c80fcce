# Maze engine model

A Dafny model of the engine inside a Swing maze game. The engine is the `MazePanel` class with its `Cell`, `Node` and `Terrain` helpers. It works on a grid of `COLS` × `ROWS` cells, and each cell has:

- four wall flags (top, right, bottom, left);
- a visited flag;
- a floor kind (dirt, grass, mud, water), whose traversal cost is 0, 1, 5 or 10;
- an optional "Start" or "EXIT" label.

The panel does two jobs:

- **Generating a maze.** It carves a spanning tree with randomized Prim's or Kruskal's algorithm. It then paints random floors, puts the start in the top-left corner and puts the exit at random in the rightmost third, on dirt.
- **Solving the maze.** It finds a way from the start to the exit with one of four solvers:
  - breadth-first search;
  - depth-first search with shuffled neighbours;
  - Dijkstra's algorithm, which orders its queue by cost so far;
  - A*, which orders its queue by cost so far plus the Manhattan distance to the exit.

How the model is laid out:

- The grid is one flat sequence. Cell `(x, y)` sits at index `y * COLS + x`, the same numbering the disjoint-set code uses. Cells are referred to by index.
- Randomness is a parameter:
  - `java.util.Random.nextInt` becomes a draw oracle `rnd: nat -> nat`, taken modulo the bound.
  - `nextDouble` becomes a `chance: nat -> real` per cell.
  - The exit position is given by two draws.
- Worker threads run to completion at once.
- The panel (`Panels`) ties everything together:
  - `GenerateMaze` and `Solve` work on an immutable `Panel` record holding the grid, `startCell`, `endCell`, `isWorking` and `currentPath`.
  - Both are guarded by `isWorking` just as the source is.

The main results:

- **Both generators.** Each produces a symmetric grid: every wall is seen the same way from both sides. Each reports `COLS * ROWS - 1` distinct walls, and the open sides of the result are exactly the sides those walls clear, so no other wall is touched. Every cell is reachable from the corner. Kruskal's generator additionally connects every pair of cells and opens only walls from its candidate list.
- **BFS and DFS.** Each reports a path exactly when start and exit are connected, and every reported path is an open path from the start to the exit. BFS's path is no longer than any other.
- **Dijkstra.** Its path costs exactly the reported cost, and no walk costing less than `Integer.MAX_VALUE` is cheaper. "No path found" means every walk costs at least that much.
- **A\*.** Its path is valid and costs at most the reported cost.
- **All four solvers.** Every cell marked visited is reachable from the start.

## Model

| member | source | states |
|---|---|---|
| Terrains.Cost | src/Terrain.java:4-7 | a floor costs nothing exactly when it is dirt, and never more than 10 |
| Terrains.KindsAreExactlyFour | src/Terrain.java:3-7 | there are exactly four distinct floor kinds and every kind is one of them |
| Terrains.CostIncreasing | src/Terrain.java:4-7 | a kind declared later costs strictly more, in both directions of the comparison |
| Cells.NewCell | src/Cell.java:4-15 | a new cell has its coordinates, all four walls, is unvisited, has a dirt floor and no label |
| Cells.SetTerrain | src/Cell.java:17-19 | `setTerrain` changes the floor and leaves walls, coordinates, visited flag and label alone |
| Cells.SetTerrainOverwrites | src/Cell.java:17-19 | setting the floor twice keeps only the second kind; setting the current kind changes nothing |
| Cells.Opposite | src/MazePanel.java:442-449 | the side a neighbour shares is a different side, two slots further round the wall array |
| Cells.OppositeUndoesStep | src/MazePanel.java:426-433 | a step and the step through the opposite side cancel out, and every step moves |
| Nodes.NewNode | src/Node.java:11-17 | a node keeps its cell and both costs, and its fCost exceeds its hCost by exactly its gCost |
| Nodes.CompareTo | src/Node.java:19-22 | `compareTo` is negative, zero or positive exactly when the first fCost is smaller, equal or larger |
| Nodes.CompareToIsAnOrder | src/Node.java:19-22 | the comparison is antisymmetric and transitive |
| Nodes.ZeroEstimateOrdersByCostSoFar | src/MazePanel.java:288-294 | for nodes built with no estimate, as Dijkstra builds them, the fCost order is the gCost order |
| Grids.IndexInRange | src/MazePanel.java:152-153 | the row-major number of an in-bounds position lies below `COLS * ROWS` |
| Grids.IndexInjective | src/MazePanel.java:152-153 | two in-bounds positions with the same row-major number are the same position |
| Grids.InitGrid | src/MazePanel.java:41-48 | a fresh grid has the requested size, each slot holds the cell at its own coordinates, and every cell is new |
| Grids.AllWallsSymmetric | src/MazePanel.java:41-48 | a fresh grid is symmetric: each side agrees with the neighbour's matching side |
| Grids.Neighbor | src/MazePanel.java:451-453 | the neighbour in a direction exists exactly when the shifted position is valid, and it lies at that position |
| Grids.NeighborBack | src/MazePanel.java:451-453 | the neighbour's neighbour through the opposite side is the cell itself |
| Grids.AccessibleNeighbors | src/MazePanel.java:426-433 | the list holds exactly the cells reachable through an open side, each once, in top-right-bottom-left order |
| Grids.AccessibleBothWays | src/MazePanel.java:426-433 | in a symmetric grid, a cell accessible from another can reach it back |
| Grids.RemoveWall | src/MazePanel.java:442-449 | exactly the given side of c and the opposite side of n lose their walls; nothing else about any cell changes |
| Grids.RemoveWallKeepsSymmetry | src/MazePanel.java:442-449 | opening a wall between a cell and its neighbour keeps the grid symmetric |
| Cells.OpenSide | src/MazePanel.java:444-447 | clearing one side of a cell leaves it open there and changes no other side, coordinate, flag, floor or label |
| Grids.SetVisited | src/MazePanel.java:114 | setting one cell's visited flag changes that flag and nothing else in the grid |
| Grids.SetTag | src/MazePanel.java:418 | labelling one cell gives it that label and changes nothing else in the grid |
| Grids.SetCellTerrain | src/MazePanel.java:423 | setting one cell's floor gives it that floor and changes nothing else in the grid |
| Grids.ResetVisited | src/MazePanel.java:455-461 | afterwards no cell is visited, and walls, floors and labels are unchanged |
| Randoms.NextInt | src/MazePanel.java:105 | a draw reduced to a bound is below it, and a draw already below the bound is kept |
| Randoms.Shuffle | src/MazePanel.java:146 | `Collections.shuffle` returns a permutation of its input |
| Randoms.ShuffleKeepsElements | src/MazePanel.java:146 | a shuffled list has the same members as the input |
| Randoms.ShuffleKeepsDistinct | src/MazePanel.java:146 | shuffling a list without repeats gives a list without repeats |
| DisjointSets.Init | src/MazePanel.java:469-472 | every element starts as its own root, so there are n separate sets |
| DisjointSets.Find | src/MazePanel.java:473-476 | `find` returns the root of the element; path compression keeps every element's root and the set of roots |
| DisjointSets.Union | src/MazePanel.java:477-481 | after `union(i, j)`, i's set is merged into j's root, other sets keep their roots, and a root is lost exactly when the sets differed |
| DisjointSets.SingleSet | src/MazePanel.java:467-482 | when every element has the same root there is exactly one set |
| EdgeLists.AllWalls | src/MazePanel.java:137-144 | the candidate list holds exactly the right and bottom walls between in-bounds cells, each once |
| EdgeLists.AllWallsCount | src/MazePanel.java:137-144 | the list has `ROWS*(COLS-1) + (ROWS-1)*COLS` walls, none in an empty grid |
| EdgeLists.PairListed | src/MazePanel.java:137-144 | every pair of neighbouring cells is separated by a listed wall, in one orientation |
| EdgeLists.PairListedOnce | src/MazePanel.java:137-144 | no two listed walls separate the same pair of cells |
| KruskalGenerator.KruskalLoop | src/MazePanel.java:151-166 | after the loop over all candidate walls, the open sides are exactly those the reported walls clear; the reported walls are distinct candidates, each joining one set, so sets plus openings number the cells; every candidate's two cells share a set; and every cell has an open path to its set's root |
| KruskalGenerator.KruskalStep | src/MazePanel.java:152-165 | one candidate wall keeps the invariant; it is opened and reported exactly when its two cells had different roots, and otherwise nothing changes |
| KruskalGenerator.Kruskal | src/MazePanel.java:134-168 | the generator opens exactly its reported walls, all distinct and from the candidate list, `COLS*ROWS - 1` of them; the result is symmetric and connects every pair of cells |
| PrimGenerator.AddWalls | src/MazePanel.java:435-440 | the frontier is extended, at most four walls are added, and exactly the walls from c to each in-bounds neighbour are added |
| PrimGenerator.Carve | src/MazePanel.java:111-114 | a side of a cell is walled after carving exactly when it was walled before and is not one of the two sides the wall clears (so closed walls elsewhere stay closed); the far cell becomes in the maze and no other visited flag, floor or label changes; symmetry is kept |
| PrimGenerator.Prim | src/MazePanel.java:91-125 | every cell ends in the maze; `COLS*ROWS - 1` walls are carved, each into a cell not yet reached and from a cell already reached; the open sides of the result are exactly those of the input plus the sides the carved walls clear; symmetry and floors are kept |
| PrimGenerator.PrimLoop | src/MazePanel.java:103-124 | the frontier loop runs until the wall list is empty and keeps the generator's invariant: layout kept, carved walls form a tree from the corner, and the open sides are exactly those the carved walls clear |
| PrimGenerator.PrimStep | src/MazePanel.java:104-123 | one draw keeps the invariant, strictly lowers four times the number of cells outside the maze plus the length of the wall list, and either carves nothing or appends exactly the drawn wall, the open sides staying exactly those the carved walls clear |
| PrimGenerator.PrimCarvedDistinct | src/MazePanel.java:111-114 | since each carved wall leads into a cell no earlier wall reached, no wall is carved twice |
| PrimGenerator.PrimConnects | src/MazePanel.java:91-125 | the openings Prim's generator records connect every cell to the corner |
| Placement.TerrainBands | src/MazePanel.java:402-413 | a chance value picks a floor exactly when it falls in that floor's band; the bands tile [0, 1) with widths 0.50, 0.25, 0.15 and 0.10 |
| Placement.TerrainMonotone | src/MazePanel.java:402-413 | a larger chance never gives a cheaper floor |
| Placement.PaintTerrain | src/MazePanel.java:402-413 | each cell gets the floor its draw picks; walls, visited flags and labels are unchanged |
| Placement.ExitBand | src/MazePanel.java:419 | with at least three columns the exit band `[COLS*2/3, COLS*2/3 + COLS/3)` is non-empty, lies inside the grid and misses the corner column |
| Placement.SetupStartAndExit | src/MazePanel.java:415-424 | placement fails exactly when there are no rows or fewer than three columns; otherwise start is the corner, labelled, and exit is a different cell in the band, labelled and on dirt, and nothing else changes |
| Placement.EveryExitCellReachable | src/MazePanel.java:419-421 | every cell of the exit band is chosen by some pair of draws |
| Paths.Reverse | src/MazePanel.java:390 | the reversed list has the same length and holds the elements in the opposite order |
| Paths.ReverseTwice | src/MazePanel.java:390 | reversing twice gives back the original list |
| Paths.ReversedPath | src/MazePanel.java:426-433 | in a symmetric grid an open path read backwards is an open path in the other direction |
| Paths.WiderPath | src/MazePanel.java:442-449 | opening more walls never breaks an open path |
| ParentChains.Chain | src/MazePanel.java:384-389 | the collected cells start at the given cell, each is followed by its parent, and the last has no parent |
| ParentChains.ReconstructPath | src/MazePanel.java:384-391 | the reconstructed path starts at a parentless cell, ends at the given cell, and each cell's parent comes just before it |
| ParentChains.ReconstructLink | src/MazePanel.java:384-391 | the path to a cell is the path to its parent followed by the cell |
| ParentChains.PathFromParents | src/MazePanel.java:384-391 | when every parent link is an open step and only the root has no parent, the reconstructed path is an open path from the root |
| Frontiers.Unseen | src/MazePanel.java:231-237 | the neighbours taken are exactly the listed neighbours not yet visited, without repeats |
| Frontiers.Discover | src/MazePanel.java:231-237 | the neighbour loop marks every listed neighbour visited, appends the new ones to the frontier and records the current cell as their parent, and only theirs |
| Frontiers.Expand | src/MazePanel.java:231-237 | expanding a cell keeps the search bookkeeping; the frontier becomes the rest plus the unvisited neighbours in order, and exactly those new neighbours get the current cell as parent |
| Frontiers.Exhausted | src/MazePanel.java:237-241 | when the frontier runs dry, the exit is unreachable, and the visited cells are exactly those reachable from the start |
| Frontiers.FoundPath | src/MazePanel.java:219-224 | when the exit is taken from the frontier, the reconstructed path leads from the start to it |
| BreadthFirst.Bfs | src/MazePanel.java:206-242 | BFS finds a path exactly when the exit is reachable; the path is open, starts at the start, ends at the exit and is no longer than any other; otherwise the visited cells are exactly the reachable ones |
| BreadthFirst.BfsExpand | src/MazePanel.java:218-237 | one poll keeps the bookkeeping and the level invariant, strictly grows the expanded set, and leaves the queue as its tail plus the unvisited accessible neighbours |
| BreadthFirst.BfsShortest | src/MazePanel.java:206-242 | every path from the start to the exit has more cells than the exit's level |
| BreadthFirst.BfsFound | src/MazePanel.java:219-224 | when BFS takes the exit, the reconstructed path is open, leads from start to exit and is a shortest one |
| DepthFirst.Dfs | src/MazePanel.java:244-283 | DFS finds a path exactly when the exit is reachable, and the path is open from the start to the exit; otherwise the visited cells are exactly the reachable ones |
| DepthFirst.DfsExpand | src/MazePanel.java:256-278 | one pop keeps the bookkeeping, strictly grows the expanded set, and leaves the stack without its top plus the unvisited shuffled neighbours |
| DepthFirst.ShuffledNeighbors | src/MazePanel.java:269-270 | the shuffled list holds exactly the accessible neighbours, each once |
| Costs.StepCost | src/MazePanel.java:317 | stepping onto a cell costs its floor: nothing exactly on dirt, at most 10 |
| Costs.ExtendCost | src/MazePanel.java:317 | one more step adds the cost of the cell stepped onto |
| Costs.PrefixCost | src/MazePanel.java:317 | a walk costs at least as much as any walk it begins with |
| Costs.CostBounds | src/MazePanel.java:317 | a walk costs at most 10 per step, and nothing when it steps only on dirt |
| Costs.Heuristic | src/MazePanel.java:379-382 | the estimate is 0 without an exit; otherwise it is 0 exactly at the exit and bounds both coordinate differences |
| Costs.HeuristicStep | src/MazePanel.java:379-382 | the estimate is symmetric, and one open step changes it by exactly one |
| Costs.HeuristicAlongPath | src/MazePanel.java:379-382 | the estimate never exceeds the number of steps of an open path to the exit |
| Costs.Poll | src/MazePanel.java:298 | `poll` takes an entry whose priority is no larger than any other's |
| WeightedSearch.Estimate | src/MazePanel.java:367 | Dijkstra queues no estimate; A* queues the Manhattan distance to the exit, which is 0 exactly at the exit; either estimate is at most the number of steps of every open path to the exit |
| WeightedSearch.Entry | src/MazePanel.java:320-321 | a queued node records the cell and its new distance and is built by the constructor |
| WeightedSearch.DropStale | src/MazePanel.java:302 | skipping a node whose cost exceeds the cell's current distance loses no cell the search still has to reach |
| WeightedSearch.Relax | src/MazePanel.java:316-323 | relaxing a cell's neighbours only lowers distances; every cell whose distance fell is an accessible neighbour, now at the current cell's distance plus its floor cost, with the current cell as parent and a node for it appended to the queue; every other cell keeps its parent entry; every cell ends queued or relaxed |
| WeightedSearch.RelaxNeighbor | src/MazePanel.java:317-322 | one neighbour keeps the relaxation invariant, and when the cost through the current cell is not lower nothing changes |
| WeightedSearch.ChainPath | src/MazePanel.java:384-391 | the path reconstructed for any reached cell is an open path from the start to it |
| WeightedSearch.ChainCost | src/MazePanel.java:316-321 | the reconstructed path to a reached cell costs at most that cell's distance |
| WeightedSearch.Exhausted | src/MazePanel.java:297-327 | when the queue runs dry, every walk from start to exit costs at least `Integer.MAX_VALUE` |
| WeightedSearch.Optimal | src/MazePanel.java:297-314 | when Dijkstra takes the exit's node with the least cost, no walk to the exit costing less than `Integer.MAX_VALUE` is cheaper |
| WeightedSearch.Arrive | src/MazePanel.java:309-314 | on reaching the exit, the reconstructed path is valid and costs at most the node's cost; for Dijkstra it costs exactly that and is optimal |
| WeightedSearch.SearchLoop | src/MazePanel.java:298-324 | from any state keeping the search invariant, the loop ends with a valid route to the visited exit or with no walk from start to exit costing less than `Integer.MAX_VALUE`; every visited cell is reachable from the start |
| WeightedSearch.VisitedReachable | src/MazePanel.java:305 | every cell marked visited is reachable from the start |
| WeightedSearch.Turn | src/MazePanel.java:298-323 | one loop turn either reports a valid route to the visited exit, or keeps the invariant and strictly shrinks the pair (sum of distances, queue length) |
| WeightedSearch.Search | src/MazePanel.java:285-375 | the shared engine reports a valid path to the exit costing at most the reported cost, exact and optimal for Dijkstra; "no path" means no walk costs less than `Integer.MAX_VALUE` |
| WeightedSearch.Dijkstra | src/MazePanel.java:285-328 | Dijkstra's path costs exactly the reported cost and is no dearer than any walk costing less than `Integer.MAX_VALUE`; visited cells are reachable |
| WeightedSearch.AStar | src/MazePanel.java:330-375 | A*'s path is valid and costs at most the reported cost; "no path" means no walk costs less than `Integer.MAX_VALUE`; visited cells are reachable |
| Panels.NewPanel | src/MazePanel.java:21-26 | a new panel is idle, has no start or exit, and holds a fresh grid of the requested size |
| Panels.LabelsSelect | src/MazeGame.java:148 | the label "Kruskal's" that the menu passes selects Kruskal's generator at the `contains("Kruskal")` test, and "Prim's" does not |
| Panels.Contains | src/MazePanel.java:66 | `String.contains`: a part can occur only if it is no longer than the string, and any position where it occurs makes the test true |
| Panels.ContainsTrivial | src/MazePanel.java:66 | every string contains the empty string and itself |
| Panels.SameWallsConnect | src/MazePanel.java:402-424 | painting floors and placing labels keep which cells are connected, because the walls stay the same |
| Panels.CarveMaze | src/MazePanel.java:66-70 | the chosen generator gives a symmetric grid with every cell reachable from the corner; it reports `COLS*ROWS - 1` distinct walls, and the open sides of the result are exactly the sides those walls clear; Kruskal's walls come from the candidate list; Prim's generator fails exactly on an empty grid |
| Panels.GenerateMaze | src/MazePanel.java:52-82 | a busy panel ignores the call; otherwise the panel stays busy for good exactly when there are no rows or fewer than three columns, and else ends idle with start in the corner, exit on dirt with its column in `[COLS*2/3, COLS*2/3 + COLS/3)`, every cell reachable from the start and none visited; its open sides are exactly those cleared by the `COLS*ROWS - 1` distinct reported walls |
| Panels.CanSolve | src/MazePanel.java:173 | a solve request runs only on an idle panel with a start; on a consistent panel that also means an exit, both in the grid, and a symmetric grid (the same guard is at lines 179, 185 and 191) |
| Panels.WithVisited | src/MazePanel.java:305 | writing a solver's visited flags back sets each cell's flag and leaves layout, walls, floors and labels alone |
| Panels.Solve | src/MazePanel.java:172-201 | a busy panel or one without a start ignores the call; otherwise the panel ends idle with walls and floors unchanged and the solver's path: empty exactly when BFS/DFS find the exit unreachable, shortest for BFS, cheapest for Dijkstra |

## Left out

- Rendering is left out, because it has no effect on the maze. This covers `paintComponent`, `drawTerrain`, `drawWalls`, colours, `repaint`, `sleep`, the log area and `currentProcessing`.
- Threads and the `isWorking` race are left out. Each worker is modelled as running to its end before the next call. The source sets `isWorking = true` inside the thread, so two quick clicks could in fact start two workers; the model does not capture that.
- Wall is not part of this model. It appears only as the record `Wall(cell1, cell2, direction)`, whose fields the source reads.
- `Node.parent` and `Cell.parent` are left out, because they are never read. Parent links live in the solvers' maps.
- Random draws are left out: `nextDouble` is a real-valued oracle and `nextInt(n)` is a draw modulo `n`. No claim is made about distributions.
- `Collections.shuffle` is modelled as a Fisher–Yates shuffle over the draw oracle. DFS uses draws 4k onwards for its k-th shuffle, because a cell has at most four neighbours.
- Java `int` overflow is left out. `dist + cost` in the weighted solvers and `y * COLS + x` are computed without wrap-around. `Integer.MAX_VALUE` is kept only as the "unreached" distance.
- WeightedSearch.Dijkstra: optimality and "no path" are stated only against walks costing less than `Integer.MAX_VALUE`. Above that the source's `int` arithmetic is not modelled.
- WeightedSearch.AStar: the path is not claimed to be optimal, and the exit is not claimed to be reached by the cheapest walk. The Manhattan estimate ignores floor costs and is not admissible for cost-0 dirt floors, so no such promise holds.
- DepthFirst.Dfs: no claim about path length, because depth-first order gives none.
- Costs.Poll: `PriorityQueue.poll` breaks ties between equal priorities in an unspecified way. The model takes the first minimal entry, and every proof uses only minimality.
- Panels.GenerateMaze: when placement throws after labelling the corner, the model records the start cell but not its "Start" label.
- Negative `COLS` or `ROWS` are left out, because the dimensions are natural numbers. The source would throw already in the constructor.
- Solvers take the start and exit cells as indices. The source's `endCell == null` case cannot reach a solver: the only way to get a start without an exit is a placement crash, and that leaves the panel busy. `Panels.Consistent` records that invariant.
- The visited flags a solver leaves behind are returned as a sequence and written back into the grid with `Panels.WithVisited`.
