# Maze solver: BFS and A* over an occupancy grid

This project models the search engine of a small maze-solver dashboard. The maze is a
rectangular grid of integers. A cell whose value is exactly 1 is a wall; every other
value is free. From a cell one may move one unit East, West, South or North onto a free
cell inside the grid. The engine has these parts:

- `get_neighbors` lists the free neighbours of a cell, in the order E, W, S, N.
- `reconstruct_path` walks the parent links back from the goal and reverses the walk.
- `bfs_search` is breadth-first search. It uses a FIFO queue and marks cells visited when
  they are enqueued.
- `a_star_search` is best-first search with the Manhattan heuristic. Its heap holds
  `(f, g, (r, c))` entries and pops them in tuple order. It has no closed set: a cell is
  pushed again whenever its g strictly improves, and a stale entry is expanded with the
  g it was pushed with.
- The dashboard's "Steps" column is `len(path) - 1`, or 0 when there is no path. The
  dashboard runs both solvers on the same maze.

Both solvers count one expansion per pop, and that includes the pop of the goal.

The module-level `MAZE` global becomes an explicit `grid` parameter to every operation.
Dafny sequences and maps are values, so neither solver can change the grid.

The model is imperative, mirroring the Python:

- `GetNeighbors`, `ReconstructPath`, `BfsSearch`, `AStarSearch` and the heap pop are
  methods with loops.
- The deque, the heap, the `parent` and `g_cost` dictionaries and the visited set are
  local `seq`, `map` and `set` variables.
- Ghost state carries the proofs: the BFS depth map and enqueue log, and the A* set of
  settled cells.

A* needs no `decreases *`: its termination is proved. Each pass of `while pq` either
settles a cell it has not settled before, which shrinks the set of grid cells not yet
settled, or pops a stale entry of a settled cell. Such a pop pushes nothing, so the
heap gets shorter.

Modules, one per file:

- `Wrappers` (wrappers.dfy): `Option`.
- `Grid` (grid.dfy): cells, walls, moves, `GetNeighbors`.
- `Reach` (reach.dfy): routes, reachability within k moves, and the lemmas relating them.
- `PathReconstruction` (path.dfy): `ReconstructPath`.
- `Bfs` (bfs.dfy): `BfsSearch` and its proof.
- `AStar` (astar.dfy): heap entries, Manhattan heuristic, `HeapPop`, `Relax` and
  `AStarSearch` with its proof.
- `Report` (report.dfy): `Steps` and the comparison of the two solvers.

## Model

| member | source | states |
|---|---|---|
| Grid.MoveIndex | 24PWBCS1078_B_4_FALL25.DOCX/app.py:53 | the position of a move in the list E, W, S, N is below 4 exactly when the two cells are adjacent, and that entry of the list is the offset between them |
| Grid.GetNeighbors | 24PWBCS1078_B_4_FALL25.DOCX/app.py:51-57 | a cell is returned exactly when it is adjacent to (r, c), inside the grid and not a wall; the cells come in the order E, W, S, N, so none repeats and there are at most four; (r, c) itself is never checked |
| PathReconstruction.Reversed | 24PWBCS1078_B_4_FALL25.DOCX/app.py:66 | the result has the same length, and element i is element len-1-i of the input |
| PathReconstruction.ReconstructPath | 24PWBCS1078_B_4_FALL25.DOCX/app.py:59-66 | when the parent chain from goal reaches start, the path begins at start and ends at goal; each later cell is not start and has the previous cell as its parent; start == goal gives [start] |
| PathReconstruction.PathLengthBound | 24PWBCS1078_B_4_FALL25.DOCX/app.py:59-66 | along a reconstructed path the rank rises with every parent link, so the path has at most rank[goal] moves |
| Reach.RouteWithin | 24PWBCS1078_B_4_FALL25.DOCX/app.py:53-56 | a route of n moves shows its end is reachable within n moves |
| Reach.WithinRoute | 24PWBCS1078_B_4_FALL25.DOCX/app.py:53-56 | conversely, a cell reachable within k moves has a route of at most k moves |
| Reach.WithinUniverse | 24PWBCS1078_B_4_FALL25.DOCX/app.py:55 | every reachable cell is the start or a cell of the grid |
| Reach.ClosedHoldsReachable | 24PWBCS1078_B_4_FALL25.DOCX/app.py:53-56 | a set of cells that holds the start and is closed under moves holds every reachable cell |
| Reach.RouteAtLeast | 24PWBCS1078_B_4_FALL25.DOCX/app.py:53-56 | when the goal is not reachable in fewer than d moves, every route to it has at least d moves |
| Bfs.BfsSearch | 24PWBCS1078_B_4_FALL25.DOCX/app.py:87-102 | a returned path is a route from start to goal through free cells, and no route is shorter; None means the goal is unreachable; the expansion count is at least 1 and at most the number of cells reachable from start; on None it equals that number, start included |
| Bfs.Enqueue | 24PWBCS1078_B_4_FALL25.DOCX/app.py:98-101 | visiting an unvisited neighbour keeps the loop invariant: no cell is enqueued twice, its parent is one move away and one level shallower, its depth is its distance, and the queue stays sorted by depth |
| Bfs.AdvanceFront | 24PWBCS1078_B_4_FALL25.DOCX/app.py:92-101 | after a cell of depth m is expanded, the next cell in the queue has depth m or m + 1, and every cell within that many moves is already visited |
| Bfs.RouteFound | 24PWBCS1078_B_4_FALL25.DOCX/app.py:95-96 | the path read off the parent links when the goal is dequeued is a shortest route, and the count so far is at most the number of reachable cells |
| Bfs.Exhausted | 24PWBCS1078_B_4_FALL25.DOCX/app.py:92-102 | when the queue runs dry, the goal is unreachable and the expansion count equals the number of reachable cells |
| AStar.EntryLeTotal | 24PWBCS1078_B_4_FALL25.DOCX/app.py:75 | tuple order on heap entries is total and antisymmetric, so a least entry is unique |
| AStar.Manhattan | 24PWBCS1078_B_4_FALL25.DOCX/app.py:82 | the heuristic is 0 exactly at the goal |
| AStar.ManhattanConsistent | 24PWBCS1078_B_4_FALL25.DOCX/app.py:82 | one move changes the heuristic by at most one in either direction |
| AStar.ManhattanAdmissible | 24PWBCS1078_B_4_FALL25.DOCX/app.py:82 | the heuristic never exceeds the number of moves of any route from the cell to the goal |
| AStar.HeapPop | 24PWBCS1078_B_4_FALL25.DOCX/app.py:75 | the popped entry is in the heap and least in tuple order; the rest is the heap without that one entry |
| AStar.Relax | 24PWBCS1078_B_4_FALL25.DOCX/app.py:79-84 | a neighbour's g_cost is created or strictly lowered to g + 1, or left alone, and nothing else changes; an entry (g + 1 + h, g + 1, neighbour) is appended and the parent set exactly when g_cost changes |
| AStar.LinksWithin | 24PWBCS1078_B_4_FALL25.DOCX/app.py:80-84 | every recorded g_cost is achieved: following the parent links, the cell is reachable within g_cost moves |
| AStar.Frontier | 24PWBCS1078_B_4_FALL25.DOCX/app.py:73-84 | with the consistent heuristic, while a cell within k moves is unsettled, the heap holds an entry of some unsettled cell, not necessarily that one, whose f is at most k plus that cell's heuristic |
| AStar.Settle | 24PWBCS1078_B_4_FALL25.DOCX/app.py:75 | a least entry of a cell not popped before carries that cell's exact distance as its g: its g equals the recorded g_cost, the cell is reachable from the start in g moves, and in no fewer |
| AStar.SettleNoShorter | 24PWBCS1078_B_4_FALL25.DOCX/app.py:75 | a least entry of a cell not popped before has g equal to the recorded g_cost, and no route to that cell has fewer moves |
| AStar.RelaxNeighbors | 24PWBCS1078_B_4_FALL25.DOCX/app.py:78-84 | relaxing all neighbours of a popped cell restores the outer invariant; a stale pop of a cell expanded before pushes nothing |
| AStar.AStarRouteFound | 24PWBCS1078_B_4_FALL25.DOCX/app.py:76-77 | the path read off the parent links when the goal is popped is a shortest route |
| AStar.AStarExhausted | 24PWBCS1078_B_4_FALL25.DOCX/app.py:73-85 | when the heap runs dry, the goal is unreachable and at least as many pops as reachable cells have happened |
| AStar.AStarSearch | 24PWBCS1078_B_4_FALL25.DOCX/app.py:68-85 | a returned path is a shortest route from start to goal; None means the goal is unreachable, and then the count is at least the number of reachable cells; the count is at least 1; the loop terminates |
| Report.Steps | 24PWBCS1078_B_4_FALL25.DOCX/app.py:127 | the moves of the path, one fewer than its cells; 0 for no path or an empty one |
| Report.ShortestSteps | 24PWBCS1078_B_4_FALL25.DOCX/app.py:127 | the steps of a shortest route are exactly the distance: the goal is reachable in that many moves and in no fewer, and no route reports fewer steps |
| Report.ShortestStepsAgree | 24PWBCS1078_B_4_FALL25.DOCX/app.py:127 | two shortest routes between the same cells report the same steps |
| Report.CompareSolvers | 24PWBCS1078_B_4_FALL25.DOCX/app.py:116-127 | A* and BFS agree on whether a path exists, which is exactly when the goal is reachable; both returned paths are shortest routes, and they report the same steps, which are exactly the distance from start to goal (reachable in that many moves and in no fewer, so no more than any route has), and 0 when start is the goal; when there is no path, BFS expands exactly the reachable cells and A* at least as many |

## Left out

- The first Streamlit script (app.py:1-24) is not modelled. It is a sidebar configuration that never calls a solver.
- Loading the maze, start and goal from `maze_data.pkl`, and the `st.stop()` when the file is missing (app.py:39-48), are file I/O. The grid, start and goal are parameters instead.
- Preconditions: the grid is assumed rectangular (the `Maze` type), because the bounds test reads the width from row 0. Start and goal are not required to be free or in bounds, because the code never checks them. The only checks are on the neighbours `get_neighbors` returns, so a route always begins at `start` wherever it lies.
- Wall-clock timing with `time.time()` and `round(runtime, 6)` (app.py:121-123, 129) is non-deterministic and floating-point, so it is not modelled.
- The page setup, title and "Run Algorithms" button with its `if run_btn:` guard (app.py:104-113), and the drawing, tables and chart (app.py:131-159), are UI rendering and are not modelled; Report.CompareSolvers runs both solvers unconditionally. Line 149 evaluates `len(path) - 1` even when `path` is None, which would raise in the UI; only the guarded expression of line 127 is modelled.
- AStar.HeapPop: `heapq`'s binary-heap layout is not modelled. The heap is an unordered sequence, scanned for a least entry in tuple order. Because that order is total, the entry popped is the same one `heappop` returns; where the rest ends up in the sequence is not.
- Bfs.BfsSearch, AStar.AStarSearch: neither contract says which shortest path is returned when several exist. That depends on the neighbour order and the heap order, which the model follows but does not state as a property.
- Report.CompareSolvers: timing and the per-solver columns other than steps and expansions are outside the model.
