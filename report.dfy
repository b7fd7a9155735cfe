/** The comparison the dashboard draws: both solvers on the same maze, and the steps each reports. */
module Report {
  import opened Wrappers
  import opened Grid
  import opened Reach
  import opened Bfs
  import opened AStar

  /** The "Steps" column: the moves of the path, or 0 when there is no path or it is empty. */
  function Steps(path: Option<seq<Pos>>): (n: nat)
    ensures path.Some? && path.value != [] ==> n + 1 == |path.value|
    ensures path.None? || path.value == [] ==> n == 0
  {
    if path.Some? && |path.value| > 0 then |path.value| - 1 else 0
  }

  /** The steps of a shortest route are the distance: reachable in that many moves and in no fewer. */
  lemma ShortestSteps(grid: Maze, start: Pos, goal: Pos, route: seq<Pos>)
    requires IsShortestRoute(grid, start, goal, route)
    ensures Within(grid, start, goal, Steps(Some(route)))
    ensures NoShorter(grid, start, goal, Steps(Some(route)))
    ensures forall other :: IsRoute(grid, start, goal, other) ==> Steps(Some(route)) <= Steps(Some(other))
  {
    RouteWithin(grid, start, goal, route);
    var d := |route| - 1;
    if d > 0 && Within(grid, start, goal, d - 1) {
      WithinRoute(grid, start, goal, d - 1);
      assert false;
    }
  }

  /** Any two shortest routes between the same cells report the same steps. */
  lemma ShortestStepsAgree(grid: Maze, start: Pos, goal: Pos, p: seq<Pos>, q: seq<Pos>)
    requires IsShortestRoute(grid, start, goal, p) && IsShortestRoute(grid, start, goal, q)
    ensures Steps(Some(p)) == Steps(Some(q))
  {
    ShortestSteps(grid, start, goal, p);
    ShortestSteps(grid, start, goal, q);
  }

  /**
   * The "Run Algorithms" comparison without timing or drawing: A* and BFS on the
   * same maze agree on whether a path exists and on its steps.
   */
  method CompareSolvers(grid: Maze, start: Pos, goal: Pos)
    returns (aStarPath: Option<seq<Pos>>, aStarExpanded: nat, bfsPath: Option<seq<Pos>>, bfsExpanded: nat)
    ensures aStarPath.Some? <==> bfsPath.Some?
    ensures aStarPath.Some? <==> Reachable(grid, start, goal)
    ensures aStarPath.Some? ==> IsShortestRoute(grid, start, goal, aStarPath.value)
    ensures bfsPath.Some? ==> IsShortestRoute(grid, start, goal, bfsPath.value)
    ensures Steps(aStarPath) == Steps(bfsPath)
    ensures bfsPath.Some? ==> Within(grid, start, goal, Steps(bfsPath)) && NoShorter(grid, start, goal, Steps(bfsPath))
    ensures forall route :: IsRoute(grid, start, goal, route) ==> Steps(bfsPath) <= |route| - 1
    ensures start == goal ==> Steps(aStarPath) == 0 && Steps(bfsPath) == 0
    ensures 1 <= bfsExpanded <= |ReachableCells(grid, start)|
    ensures bfsPath.None? ==> aStarExpanded >= bfsExpanded == |ReachableCells(grid, start)|
  {
    aStarPath, aStarExpanded := AStarSearch(grid, start, goal);
    bfsPath, bfsExpanded := BfsSearch(grid, start, goal);
    if aStarPath.Some? {
      assert Reachable(grid, start, goal);
      ShortestStepsAgree(grid, start, goal, aStarPath.value, bfsPath.value);
      ShortestSteps(grid, start, goal, bfsPath.value);
      if start == goal {
        assert IsRoute(grid, start, goal, [start]);
      }
    }
  }
}
