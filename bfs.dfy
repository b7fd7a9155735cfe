/** bfs_search: breadth-first search with a FIFO queue and a visited set. */
module Bfs {
  import opened Wrappers
  import opened Grid
  import opened Reach
  import opened PathReconstruction

  /** The queue is the part of the log not yet dequeued. */
  ghost predicate QueueIsTail(queue: seq<Pos>, log: seq<Pos>)
  {
    |queue| <= |log| && queue == log[|log| - |queue|..]
  }

  /** No cell is enqueued twice. */
  ghost predicate Distinct(log: seq<Pos>)
  {
    forall i, j :: 0 <= i < j < |log| ==> log[i] != log[j]
  }

  /** Parent links lead back to the start, one move and one depth level at a time. */
  ghost predicate ParentLinks(grid: Maze, start: Pos, parent: map<Pos, Option<Pos>>, depth: map<Pos, nat>)
    requires parent.Keys == depth.Keys
  {
    forall v {:trigger parent[v]} :: v in depth && v != start ==>
      && parent[v].Some? && parent[v].value in depth
      && Step(grid, parent[v].value, v) && depth[v] == depth[parent[v].value] + 1
  }

  /** Each visited cell's depth is its distance from the start. */
  ghost predicate ExactDepths(grid: Maze, start: Pos, depth: map<Pos, nat>)
  {
    forall v :: v in depth ==> Within(grid, start, v, depth[v]) && NoShorter(grid, start, v, depth[v])
  }

  /** Cells enter the queue in order of depth. */
  ghost predicate SortedByDepth(log: seq<Pos>, depth: map<Pos, nat>)
  {
    forall i, j :: 0 <= i <= j < |log| && log[i] in depth && log[j] in depth ==> depth[log[i]] <= depth[log[j]]
  }

  /**
   * The state of the search between two dequeues. `log` (ghost) lists every
   * cell ever enqueued, in order; the queue is the part of it not yet dequeued.
   * `depth` (ghost) is the number of moves of the route found to each cell.
   */
  ghost predicate Invariant(grid: Maze, start: Pos, queue: seq<Pos>,
                            parent: map<Pos, Option<Pos>>, visited: set<Pos>,
                            depth: map<Pos, nat>, log: seq<Pos>)
  {
    && Recorded(start, queue, parent, visited, depth, log)
    && ParentLinks(grid, start, parent, depth)
    && ExactDepths(grid, start, depth)
    && SortedByDepth(log, depth)
    && visited <= Universe(grid, start)
  }

  /**
   * The bookkeeping of the search: the log starts at `start`, has no repeats and
   * lists exactly the visited cells, which are also the keys of `parent` and `depth`.
   */
  ghost predicate Recorded(start: Pos, queue: seq<Pos>, parent: map<Pos, Option<Pos>>, visited: set<Pos>,
                           depth: map<Pos, nat>, log: seq<Pos>)
  {
    && QueueIsTail(queue, log)
    && Distinct(log)
    && (forall v :: v in visited <==> v in log)
    && parent.Keys == visited && depth.Keys == visited
    && |log| > 0 && log[0] == start && depth[start] == 0 && parent[start] == None
  }

  /** The cells dequeued so far (the first `done` of the log) have all their moves visited. */
  ghost predicate Expanded(grid: Maze, log: seq<Pos>, done: int, visited: set<Pos>)
  {
    forall i, n :: 0 <= i < done && 0 <= i < |log| && Step(grid, log[i], n) ==> n in visited
  }

  /** Every cell within `m` moves of the start has been visited. */
  ghost predicate Covers(grid: Maze, start: Pos, m: nat, visited: set<Pos>)
  {
    forall v :: Within(grid, start, v, m) ==> v in visited
  }

  /** No visited cell is deeper than `bound`. */
  ghost predicate DepthAtMost(depth: map<Pos, nat>, bound: nat)
  {
    forall v :: v in depth ==> depth[v] <= bound
  }

  /** None of the first `done` cells of the log is the goal. */
  ghost predicate GoalNotDequeued(log: seq<Pos>, done: int, goal: Pos)
  {
    forall i :: 0 <= i < done && 0 <= i < |log| ==> log[i] != goal
  }

  /** The loop invariant of `while queue`. */
  ghost predicate Searching(grid: Maze, start: Pos, goal: Pos, queue: seq<Pos>, parent: map<Pos, Option<Pos>>,
                            visited: set<Pos>, depth: map<Pos, nat>, log: seq<Pos>, expanded: nat)
  {
    && Invariant(grid, start, queue, parent, visited, depth, log)
    && expanded == |log| - |queue|
    && Expanded(grid, log, expanded, visited)
    && GoalNotDequeued(log, expanded, goal)
    && (queue != [] ==> DepthAtMost(depth, depth[queue[0]] + 1) && Covers(grid, start, depth[queue[0]], visited))
    && (queue == [] ==> expanded > 0)
  }

  /**
   * The loop invariant of `for neighbor in get_neighbors(*current)`: the first
   * `done` neighbours are visited, `current` (the last dequeued cell) is expanded
   * up to that point.
   */
  ghost predicate Visiting(grid: Maze, start: Pos, goal: Pos, current: Pos, neighbors: seq<Pos>, done: int,
                           queue: seq<Pos>, parent: map<Pos, Option<Pos>>, visited: set<Pos>,
                           depth: map<Pos, nat>, log: seq<Pos>, expanded: nat)
  {
    && Invariant(grid, start, queue, parent, visited, depth, log)
    && Expanding(grid, start, goal, current, neighbors, done, queue, visited, depth, log, expanded)
  }

  /** The part of Visiting about the cell being expanded and the neighbours done so far. */
  ghost predicate Expanding(grid: Maze, start: Pos, goal: Pos, current: Pos, neighbors: seq<Pos>, done: int,
                            queue: seq<Pos>, visited: set<Pos>, depth: map<Pos, nat>, log: seq<Pos>, expanded: nat)
  {
    && expanded == |log| - |queue| && 0 < expanded && log[expanded - 1] == current
    && current != goal && current in depth
    && Expanded(grid, log, expanded - 1, visited)
    && GoalNotDequeued(log, expanded, goal)
    && 0 <= done <= |neighbors|
    && (forall j :: 0 <= j < done ==> neighbors[j] in visited)
    && (forall v :: v in neighbors <==> Step(grid, current, v))
    && DepthAtMost(depth, depth[current] + 1)
    && Covers(grid, start, depth[current], visited)
  }

  method BfsSearch(grid: Maze, start: Pos, goal: Pos) returns (path: Option<seq<Pos>>, expanded: nat)
    ensures path.Some? ==> IsShortestRoute(grid, start, goal, path.value)
    ensures path.None? ==> !Reachable(grid, start, goal)
    ensures 1 <= expanded <= |ReachableCells(grid, start)|
    ensures path.None? ==> expanded == |ReachableCells(grid, start)|
  {
    var queue := [start];
    var parent := map[start := None];
    var visited := {start};
    expanded := 0;
    ghost var depth := map[start := 0];
    ghost var log := [start];
    Begin(grid, start, goal);
    while queue != []
      invariant Searching(grid, start, goal, queue, parent, visited, depth, log, expanded)
      invariant visited <= Universe(grid, start)
      decreases Universe(grid, start) - visited, |queue|
    {
      expanded := expanded + 1;
      ghost var waiting := queue;
      var current := queue[0];
      queue := queue[1..];
      if current == goal {
        var p := ReconstructPath(parent, goal, start, depth);
        RouteFound(grid, start, goal, waiting, parent, visited, depth, log, expanded, p);
        return Some(p), expanded;
      }
      var neighbors := GetNeighbors(grid, current.0, current.1);
      Dequeue(grid, start, goal, neighbors, waiting, parent, visited, depth, log, expanded);
      ghost var visited0, queue0 := visited, queue;
      for i := 0 to |neighbors|
        invariant Visiting(grid, start, goal, current, neighbors, i, queue, parent, visited, depth, log, expanded)
        invariant visited0 <= visited <= Universe(grid, start)
        invariant visited == visited0 ==> queue == queue0
      {
        var neighbor := neighbors[i];
        if neighbor !in visited {
          Enqueue(grid, start, goal, current, neighbors, i, queue, parent, visited, depth, log, expanded);
          visited := visited + {neighbor};
          parent := parent[neighbor := Some(current)];
          queue := queue + [neighbor];
          depth := depth[neighbor := depth[current] + 1];
          log := log + [neighbor];
        } else {
          Skip(grid, start, goal, current, neighbors, i, queue, parent, visited, depth, log, expanded);
        }
      }
      Advance(grid, start, goal, current, neighbors, queue, parent, visited, depth, log, expanded);
      ProperSubsetShrinks(Universe(grid, start), visited0, visited);
    }
    path := None;
    Exhausted(grid, start, goal, parent, visited, depth, log, expanded);
  }

  lemma Begin(grid: Maze, start: Pos, goal: Pos)
    ensures Searching(grid, start, goal, [start], map[start := None], {start}, map[start := 0], [start], 0)
    ensures {start} <= Universe(grid, start)
  {
  }

  /** Dequeuing a cell that is not the goal starts its expansion. */
  lemma Dequeue(grid: Maze, start: Pos, goal: Pos, neighbors: seq<Pos>, queue: seq<Pos>,
                parent: map<Pos, Option<Pos>>, visited: set<Pos>, depth: map<Pos, nat>, log: seq<Pos>, expanded: nat)
    requires expanded >= 1 && queue != []
    requires Searching(grid, start, goal, queue, parent, visited, depth, log, expanded - 1)
    requires queue[0] != goal
    requires forall v :: v in neighbors <==> Step(grid, queue[0], v)
    ensures Visiting(grid, start, goal, queue[0], neighbors, 0, queue[1..], parent, visited, depth, log, expanded)
  {
    assert log[expanded - 1] == queue[0];
    assert QueueIsTail(queue[1..], log);
  }

  /** A neighbour that is already visited changes nothing. */
  lemma Skip(grid: Maze, start: Pos, goal: Pos, current: Pos, neighbors: seq<Pos>, i: nat, queue: seq<Pos>,
             parent: map<Pos, Option<Pos>>, visited: set<Pos>, depth: map<Pos, nat>, log: seq<Pos>, expanded: nat)
    requires Visiting(grid, start, goal, current, neighbors, i, queue, parent, visited, depth, log, expanded)
    requires i < |neighbors| && neighbors[i] in visited
    ensures Visiting(grid, start, goal, current, neighbors, i + 1, queue, parent, visited, depth, log, expanded)
  {
  }

  /** After the last neighbour, `current` is fully expanded and the next front is covered. */
  lemma Advance(grid: Maze, start: Pos, goal: Pos, current: Pos, neighbors: seq<Pos>, queue: seq<Pos>,
                parent: map<Pos, Option<Pos>>, visited: set<Pos>, depth: map<Pos, nat>, log: seq<Pos>, expanded: nat)
    requires Visiting(grid, start, goal, current, neighbors, |neighbors|, queue, parent, visited, depth, log, expanded)
    ensures Searching(grid, start, goal, queue, parent, visited, depth, log, expanded)
  {
    assert Expanded(grid, log, expanded, visited) by {
      forall j, n | 0 <= j < expanded && 0 <= j < |log| && Step(grid, log[j], n) ensures n in visited {
        if j == expanded - 1 {
          assert n in neighbors;
        }
      }
    }
    if queue != [] {
      AdvanceFront(grid, start, queue, visited, depth, log, depth[current]);
    }
  }

  /**
   * Marking `neighbor` visited when it is enqueued keeps the invariant: it gets
   * depth m + 1, and no shorter route to it exists because every cell within m
   * moves is already visited.
   */
  lemma Enqueue(grid: Maze, start: Pos, goal: Pos, current: Pos, neighbors: seq<Pos>, i: nat, queue: seq<Pos>,
                parent: map<Pos, Option<Pos>>, visited: set<Pos>, depth: map<Pos, nat>, log: seq<Pos>, expanded: nat)
    requires Visiting(grid, start, goal, current, neighbors, i, queue, parent, visited, depth, log, expanded)
    requires i < |neighbors| && neighbors[i] !in visited
    requires visited <= Universe(grid, start)
    ensures Visiting(grid, start, goal, current, neighbors, i + 1, queue + [neighbors[i]],
                     parent[neighbors[i] := Some(current)], visited + {neighbors[i]},
                     depth[neighbors[i] := depth[current] + 1], log + [neighbors[i]], expanded)
    ensures visited + {neighbors[i]} <= Universe(grid, start)
  {
    var neighbor := neighbors[i];
    EnqueueInvariant(grid, start, current, queue, parent, visited, depth, log, neighbor);
    EnqueueExpanding(grid, start, goal, current, neighbors, i, queue, visited, depth, log, expanded);
  }

  /** Enqueuing an unvisited neighbour of a cell of depth m at depth m + 1 keeps Invariant. */
  lemma EnqueueInvariant(grid: Maze, start: Pos, current: Pos, queue: seq<Pos>, parent: map<Pos, Option<Pos>>,
                         visited: set<Pos>, depth: map<Pos, nat>, log: seq<Pos>, neighbor: Pos)
    requires Invariant(grid, start, queue, parent, visited, depth, log)
    requires current in visited && Step(grid, current, neighbor) && neighbor !in visited
    requires DepthAtMost(depth, depth[current] + 1) && Covers(grid, start, depth[current], visited)
    ensures Invariant(grid, start, queue + [neighbor], parent[neighbor := Some(current)], visited + {neighbor},
                      depth[neighbor := depth[current] + 1], log + [neighbor])
  {
    EnqueueRecorded(start, queue, parent, visited, depth, log, current, neighbor);
    EnqueueLinks(grid, start, parent, depth, current, neighbor);
    EnqueueExact(grid, start, depth, current, neighbor);
    assert forall k :: 0 <= k < |log| ==> log[k] in depth && depth[log[k]] <= depth[current] + 1 by {
      forall k | 0 <= k < |log| ensures log[k] in depth && depth[log[k]] <= depth[current] + 1 {
        assert log[k] in log;
      }
    }
    EnqueueSorted(log, depth, current, neighbor);
    EnqueueUniverse(grid, start, visited, current, neighbor);
  }

  lemma EnqueueRecorded(start: Pos, queue: seq<Pos>, parent: map<Pos, Option<Pos>>, visited: set<Pos>,
                        depth: map<Pos, nat>, log: seq<Pos>, current: Pos, neighbor: Pos)
    requires Recorded(start, queue, parent, visited, depth, log) && current in visited && neighbor !in visited
    ensures Recorded(start, queue + [neighbor], parent[neighbor := Some(current)], visited + {neighbor},
                     depth[neighbor := depth[current] + 1], log + [neighbor])
  {
    EnqueueLog(queue, visited, log, neighbor);
  }

  lemma EnqueueUniverse(grid: Maze, start: Pos, visited: set<Pos>, current: Pos, neighbor: Pos)
    requires visited <= Universe(grid, start) && Step(grid, current, neighbor)
    ensures visited + {neighbor} <= Universe(grid, start)
  {
    assert neighbor == (neighbor.0, neighbor.1);
    assert neighbor in Cells(grid);
  }

  /** Enqueuing the i-th neighbour moves the expansion on by one and keeps the front's bounds. */
  lemma EnqueueExpanding(grid: Maze, start: Pos, goal: Pos, current: Pos, neighbors: seq<Pos>, i: nat,
                         queue: seq<Pos>, visited: set<Pos>, depth: map<Pos, nat>, log: seq<Pos>, expanded: nat)
    requires Expanding(grid, start, goal, current, neighbors, i, queue, visited, depth, log, expanded)
    requires depth.Keys == visited && i < |neighbors| && neighbors[i] !in visited
    ensures Expanding(grid, start, goal, current, neighbors, i + 1, queue + [neighbors[i]], visited + {neighbors[i]},
                      depth[neighbors[i] := depth[current] + 1], log + [neighbors[i]], expanded)
  {
    var neighbor := neighbors[i];
    EnqueueExpanded(grid, log, expanded - 1, visited, neighbor);
    EnqueueNotGoal(log, expanded, goal, neighbor);
    assert (log + [neighbor])[expanded - 1] == log[expanded - 1];
  }

  lemma EnqueueNotGoal(log: seq<Pos>, done: nat, goal: Pos, neighbor: Pos)
    requires GoalNotDequeued(log, done, goal) && done <= |log|
    ensures GoalNotDequeued(log + [neighbor], done, goal)
  {
    var log' := log + [neighbor];
    forall i | 0 <= i < done && 0 <= i < |log'| ensures log'[i] != goal {
      assert log'[i] == log[i];
    }
  }

  lemma EnqueueLog(queue: seq<Pos>, visited: set<Pos>, log: seq<Pos>, neighbor: Pos)
    requires QueueIsTail(queue, log) && Distinct(log)
    requires forall v :: v in visited <==> v in log
    requires neighbor !in visited
    ensures QueueIsTail(queue + [neighbor], log + [neighbor]) && Distinct(log + [neighbor])
    ensures forall v :: v in visited + {neighbor} <==> v in log + [neighbor]
  {
    var log' := log + [neighbor];
    assert queue + [neighbor] == log'[|log'| - |queue| - 1..];
  }

  lemma EnqueueLinks(grid: Maze, start: Pos, parent: map<Pos, Option<Pos>>, depth: map<Pos, nat>,
                     current: Pos, neighbor: Pos)
    requires parent.Keys == depth.Keys && start in depth
    requires ParentLinks(grid, start, parent, depth)
    requires current in depth && Step(grid, current, neighbor) && neighbor !in depth
    ensures ParentLinks(grid, start, parent[neighbor := Some(current)], depth[neighbor := depth[current] + 1])
  {
    var parent', depth' := parent[neighbor := Some(current)], depth[neighbor := depth[current] + 1];
    forall v | v in depth' && v != start
      ensures parent'[v].Some? && parent'[v].value in depth'
      ensures Step(grid, parent'[v].value, v) && depth'[v] == depth'[parent'[v].value] + 1
    {
      if v != neighbor {
        assert parent'[v] == parent[v] && depth'[v] == depth[v];
        assert parent[v].value != neighbor;
      }
    }
  }

  lemma EnqueueExact(grid: Maze, start: Pos, depth: map<Pos, nat>, current: Pos, neighbor: Pos)
    requires ExactDepths(grid, start, depth)
    requires current in depth && Step(grid, current, neighbor) && neighbor !in depth
    requires Covers(grid, start, depth[current], depth.Keys)
    ensures ExactDepths(grid, start, depth[neighbor := depth[current] + 1])
  {
    var m := depth[current];
    var depth' := depth[neighbor := m + 1];
    forall v | v in depth' ensures Within(grid, start, v, depth'[v]) && NoShorter(grid, start, v, depth'[v]) {
      if v == neighbor {
        NewDepth(grid, start, current, neighbor, m);
      } else {
        assert depth'[v] == depth[v];
      }
    }
  }

  /** A cell one move past a cell within m moves, yet not within m moves itself, is at distance m + 1. */
  lemma NewDepth(grid: Maze, start: Pos, current: Pos, neighbor: Pos, m: nat)
    requires Within(grid, start, current, m) && Step(grid, current, neighbor)
    requires !Within(grid, start, neighbor, m)
    ensures Within(grid, start, neighbor, m + 1) && NoShorter(grid, start, neighbor, m + 1)
  {
  }

  lemma EnqueueSorted(log: seq<Pos>, depth: map<Pos, nat>, current: Pos, neighbor: Pos)
    requires SortedByDepth(log, depth) && current in depth && neighbor !in depth
    requires forall i :: 0 <= i < |log| ==> log[i] in depth && depth[log[i]] <= depth[current] + 1
    ensures SortedByDepth(log + [neighbor], depth[neighbor := depth[current] + 1])
  {
    var log', depth' := log + [neighbor], depth[neighbor := depth[current] + 1];
    forall i, j | 0 <= i <= j < |log'| && log'[i] in depth' && log'[j] in depth'
      ensures depth'[log'[i]] <= depth'[log'[j]]
    {
      if j < |log| {
        assert log'[i] == log[i] && log'[j] == log[j];
      } else if i < |log| {
        assert log'[i] == log[i];
      }
    }
  }

  lemma EnqueueExpanded(grid: Maze, log: seq<Pos>, done: nat, visited: set<Pos>, neighbor: Pos)
    requires Expanded(grid, log, done, visited) && done <= |log|
    ensures Expanded(grid, log + [neighbor], done, visited + {neighbor})
  {
    var log' := log + [neighbor];
    forall i, n | 0 <= i < done && 0 <= i < |log'| && Step(grid, log'[i], n) ensures n in visited + {neighbor} {
      assert log'[i] == log[i];
    }
  }

  /** A route read off the parent links when the goal is dequeued is a shortest one. */
  lemma RouteFound(grid: Maze, start: Pos, goal: Pos, queue: seq<Pos>, parent: map<Pos, Option<Pos>>,
                   visited: set<Pos>, depth: map<Pos, nat>, log: seq<Pos>, expanded: nat, p: seq<Pos>)
    requires expanded >= 1 && queue != [] && queue[0] == goal
    requires Searching(grid, start, goal, queue, parent, visited, depth, log, expanded - 1)
    requires |p| >= 1 && p[0] == start && p[|p| - 1] == goal
    requires forall i :: 0 < i < |p| ==> p[i] != start && p[i] in parent && parent[p[i]] == Some(p[i - 1])
    requires forall i :: 0 <= i < |p| ==> p[i] in depth
    ensures IsShortestRoute(grid, start, goal, p)
    ensures 1 <= expanded <= |ReachableCells(grid, start)|
  {
    assert goal in visited by {
      assert log[expanded - 1] == queue[0];
    }
    PathLengthBound(p, parent, start, depth);
    forall other | IsRoute(grid, start, goal, other) ensures |p| <= |other| {
      RouteAtLeast(grid, start, goal, depth[goal], other);
    }
    forall v | v in visited ensures v in ReachableCells(grid, start) {
      WithinReachableCells(grid, start, v, depth[v]);
    }
    DistinctCard(log, visited);
    SubsetCard(visited, ReachableCells(grid, start));
  }

  /**
   * After a cell of depth m is expanded, the new front of the queue has depth m
   * or m + 1, and every cell within that many moves is already visited.
   */
  lemma AdvanceFront(grid: Maze, start: Pos, queue: seq<Pos>, visited: set<Pos>,
                     depth: map<Pos, nat>, log: seq<Pos>, m: nat)
    requires QueueIsTail(queue, log)
    requires forall v :: v in visited <==> v in log
    requires depth.Keys == visited
    requires ExactDepths(grid, start, depth) && SortedByDepth(log, depth)
    requires queue != [] && |log| - |queue| >= 1
    requires Expanded(grid, log, |log| - |queue|, visited)
    requires depth[log[|log| - |queue| - 1]] == m
    requires DepthAtMost(depth, m + 1)
    requires Covers(grid, start, m, visited)
    ensures depth[queue[0]] == m || depth[queue[0]] == m + 1
    ensures DepthAtMost(depth, depth[queue[0]] + 1)
    ensures Covers(grid, start, depth[queue[0]], visited)
  {
    var h := |log| - |queue|;
    assert queue[0] == log[h];
    assert log[h - 1] in log && log[h] in log;
    assert depth[log[h - 1]] <= depth[log[h]];
    if depth[queue[0]] != m {
      assert depth[queue[0]] == m + 1;
      forall v | Within(grid, start, v, m + 1) ensures v in visited {
        if !Within(grid, start, v, m) {
          var u :| Step(grid, u, v) && Within(grid, start, u, m);
          assert u in visited;
          if depth[u] > m {
            assert false;
          }
          var i :| 0 <= i < |log| && log[i] == u;
          if i >= h {
            assert false;
          }
          assert Step(grid, log[i], v);
        }
      }
    }
  }

  /** When the queue runs dry, the visited cells are exactly the reachable ones. */
  lemma Exhausted(grid: Maze, start: Pos, goal: Pos, parent: map<Pos, Option<Pos>>,
                  visited: set<Pos>, depth: map<Pos, nat>, log: seq<Pos>, expanded: nat)
    requires Searching(grid, start, goal, [], parent, visited, depth, log, expanded)
    ensures !Reachable(grid, start, goal)
    ensures 1 <= expanded == |ReachableCells(grid, start)|
  {
    assert start in visited;
    forall u, n | u in visited && Step(grid, u, n) ensures n in visited {
      var i :| 0 <= i < |log| && log[i] == u;
    }
    if Reachable(grid, start, goal) {
      ClosedHoldsReachable(grid, start, visited, goal);
    }
    forall v ensures v in visited <==> v in ReachableCells(grid, start) {
      if v in visited {
        WithinReachableCells(grid, start, v, depth[v]);
      }
      if v in ReachableCells(grid, start) {
        ClosedHoldsReachable(grid, start, visited, v);
      }
    }
    assert visited == ReachableCells(grid, start);
    DistinctCard(log, visited);
  }
}
