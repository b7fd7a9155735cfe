/**
 * a_star_search: best-first search over a heap of (f, g, cell) entries with
 * the Manhattan heuristic, no closed set, and re-pushing whenever a cell's g
 * strictly improves.
 */
module AStar {
  import opened Wrappers
  import opened Grid
  import opened Reach
  import opened PathReconstruction

  /** A heap entry `(f, g, (r, c))`. */
  datatype Entry = Entry(f: nat, g: nat, pos: Pos)

  /** Python's tuple order on cells. */
  predicate PosLe(a: Pos, b: Pos)
  {
    a.0 < b.0 || (a.0 == b.0 && a.1 <= b.1)
  }

  /** Python's tuple order on `(f, g, (r, c))`: by f, then g, then the cell. */
  predicate EntryLe(a: Entry, b: Entry)
  {
    a.f < b.f || (a.f == b.f && (a.g < b.g || (a.g == b.g && PosLe(a.pos, b.pos))))
  }

  /** The order is total and antisymmetric, so the minimum `heappop` returns is unique. */
  lemma EntryLeTotal(a: Entry, b: Entry)
    ensures EntryLe(a, b) || EntryLe(b, a)
    ensures EntryLe(a, b) && EntryLe(b, a) ==> a == b
  {
  }

  function Abs(x: int): nat
  {
    if x < 0 then -x else x
  }

  /** The heuristic added to new_g in the f of a pushed neighbour: |r - goal_r| + |c - goal_c|. */
  function Manhattan(v: Pos, goal: Pos): (h: nat)
    ensures h == 0 <==> v == goal
  {
    Abs(v.0 - goal.0) + Abs(v.1 - goal.1)
  }

  /** One move changes the heuristic by at most one: Manhattan distance is consistent. */
  lemma ManhattanConsistent(u: Pos, v: Pos, goal: Pos)
    requires Adjacent(u, v)
    ensures Manhattan(u, goal) <= Manhattan(v, goal) + 1
    ensures Manhattan(v, goal) <= Manhattan(u, goal) + 1
  {
  }

  /** Manhattan distance never overestimates the moves left: it is admissible. */
  lemma {:induction false} ManhattanAdmissible(grid: Maze, v: Pos, goal: Pos, route: seq<Pos>)
    requires IsRoute(grid, v, goal, route)
    ensures Manhattan(v, goal) <= |route| - 1
    decreases |route|
  {
    if |route| > 1 {
      var tail := route[1..];
      assert IsRoute(grid, route[1], goal, tail) by {
        forall i | 0 < i < |tail| ensures Step(grid, tail[i - 1], tail[i]) {
          assert tail[i - 1] == route[i] && tail[i] == route[i + 1];
        }
      }
      ManhattanAdmissible(grid, route[1], goal, tail);
      assert Step(grid, route[0], route[1]);
      ManhattanConsistent(v, route[1], goal);
    }
  }

  /**
   * heapq.heappop: removes and returns a least entry in tuple order. The heap
   * is kept as an unordered sequence scanned for its minimum.
   */
  method HeapPop(pq: seq<Entry>) returns (e: Entry, rest: seq<Entry>)
    requires pq != []
    ensures e in pq
    ensures forall x :: x in pq ==> EntryLe(e, x)
    ensures multiset(pq) == multiset(rest) + multiset{e}
    ensures forall x :: x in rest ==> x in pq
    ensures forall x :: x in pq && x != e ==> x in rest
    ensures |rest| == |pq| - 1
  {
    var k := 0;
    for i := 1 to |pq|
      invariant 0 <= k < |pq|
      invariant forall j :: 0 <= j < i ==> EntryLe(pq[k], pq[j])
    {
      if !EntryLe(pq[k], pq[i]) {
        k := i;
      }
    }
    e := pq[k];
    rest := pq[..k] + pq[k + 1..];
    assert pq == pq[..k] + [e] + pq[k + 1..];
    forall x | x in pq && x != e ensures x in rest {
      var j :| 0 <= j < |pq| && pq[j] == x;
      if j < k {
        assert rest[j] == x;
      } else {
        assert rest[j - 1] == x;
      }
    }
  }

  /** What the `if neighbor not in g_cost or new_g < g_cost[neighbor]` branch does with one neighbour, given the popped g. */
  ghost predicate Relaxation(goal: Pos, current: Pos, g: nat, neighbor: Pos,
                             gCost: map<Pos, nat>, parent: map<Pos, Option<Pos>>, pq: seq<Entry>,
                             gCost': map<Pos, nat>, parent': map<Pos, Option<Pos>>, pq': seq<Entry>)
  {
    if neighbor !in gCost || g + 1 < gCost[neighbor] then
      && gCost' == gCost[neighbor := g + 1]
      && parent' == parent[neighbor := Some(current)]
      && pq' == pq + [Entry(g + 1 + Manhattan(neighbor, goal), g + 1, neighbor)]
    else
      gCost' == gCost && parent' == parent && pq' == pq
  }

  /**
   * Relaxing one neighbour: its g_cost entry is created or strictly lowered to
   * g + 1, or left alone; an entry is pushed exactly when g_cost changes.
   */
  method Relax(goal: Pos, current: Pos, g: nat, neighbor: Pos,
               gCost: map<Pos, nat>, parent: map<Pos, Option<Pos>>, pq: seq<Entry>)
    returns (gCost': map<Pos, nat>, parent': map<Pos, Option<Pos>>, pq': seq<Entry>)
    ensures Relaxation(goal, current, g, neighbor, gCost, parent, pq, gCost', parent', pq')
    ensures gCost'.Keys == gCost.Keys + {neighbor}
    ensures neighbor in gCost' && gCost'[neighbor] <= g + 1
    ensures forall v :: v in gCost ==> gCost'[v] <= gCost[v]
    ensures forall v :: v in gCost' && v != neighbor ==> v in gCost && gCost'[v] == gCost[v]
    ensures pq' != pq <==> gCost' != gCost
    ensures pq' != pq ==> pq'[..|pq|] == pq && |pq'| == |pq| + 1
  {
    gCost', parent', pq' := gCost, parent, pq;
    var newG := g + 1;
    if neighbor !in gCost || newG < gCost[neighbor] {
      gCost' := gCost[neighbor := newG];
      var f := newG + Manhattan(neighbor, goal);
      pq' := pq + [Entry(f, newG, neighbor)];
      parent' := parent[neighbor := Some(current)];
      assert neighbor in gCost ==> gCost'[neighbor] != gCost[neighbor];
      assert pq'[..|pq|] == pq;
    }
  }

  /** Every cell with a cost has a parent that is one move closer in cost. */
  ghost predicate Links(grid: Maze, start: Pos, parent: map<Pos, Option<Pos>>, gCost: map<Pos, nat>)
  {
    && (forall v {:trigger v in gCost} :: v in gCost && v != start ==> v in parent)
    && (forall v {:trigger parent[v]} :: v in parent && v in gCost && v != start ==>
          parent[v].Some? && parent[v].value in gCost
          && Step(grid, parent[v].value, v) && gCost[parent[v].value] < gCost[v])
  }

  /** Every recorded cost is achieved by some route: follow the parent links back to the start. */
  lemma {:induction false} LinksWithin(grid: Maze, start: Pos, parent: map<Pos, Option<Pos>>, gCost: map<Pos, nat>, v: Pos)
    requires Links(grid, start, parent, gCost) && start in gCost && gCost[start] == 0
    requires v in gCost
    ensures Within(grid, start, v, gCost[v])
    decreases gCost[v]
  {
    if v != start {
      var w := parent[v].value;
      LinksWithin(grid, start, parent, gCost, w);
      WithinMono(grid, start, w, gCost[w], gCost[v] - 1);
      assert Step(grid, w, v);
    }
  }

  /** Heap entries are priced by the heuristic and never undercut the recorded cost. */
  ghost predicate Queued(goal: Pos, pq: seq<Entry>, gCost: map<Pos, nat>)
  {
    forall e {:trigger e in pq} :: e in pq ==>
      e.pos in gCost && gCost[e.pos] <= e.g && e.f == e.g + Manhattan(e.pos, goal)
  }

  /** An unsettled cell with a cost still has its current entry in the heap. */
  ghost predicate Fresh(goal: Pos, pq: seq<Entry>, gCost: map<Pos, nat>, settled: set<Pos>)
  {
    forall v {:trigger v in gCost} :: v in gCost && v !in settled ==> Entry(gCost[v] + Manhattan(v, goal), gCost[v], v) in pq
  }

  /** Every cell with a cost is the start or a cell of the grid. */
  ghost predicate InGrid(grid: Maze, start: Pos, gCost: map<Pos, nat>)
  {
    forall v {:trigger v in gCost} :: v in gCost ==> v == start || InBounds(grid, v)
  }

  /** Before the first pop only the start has a cost. */
  ghost predicate OnlyStart(start: Pos, gCost: map<Pos, nat>)
  {
    forall v {:trigger v in gCost} :: v in gCost ==> v == start
  }

  /** Settled cells carry their exact distance. */
  ghost predicate SettledExact(grid: Maze, start: Pos, gCost: map<Pos, nat>, settled: set<Pos>)
  {
    forall u {:trigger u in settled} :: u in settled ==> u in gCost && NoShorter(grid, start, u, gCost[u])
  }

  /** The neighbours of cells in `closed` have been relaxed through them. */
  ghost predicate Relaxed(grid: Maze, gCost: map<Pos, nat>, closed: set<Pos>)
  {
    forall u, n {:trigger Step(grid, u, n)} :: u in closed && Step(grid, u, n) ==> u in gCost && n in gCost && gCost[n] <= gCost[u] + 1
  }

  /**
   * The invariant of `while pq`. `settled` holds the cells popped so far;
   * `closed` those of them whose neighbours are fully relaxed.
   */
  ghost predicate Inv(grid: Maze, start: Pos, goal: Pos, pq: seq<Entry>, parent: map<Pos, Option<Pos>>,
                      gCost: map<Pos, nat>, settled: set<Pos>, closed: set<Pos>, expanded: nat)
  {
    && start in gCost && gCost[start] == 0
    && start in parent && parent[start] == None
    && Links(grid, start, parent, gCost)
    && InGrid(grid, start, gCost)
    && goal !in settled
    && |settled| <= expanded
    && (settled == {} ==> pq == [Entry(0, 0, start)] && OnlyStart(start, gCost))
    && (settled != {} ==> start in settled && Queued(goal, pq, gCost) && Fresh(goal, pq, gCost, settled))
    && SettledExact(grid, start, gCost, settled)
    && Relaxed(grid, gCost, closed)
  }

  /**
   * The invariant of `for neighbor in get_neighbors(*current)`, with `current`
   * popped at cost `g`. A cell popped a second time (`wasSettled`) had all its
   * neighbours relaxed already, so nothing it offers improves.
   */
  ghost predicate Relaxing(grid: Maze, start: Pos, goal: Pos, current: Pos, g: nat, neighbors: seq<Pos>, done: int,
                           pq: seq<Entry>, parent: map<Pos, Option<Pos>>, gCost: map<Pos, nat>,
                           settled: set<Pos>, expanded: nat, wasSettled: bool)
  {
    && Inv(grid, start, goal, pq, parent, gCost, settled, settled - {current}, expanded)
    && current in settled && current != goal
    && Progress(grid, current, g, neighbors, done, gCost, wasSettled)
  }

  /** How far the relaxation of `current`'s neighbours has got. */
  ghost predicate Progress(grid: Maze, current: Pos, g: nat, neighbors: seq<Pos>, done: int,
                           gCost: map<Pos, nat>, wasSettled: bool)
  {
    && current in gCost && gCost[current] <= g
    && (!wasSettled ==> g == gCost[current])
    && (wasSettled ==> forall n {:trigger Step(grid, current, n)} :: Step(grid, current, n) ==> n in gCost && gCost[n] <= gCost[current] + 1)
    && 0 <= done <= |neighbors|
    && (forall v :: v in neighbors <==> Step(grid, current, v))
    && (forall j :: 0 <= j < done ==> neighbors[j] in gCost && gCost[neighbors[j]] <= gCost[current] + 1)
  }

  method AStarSearch(grid: Maze, start: Pos, goal: Pos) returns (path: Option<seq<Pos>>, expanded: nat)
    ensures path.Some? ==> IsShortestRoute(grid, start, goal, path.value)
    ensures path.None? ==> !Reachable(grid, start, goal)
    ensures expanded >= 1
    ensures path.None? ==> expanded >= |ReachableCells(grid, start)|
  {
    var pq := [Entry(0, 0, start)];
    var parent := map[start := None];
    var gCost := map[start := 0];
    expanded := 0;
    ghost var settled: set<Pos> := {};
    while pq != []
      invariant Inv(grid, start, goal, pq, parent, gCost, settled, settled, expanded)
      invariant settled <= Universe(grid, start)
      decreases Universe(grid, start) - settled, |pq|
    {
      expanded := expanded + 1;
      ghost var waiting, settled0 := pq, settled;
      var e, rest := HeapPop(pq);
      pq := rest;
      var current, g := e.pos, e.g;
      if current == goal {
        GoalPopped(grid, start, goal, waiting, parent, gCost, settled, expanded, e);
        var p := ReconstructPath(parent, goal, start, gCost);
        AStarRouteFound(grid, start, goal, waiting, parent, gCost, settled, expanded, e, p);
        return Some(p), expanded;
      }
      var neighbors := GetNeighbors(grid, current.0, current.1);
      ghost var wasSettled := current in settled;
      settled := settled + {current};
      Pop(grid, start, goal, waiting, parent, gCost, settled0, expanded, e, rest, neighbors);
      pq, parent, gCost := RelaxNeighbors(grid, start, goal, current, g, neighbors, pq, parent, gCost,
                                          settled, expanded, wasSettled);
      ProperSubsetShrinks(Universe(grid, start), settled0, settled);
    }
    path := None;
    AStarExhausted(grid, start, goal, parent, gCost, settled, expanded);
  }

  /**
   * `for neighbor in get_neighbors(*current)`: relax every neighbour of the
   * popped cell. A cell popped again (`wasSettled`) pushes nothing.
   */
  method RelaxNeighbors(grid: Maze, start: Pos, goal: Pos, current: Pos, g: nat, neighbors: seq<Pos>,
                        pq0: seq<Entry>, parent0: map<Pos, Option<Pos>>, gCost0: map<Pos, nat>,
                        ghost settled: set<Pos>, ghost expanded: nat, ghost wasSettled: bool)
    returns (pq: seq<Entry>, parent: map<Pos, Option<Pos>>, gCost: map<Pos, nat>)
    requires Relaxing(grid, start, goal, current, g, neighbors, 0, pq0, parent0, gCost0, settled, expanded, wasSettled)
    ensures Inv(grid, start, goal, pq, parent, gCost, settled, settled, expanded)
    ensures settled <= Universe(grid, start)
    ensures wasSettled ==> pq == pq0
  {
    pq, parent, gCost := pq0, parent0, gCost0;
    for i := 0 to |neighbors|
      invariant Relaxing(grid, start, goal, current, g, neighbors, i, pq, parent, gCost, settled, expanded, wasSettled)
      invariant wasSettled ==> pq == pq0
    {
      var neighbor := neighbors[i];
      var gCost', parent', pq' := Relax(goal, current, g, neighbor, gCost, parent, pq);
      RelaxStep(grid, start, goal, current, g, neighbors, i, pq, parent, gCost, settled, expanded, wasSettled,
                gCost', parent', pq');
      gCost, parent, pq := gCost', parent', pq';
    }
    Finish(grid, start, goal, current, g, neighbors, pq, parent, gCost, settled, expanded, wasSettled);
  }

  /**
   * The heart of the proof. With a consistent heuristic, while a cell within k
   * moves is not yet settled, the heap holds an entry of some unsettled cell
   * (not necessarily that one) whose f is at most k plus that cell's heuristic.
   */
  lemma {:induction false} Frontier(grid: Maze, start: Pos, goal: Pos, pq: seq<Entry>, gCost: map<Pos, nat>,
                                    settled: set<Pos>, v: Pos, k: nat)
    requires start in settled
    requires SettledExact(grid, start, gCost, settled) && Relaxed(grid, gCost, settled)
    requires Fresh(goal, pq, gCost, settled)
    requires Within(grid, start, v, k) && v !in settled
    ensures exists e :: e in pq && e.pos !in settled && e.f <= k + Manhattan(v, goal)
    decreases k
  {
    if k == 0 {
      assert false;
    } else if Within(grid, start, v, k - 1) {
      Frontier(grid, start, goal, pq, gCost, settled, v, k - 1);
    } else {
      var u :| Step(grid, u, v) && Within(grid, start, u, k - 1);
      ManhattanConsistent(u, v, goal);
      if u in settled {
        SettledBound(grid, start, gCost, settled, u, k - 1);
        assert Entry(gCost[v] + Manhattan(v, goal), gCost[v], v) in pq;
      } else {
        Frontier(grid, start, goal, pq, gCost, settled, u, k - 1);
      }
    }
  }

  /** A settled cell within k moves has cost at most k. */
  lemma SettledBound(grid: Maze, start: Pos, gCost: map<Pos, nat>, settled: set<Pos>, u: Pos, k: nat)
    requires SettledExact(grid, start, gCost, settled)
    requires u in settled && Within(grid, start, u, k)
    ensures gCost[u] <= k
  {
    if gCost[u] > k {
      WithinMono(grid, start, u, k, gCost[u] - 1);
    }
  }

  /** A least entry of an unsettled cell carries that cell's exact distance. */
  lemma Settle(grid: Maze, start: Pos, goal: Pos, pq: seq<Entry>, parent: map<Pos, Option<Pos>>,
               gCost: map<Pos, nat>, settled: set<Pos>, e: Entry)
    requires Links(grid, start, parent, gCost) && start in gCost && gCost[start] == 0
    requires start in settled
    requires SettledExact(grid, start, gCost, settled) && Relaxed(grid, gCost, settled)
    requires Fresh(goal, pq, gCost, settled)
    requires e in pq && (forall x :: x in pq ==> EntryLe(e, x)) && e.pos !in settled
    requires e.pos in gCost && gCost[e.pos] <= e.g && e.f == e.g + Manhattan(e.pos, goal)
    ensures e.g == gCost[e.pos]
    ensures Within(grid, start, e.pos, e.g) && NoShorter(grid, start, e.pos, e.g)
  {
    SettleNoShorter(grid, start, goal, pq, gCost, settled, e);
    LinksWithin(grid, start, parent, gCost, e.pos);
  }

  /** The lower half of Settle: no route to a least entry's cell is shorter than its g. */
  lemma SettleNoShorter(grid: Maze, start: Pos, goal: Pos, pq: seq<Entry>, gCost: map<Pos, nat>,
                        settled: set<Pos>, e: Entry)
    requires start in settled
    requires SettledExact(grid, start, gCost, settled) && Relaxed(grid, gCost, settled)
    requires Fresh(goal, pq, gCost, settled)
    requires e in pq && (forall x :: x in pq ==> EntryLe(e, x)) && e.pos !in settled
    requires e.pos in gCost && gCost[e.pos] <= e.g && e.f == e.g + Manhattan(e.pos, goal)
    ensures e.g == gCost[e.pos] && NoShorter(grid, start, e.pos, gCost[e.pos])
  {
    var u := e.pos;
    var d := gCost[u];
    assert EntryLe(e, Entry(d + Manhattan(u, goal), d, u));
    if d > 0 && Within(grid, start, u, d - 1) {
      Frontier(grid, start, goal, pq, gCost, settled, u, d - 1);
      assert false;
    }
  }

  /** When the goal is popped, the parent links lead back to the start. */
  lemma GoalPopped(grid: Maze, start: Pos, goal: Pos, pq: seq<Entry>, parent: map<Pos, Option<Pos>>,
                   gCost: map<Pos, nat>, settled: set<Pos>, expanded: nat, e: Entry)
    requires expanded >= 1
    requires Inv(grid, start, goal, pq, parent, gCost, settled, settled, expanded - 1)
    requires e in pq && e.pos == goal
    ensures goal in gCost && LeadsTo(parent, start, gCost)
  {
  }

  /** The route read off the parent links when the goal is popped is a shortest one. */
  lemma AStarRouteFound(grid: Maze, start: Pos, goal: Pos, pq: seq<Entry>, parent: map<Pos, Option<Pos>>,
                        gCost: map<Pos, nat>, settled: set<Pos>, expanded: nat, e: Entry, p: seq<Pos>)
    requires expanded >= 1
    requires Inv(grid, start, goal, pq, parent, gCost, settled, settled, expanded - 1)
    requires e in pq && (forall x :: x in pq ==> EntryLe(e, x)) && e.pos == goal
    requires |p| >= 1 && p[0] == start && p[|p| - 1] == goal
    requires forall i :: 0 < i < |p| ==> p[i] != start && p[i] in parent && parent[p[i]] == Some(p[i - 1])
    requires forall i :: 0 <= i < |p| ==> p[i] in gCost
    ensures IsShortestRoute(grid, start, goal, p)
  {
    if settled != {} {
      Settle(grid, start, goal, pq, parent, gCost, settled, e);
    }
    assert NoShorter(grid, start, goal, gCost[goal]);
    assert LeadsTo(parent, start, gCost);
    PathLengthBound(p, parent, start, gCost);
    forall other | IsRoute(grid, start, goal, other) ensures |p| <= |other| {
      RouteAtLeast(grid, start, goal, gCost[goal], other);
    }
  }

  /** Popping a cell that is not the goal settles it and starts relaxing its neighbours. */
  lemma Pop(grid: Maze, start: Pos, goal: Pos, pq: seq<Entry>, parent: map<Pos, Option<Pos>>,
            gCost: map<Pos, nat>, settled: set<Pos>, expanded: nat, e: Entry, rest: seq<Entry>, neighbors: seq<Pos>)
    requires expanded >= 1
    requires Inv(grid, start, goal, pq, parent, gCost, settled, settled, expanded - 1)
    requires e in pq && (forall x :: x in pq ==> EntryLe(e, x))
    requires (forall x :: x in rest ==> x in pq) && (forall x :: x in pq && x != e ==> x in rest)
    requires |rest| == |pq| - 1
    requires e.pos != goal
    requires forall v :: v in neighbors <==> Step(grid, e.pos, v)
    ensures Relaxing(grid, start, goal, e.pos, e.g, neighbors, 0, rest, parent, gCost, settled + {e.pos}, expanded,
                     e.pos in settled)
  {
    var current := e.pos;
    var settled' := settled + {current};
    PopInv(grid, start, goal, pq, parent, gCost, settled, expanded, e, rest);
    if settled != {} && current !in settled {
      Settle(grid, start, goal, pq, parent, gCost, settled, e);
    }
  }

  /** The outer invariant, restated for the heap without `e` and with `e.pos` settled. */
  lemma PopInv(grid: Maze, start: Pos, goal: Pos, pq: seq<Entry>, parent: map<Pos, Option<Pos>>,
               gCost: map<Pos, nat>, settled: set<Pos>, expanded: nat, e: Entry, rest: seq<Entry>)
    requires expanded >= 1
    requires Inv(grid, start, goal, pq, parent, gCost, settled, settled, expanded - 1)
    requires e in pq && (forall x :: x in pq ==> EntryLe(e, x))
    requires (forall x :: x in rest ==> x in pq) && (forall x :: x in pq && x != e ==> x in rest)
    requires |rest| == |pq| - 1
    requires e.pos != goal
    ensures Inv(grid, start, goal, rest, parent, gCost, settled + {e.pos}, settled + {e.pos} - {e.pos}, expanded)
  {
    if settled == {} {
      PopFirst(grid, start, goal, pq, parent, gCost, settled, expanded, e, rest);
    } else {
      PopLater(grid, start, goal, pq, parent, gCost, settled, expanded, e, rest);
    }
  }

  /** The first pop takes the seed entry and settles the start. */
  lemma PopFirst(grid: Maze, start: Pos, goal: Pos, pq: seq<Entry>, parent: map<Pos, Option<Pos>>,
               gCost: map<Pos, nat>, settled: set<Pos>, expanded: nat, e: Entry, rest: seq<Entry>)
    requires expanded >= 1
    requires Inv(grid, start, goal, pq, parent, gCost, settled, settled, expanded - 1)
    requires e in pq && (forall x :: x in pq ==> EntryLe(e, x))
    requires (forall x :: x in rest ==> x in pq) && (forall x :: x in pq && x != e ==> x in rest)
    requires |rest| == |pq| - 1
    requires e.pos != goal
    requires settled == {}
    ensures Inv(grid, start, goal, rest, parent, gCost, settled + {e.pos}, settled + {e.pos} - {e.pos}, expanded)
  {
    assert e == Entry(0, 0, start) && rest == [];
    assert settled + {e.pos} == {start};
  }

  /** A later pop keeps every unsettled cell's entry and settles `e.pos` at its exact cost. */
  lemma PopLater(grid: Maze, start: Pos, goal: Pos, pq: seq<Entry>, parent: map<Pos, Option<Pos>>,
               gCost: map<Pos, nat>, settled: set<Pos>, expanded: nat, e: Entry, rest: seq<Entry>)
    requires expanded >= 1
    requires Inv(grid, start, goal, pq, parent, gCost, settled, settled, expanded - 1)
    requires e in pq && (forall x :: x in pq ==> EntryLe(e, x))
    requires (forall x :: x in rest ==> x in pq) && (forall x :: x in pq && x != e ==> x in rest)
    requires |rest| == |pq| - 1
    requires e.pos != goal
    requires settled != {}
    ensures Inv(grid, start, goal, rest, parent, gCost, settled + {e.pos}, settled + {e.pos} - {e.pos}, expanded)
  {
    var current := e.pos;
    var settled' := settled + {current};
    if current !in settled {
      Settle(grid, start, goal, pq, parent, gCost, settled, e);
      assert |settled'| == |settled| + 1;
    } else {
      assert settled' == settled;
    }
    QueuedRest(goal, pq, rest, gCost);
    FreshRest(goal, pq, rest, gCost, settled, e);
    RelaxedSub(grid, gCost, settled' - {current}, settled);
  }

  lemma QueuedRest(goal: Pos, pq: seq<Entry>, rest: seq<Entry>, gCost: map<Pos, nat>)
    requires Queued(goal, pq, gCost) && forall x :: x in rest ==> x in pq
    ensures Queued(goal, rest, gCost)
  {
    forall x | x in rest
      ensures x.pos in gCost && gCost[x.pos] <= x.g && x.f == x.g + Manhattan(x.pos, goal)
    {
      assert x in pq;
    }
  }

  lemma FreshRest(goal: Pos, pq: seq<Entry>, rest: seq<Entry>, gCost: map<Pos, nat>, settled: set<Pos>, e: Entry)
    requires Fresh(goal, pq, gCost, settled) && forall x :: x in pq && x != e ==> x in rest
    ensures Fresh(goal, rest, gCost, settled + {e.pos})
  {
    forall v | v in gCost && v !in settled + {e.pos}
      ensures Entry(gCost[v] + Manhattan(v, goal), gCost[v], v) in rest
    {
      assert Entry(gCost[v] + Manhattan(v, goal), gCost[v], v) in pq;
    }
  }

  lemma RelaxedSub(grid: Maze, gCost: map<Pos, nat>, closed: set<Pos>, wider: set<Pos>)
    requires closed <= wider && Relaxed(grid, gCost, wider)
    ensures Relaxed(grid, gCost, closed)
  {
  }

  /** One relaxation keeps the inner invariant; a cell popped again pushes nothing. */
  lemma RelaxStep(grid: Maze, start: Pos, goal: Pos, current: Pos, g: nat, neighbors: seq<Pos>, i: nat,
                  pq: seq<Entry>, parent: map<Pos, Option<Pos>>, gCost: map<Pos, nat>,
                  settled: set<Pos>, expanded: nat, wasSettled: bool,
                  gCost': map<Pos, nat>, parent': map<Pos, Option<Pos>>, pq': seq<Entry>)
    requires Relaxing(grid, start, goal, current, g, neighbors, i, pq, parent, gCost, settled, expanded, wasSettled)
    requires i < |neighbors|
    requires Relaxation(goal, current, g, neighbors[i], gCost, parent, pq, gCost', parent', pq')
    ensures Relaxing(grid, start, goal, current, g, neighbors, i + 1, pq', parent', gCost', settled, expanded, wasSettled)
    ensures wasSettled ==> pq' == pq
  {
    var neighbor := neighbors[i];
    if neighbor !in gCost || g + 1 < gCost[neighbor] {
      RelaxChanged(grid, start, goal, current, g, neighbors, i, pq, parent, gCost, settled, expanded, wasSettled);
    } else {
      ProgressKept(grid, current, g, neighbors, i, gCost, wasSettled);
    }
  }

  lemma ProgressKept(grid: Maze, current: Pos, g: nat, neighbors: seq<Pos>, i: nat,
                     gCost: map<Pos, nat>, wasSettled: bool)
    requires Progress(grid, current, g, neighbors, i, gCost, wasSettled)
    requires i < |neighbors| && neighbors[i] in gCost && gCost[neighbors[i]] <= g + 1
    ensures Progress(grid, current, g, neighbors, i + 1, gCost, wasSettled)
  {
    assert Step(grid, current, neighbors[i]);
  }

  /** Relaxing a neighbour whose cost strictly improves. */
  lemma RelaxChanged(grid: Maze, start: Pos, goal: Pos, current: Pos, g: nat, neighbors: seq<Pos>, i: nat,
                     pq: seq<Entry>, parent: map<Pos, Option<Pos>>, gCost: map<Pos, nat>,
                     settled: set<Pos>, expanded: nat, wasSettled: bool)
    requires Relaxing(grid, start, goal, current, g, neighbors, i, pq, parent, gCost, settled, expanded, wasSettled)
    requires i < |neighbors|
    requires neighbors[i] !in gCost || g + 1 < gCost[neighbors[i]]
    ensures !wasSettled
    ensures Relaxing(grid, start, goal, current, g, neighbors, i + 1,
                     pq + [Entry(g + 1 + Manhattan(neighbors[i], goal), g + 1, neighbors[i])],
                     parent[neighbors[i] := Some(current)], gCost[neighbors[i] := g + 1],
                     settled, expanded, wasSettled)
  {
    ProgressChanged(grid, current, g, neighbors, i, gCost, wasSettled);
    ChangedFacts(grid, start, parent, gCost, settled, current, g, neighbors[i]);
    RelaxInv(grid, start, goal, pq, parent, gCost, settled, settled - {current}, expanded, current, g, neighbors[i]);
  }

  lemma ProgressChanged(grid: Maze, current: Pos, g: nat, neighbors: seq<Pos>, i: nat,
                        gCost: map<Pos, nat>, wasSettled: bool)
    requires Progress(grid, current, g, neighbors, i, gCost, wasSettled)
    requires i < |neighbors|
    requires neighbors[i] !in gCost || g + 1 < gCost[neighbors[i]]
    ensures Step(grid, current, neighbors[i]) && neighbors[i] != current
    ensures !wasSettled
    ensures Progress(grid, current, g, neighbors, i + 1, gCost[neighbors[i] := g + 1], wasSettled)
  {
    assert Step(grid, current, neighbors[i]);
  }

  /** A neighbour whose cost improves is new to the search front: not settled, not the start. */
  lemma ChangedFacts(grid: Maze, start: Pos, parent: map<Pos, Option<Pos>>, gCost: map<Pos, nat>,
                     settled: set<Pos>, current: Pos, g: nat, neighbor: Pos)
    requires Links(grid, start, parent, gCost) && start in gCost && gCost[start] == 0
    requires SettledExact(grid, start, gCost, settled)
    requires current in gCost && gCost[current] <= g && Step(grid, current, neighbor)
    requires neighbor !in gCost || g + 1 < gCost[neighbor]
    ensures neighbor !in settled && neighbor != start && neighbor != current
  {
    LinksWithin(grid, start, parent, gCost, current);
    WithinMono(grid, start, current, gCost[current], g);
    assert Within(grid, start, neighbor, g + 1);
    if neighbor in settled {
      SettledBound(grid, start, gCost, settled, neighbor, g + 1);
    }
  }

  /** The outer invariant survives relaxing a neighbour whose cost strictly improves. */
  lemma RelaxInv(grid: Maze, start: Pos, goal: Pos, pq: seq<Entry>, parent: map<Pos, Option<Pos>>,
                 gCost: map<Pos, nat>, settled: set<Pos>, closed: set<Pos>, expanded: nat,
                 current: Pos, g: nat, neighbor: Pos)
    requires Inv(grid, start, goal, pq, parent, gCost, settled, closed, expanded)
    requires settled != {}
    requires current in gCost && gCost[current] <= g && Step(grid, current, neighbor)
    requires neighbor !in settled && neighbor !in closed && neighbor != start && neighbor != current
    requires neighbor !in gCost || g + 1 < gCost[neighbor]
    ensures Inv(grid, start, goal, pq + [Entry(g + 1 + Manhattan(neighbor, goal), g + 1, neighbor)],
                parent[neighbor := Some(current)], gCost[neighbor := g + 1], settled, closed, expanded)
  {
    var gCost' := gCost[neighbor := g + 1];
    RelaxLinks(grid, start, parent, gCost, current, g, neighbor);
    RelaxQueued(goal, pq, gCost, g, neighbor, settled);
    RelaxClosed(grid, gCost, closed, g, neighbor);
    assert SettledExact(grid, start, gCost', settled) by {
      forall u | u in settled ensures u in gCost' && NoShorter(grid, start, u, gCost'[u]) {
        assert gCost'[u] == gCost[u];
      }
    }
  }

  lemma RelaxLinks(grid: Maze, start: Pos, parent: map<Pos, Option<Pos>>, gCost: map<Pos, nat>,
                   current: Pos, g: nat, neighbor: Pos)
    requires Links(grid, start, parent, gCost)
    requires current in gCost && gCost[current] <= g && Step(grid, current, neighbor)
    requires neighbor != current && (neighbor !in gCost || g + 1 < gCost[neighbor])
    ensures Links(grid, start, parent[neighbor := Some(current)], gCost[neighbor := g + 1])
  {
    var parent', gCost' := parent[neighbor := Some(current)], gCost[neighbor := g + 1];
    forall v | v in gCost' && v != start
      ensures v in parent' && parent'[v].Some? && parent'[v].value in gCost'
      ensures Step(grid, parent'[v].value, v) && gCost'[parent'[v].value] < gCost'[v]
    {
      if v != neighbor {
        assert parent'[v] == parent[v] && gCost'[v] == gCost[v];
        var w := parent[v].value;
        assert gCost'[w] <= gCost[w];
      }
    }
  }

  lemma RelaxQueued(goal: Pos, pq: seq<Entry>, gCost: map<Pos, nat>, g: nat, neighbor: Pos, settled: set<Pos>)
    requires Queued(goal, pq, gCost) && Fresh(goal, pq, gCost, settled)
    requires neighbor !in gCost || g + 1 < gCost[neighbor]
    ensures Queued(goal, pq + [Entry(g + 1 + Manhattan(neighbor, goal), g + 1, neighbor)], gCost[neighbor := g + 1])
    ensures Fresh(goal, pq + [Entry(g + 1 + Manhattan(neighbor, goal), g + 1, neighbor)], gCost[neighbor := g + 1], settled)
  {
    var entry := Entry(g + 1 + Manhattan(neighbor, goal), g + 1, neighbor);
    var pq', gCost' := pq + [entry], gCost[neighbor := g + 1];
    forall x | x in pq' ensures x.pos in gCost' && gCost'[x.pos] <= x.g && x.f == x.g + Manhattan(x.pos, goal) {
      if x != entry {
        assert x in pq;
      }
    }
    forall v | v in gCost' && v !in settled ensures Entry(gCost'[v] + Manhattan(v, goal), gCost'[v], v) in pq' {
      if v != neighbor {
        assert Entry(gCost[v] + Manhattan(v, goal), gCost[v], v) in pq;
      } else {
        assert pq'[|pq|] == entry;
      }
    }
  }

  lemma RelaxClosed(grid: Maze, gCost: map<Pos, nat>, closed: set<Pos>, g: nat, neighbor: Pos)
    requires Relaxed(grid, gCost, closed) && neighbor !in closed
    requires neighbor !in gCost || g + 1 < gCost[neighbor]
    ensures Relaxed(grid, gCost[neighbor := g + 1], closed)
  {
  }

  /** After the last neighbour, the popped cell is closed too. */
  lemma Finish(grid: Maze, start: Pos, goal: Pos, current: Pos, g: nat, neighbors: seq<Pos>,
               pq: seq<Entry>, parent: map<Pos, Option<Pos>>, gCost: map<Pos, nat>,
               settled: set<Pos>, expanded: nat, wasSettled: bool)
    requires Relaxing(grid, start, goal, current, g, neighbors, |neighbors|, pq, parent, gCost, settled, expanded, wasSettled)
    ensures Inv(grid, start, goal, pq, parent, gCost, settled, settled, expanded)
    ensures settled <= Universe(grid, start)
  {
    forall u, n | u in settled && Step(grid, u, n) ensures u in gCost && n in gCost && gCost[n] <= gCost[u] + 1 {
      if u == current {
        assert n in neighbors;
      }
    }
    forall u | u in settled ensures u in Universe(grid, start) {
      if u != start {
        assert u == (u.0, u.1);
        assert u in Cells(grid);
      }
    }
  }

  /** When the heap runs dry, every reachable cell was settled and the goal is not among them. */
  lemma AStarExhausted(grid: Maze, start: Pos, goal: Pos, parent: map<Pos, Option<Pos>>,
                       gCost: map<Pos, nat>, settled: set<Pos>, expanded: nat)
    requires Inv(grid, start, goal, [], parent, gCost, settled, settled, expanded)
    ensures !Reachable(grid, start, goal)
    ensures expanded >= |ReachableCells(grid, start)|
  {
    assert settled != {};
    forall v | Reachable(grid, start, v) ensures v in settled {
      var route :| IsRoute(grid, start, v, route);
      RouteWithin(grid, start, v, route);
      if v !in settled {
        Frontier(grid, start, goal, [], gCost, settled, v, |route| - 1);
        assert false;
      }
    }
    SubsetCard(ReachableCells(grid, start), settled);
  }
}
