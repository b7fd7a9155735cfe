/**
 * Routes through the maze and reachability, the vocabulary in which the
 * solvers' promises are stated.
 */
module Reach {
  import opened Grid

  /** A route: starts at `from`, ends at `to`, and every move is a Step of the grid. */
  predicate IsRoute(grid: Maze, from: Pos, to: Pos, route: seq<Pos>)
  {
    && |route| >= 1
    && route[0] == from
    && route[|route| - 1] == to
    && forall i :: 0 < i < |route| ==> Step(grid, route[i - 1], route[i])
  }

  ghost predicate Reachable(grid: Maze, from: Pos, to: Pos)
  {
    exists route :: IsRoute(grid, from, to, route)
  }

  /** A route with the fewest moves among all routes between the same cells. */
  ghost predicate IsShortestRoute(grid: Maze, from: Pos, to: Pos, route: seq<Pos>)
  {
    && IsRoute(grid, from, to, route)
    && forall other :: IsRoute(grid, from, to, other) ==> |route| <= |other|
  }

  /** `v` can be reached from `from` in at most `k` moves. */
  ghost predicate Within(grid: Maze, from: Pos, v: Pos, k: nat)
    decreases k
  {
    if k == 0 then v == from
    else Within(grid, from, v, k - 1) || exists u {:trigger Within(grid, from, u, k - 1)} :: Step(grid, u, v) && Within(grid, from, u, k - 1)
  }

  /** No route from `from` to `v` has fewer than `d` moves. */
  ghost predicate NoShorter(grid: Maze, from: Pos, v: Pos, d: nat)
  {
    d > 0 ==> !Within(grid, from, v, d - 1)
  }

  ghost function Cells(grid: Maze): set<Pos>
  {
    set r, c | 0 <= r < |grid| && 0 <= c < Width(grid) :: (r, c)
  }

  /** Every cell a search from `from` can ever touch: the grid's cells and `from` itself. */
  ghost function Universe(grid: Maze, from: Pos): set<Pos>
  {
    Cells(grid) + {from}
  }

  /** The cells reachable from `from`, `from` included. */
  ghost function ReachableCells(grid: Maze, from: Pos): set<Pos>
  {
    set v | v in Universe(grid, from) && Reachable(grid, from, v)
  }

  lemma {:induction false} WithinMono(grid: Maze, from: Pos, v: Pos, j: nat, k: nat)
    requires j <= k && Within(grid, from, v, j)
    ensures Within(grid, from, v, k)
    decreases k
  {
    if j < k {
      WithinMono(grid, from, v, j, k - 1);
    }
  }

  /** A route with n moves shows its end is within n moves. */
  lemma {:induction false} RouteWithin(grid: Maze, from: Pos, to: Pos, route: seq<Pos>)
    requires IsRoute(grid, from, to, route)
    ensures Within(grid, from, to, |route| - 1)
    decreases |route|
  {
    if |route| > 1 {
      var prefix := route[..|route| - 1];
      var last := route[|route| - 2];
      assert IsRoute(grid, from, last, prefix) by {
        forall i | 0 < i < |prefix| ensures Step(grid, prefix[i - 1], prefix[i]) {
          assert prefix[i - 1] == route[i - 1] && prefix[i] == route[i];
        }
      }
      RouteWithin(grid, from, last, prefix);
      assert Step(grid, last, to);
    }
  }

  /** Conversely, a cell within k moves has a route of at most k moves. */
  lemma {:induction false} WithinRoute(grid: Maze, from: Pos, v: Pos, k: nat)
    requires Within(grid, from, v, k)
    ensures exists route :: IsRoute(grid, from, v, route) && |route| <= k + 1
    decreases k
  {
    if k == 0 {
      assert IsRoute(grid, from, v, [from]);
    } else if Within(grid, from, v, k - 1) {
      WithinRoute(grid, from, v, k - 1);
    } else {
      var u :| Step(grid, u, v) && Within(grid, from, u, k - 1);
      WithinRoute(grid, from, u, k - 1);
      var prefix :| IsRoute(grid, from, u, prefix) && |prefix| <= k;
      var route := prefix + [v];
      assert IsRoute(grid, from, v, route) by {
        forall i | 0 < i < |route| ensures Step(grid, route[i - 1], route[i]) {
          if i < |prefix| {
            assert route[i - 1] == prefix[i - 1] && route[i] == prefix[i];
          }
        }
      }
    }
  }

  /** Everything within reach lies in the universe of the search. */
  lemma {:induction false} WithinUniverse(grid: Maze, from: Pos, v: Pos, k: nat)
    requires Within(grid, from, v, k)
    ensures v in Universe(grid, from)
    decreases k
  {
    if k > 0 && !Within(grid, from, v, k - 1) {
      assert InBounds(grid, v) by {
        var u :| Step(grid, u, v) && Within(grid, from, u, k - 1);
      }
      assert v == (v.0, v.1);
      assert v in Cells(grid);
    } else if k > 0 {
      WithinUniverse(grid, from, v, k - 1);
    }
  }

  lemma WithinReachableCells(grid: Maze, from: Pos, v: Pos, k: nat)
    requires Within(grid, from, v, k)
    ensures v in ReachableCells(grid, from)
  {
    WithinRoute(grid, from, v, k);
    WithinUniverse(grid, from, v, k);
  }

  /** A region that holds `from` and is closed under moves holds all reachable cells. */
  lemma {:induction false} ClosedHoldsWithin(grid: Maze, from: Pos, region: set<Pos>, v: Pos, k: nat)
    requires from in region
    requires forall u, n :: u in region && Step(grid, u, n) ==> n in region
    requires Within(grid, from, v, k)
    ensures v in region
    decreases k
  {
    if k > 0 {
      if Within(grid, from, v, k - 1) {
        ClosedHoldsWithin(grid, from, region, v, k - 1);
      } else {
        var u :| Step(grid, u, v) && Within(grid, from, u, k - 1);
        ClosedHoldsWithin(grid, from, region, u, k - 1);
      }
    }
  }

  /** A region closed under moves that holds `from` holds every reachable cell. */
  lemma ClosedHoldsReachable(grid: Maze, from: Pos, region: set<Pos>, v: Pos)
    requires from in region
    requires forall u, n :: u in region && Step(grid, u, n) ==> n in region
    requires Reachable(grid, from, v)
    ensures v in region
  {
    var route :| IsRoute(grid, from, v, route);
    RouteWithin(grid, from, v, route);
    ClosedHoldsWithin(grid, from, region, v, |route| - 1);
  }

  /** When no route to `to` is shorter than d moves, every route has at least d moves. */
  lemma RouteAtLeast(grid: Maze, from: Pos, to: Pos, d: nat, route: seq<Pos>)
    requires NoShorter(grid, from, to, d) && IsRoute(grid, from, to, route)
    ensures d <= |route| - 1
  {
    RouteWithin(grid, from, to, route);
    if |route| - 1 < d {
      WithinMono(grid, from, to, |route| - 1, d - 1);
    }
  }

  /** The cardinality of a subset is at most that of the set. */
  lemma {:induction false} SubsetCard<T>(a: set<T>, b: set<T>)
    requires a <= b
    ensures |a| <= |b|
    decreases b
  {
    if a != {} {
      var x :| x in a;
      SubsetCard(a - {x}, b - {x});
    }
  }

  /** A sequence without repetitions has as many elements as the set of its elements. */
  lemma {:induction false} DistinctCard<T>(s: seq<T>, elems: set<T>)
    requires forall i, j :: 0 <= i < j < |s| ==> s[i] != s[j]
    requires forall x :: x in elems <==> x in s
    ensures |elems| == |s|
    decreases |s|
  {
    if s != [] {
      var init := s[..|s| - 1];
      var last := s[|s| - 1];
      assert last !in init;
      assert forall x :: x in elems - {last} <==> x in init by {
        forall x ensures x in elems - {last} <==> x in init {
          if x in s && x != last {
            var i :| 0 <= i < |s| && s[i] == x;
            assert init[i] == x;
          }
        }
      }
      DistinctCard(init, elems - {last});
    }
  }

  /** Growing a subset of `universe` shrinks what is left of it. */
  lemma ProperSubsetShrinks<T>(universe: set<T>, before: set<T>, after: set<T>)
    requires before <= after <= universe
    ensures after != before ==> universe - after < universe - before
  {
    if after != before {
      var x :| x in after && x !in before;
      assert x in universe - before && x !in universe - after;
    }
  }
}
