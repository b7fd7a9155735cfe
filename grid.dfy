/**
 * The occupancy grid of the maze solver: bounds, walls and the four-way
 * neighbourhood that `get_neighbors` enumerates.
 */
module Grid {
  /** A cell as (row, column). */
  type Pos = (int, int)

  /** The number of columns, read from the first row as the solver does. */
  function Width(cells: seq<seq<int>>): nat
  {
    if |cells| == 0 then 0 else |cells[0]|
  }

  predicate Rectangular(cells: seq<seq<int>>)
  {
    forall i :: 0 <= i < |cells| ==> |cells[i]| == Width(cells)
  }

  /** The maze: a rectangular array of cell values. */
  type Maze = cells: seq<seq<int>> | Rectangular(cells) witness []

  predicate InBounds(grid: Maze, p: Pos)
  {
    0 <= p.0 < |grid| && 0 <= p.1 < Width(grid)
  }

  /** A cell is a wall only when its value is exactly 1; every other value is free. */
  predicate IsOpen(grid: Maze, p: Pos)
  {
    InBounds(grid, p) && grid[p.0][p.1] != 1
  }

  /** `v` is one unit step away from `u` along exactly one axis. */
  predicate Adjacent(u: Pos, v: Pos)
  {
    || (u.0 == v.0 && (v.1 == u.1 + 1 || v.1 == u.1 - 1))
    || (u.1 == v.1 && (v.0 == u.0 + 1 || v.0 == u.0 - 1))
  }

  /**
   * The move relation of both solvers: from `u` one may go to `v` when `v` is
   * adjacent, in bounds and not a wall. Nothing is asked of `u` itself.
   */
  predicate Step(grid: Maze, u: Pos, v: Pos)
  {
    Adjacent(u, v) && IsOpen(grid, v)
  }

  /** The moves in the order the solver tries them: East, West, South, North. */
  const MOVES: seq<(int, int)> := [(0, 1), (0, -1), (1, 0), (-1, 0)]

  /** The position of the move from `u` to `v` in MOVES, or 4 when `v` is not adjacent. */
  function MoveIndex(u: Pos, v: Pos): (k: nat)
    ensures k < 4 <==> Adjacent(u, v)
    ensures k < 4 ==> v == (u.0 + MOVES[k].0, u.1 + MOVES[k].1)
  {
    if v == (u.0, u.1 + 1) then 0
    else if v == (u.0, u.1 - 1) then 1
    else if v == (u.0 + 1, u.1) then 2
    else if v == (u.0 - 1, u.1) then 3
    else 4
  }

  /**
   * get_neighbors: the open cells next to (r, c), each listed once, in the
   * order East, West, South, North. The cell (r, c) itself is not checked.
   */
  method GetNeighbors(grid: Maze, r: int, c: int) returns (neighbors: seq<Pos>)
    ensures forall v :: v in neighbors <==> Step(grid, (r, c), v)
    ensures forall i, j :: 0 <= i < j < |neighbors| ==>
      MoveIndex((r, c), neighbors[i]) < MoveIndex((r, c), neighbors[j])
    ensures |neighbors| <= 4
  {
    neighbors := [];
    for k := 0 to 4
      invariant forall v :: v in neighbors <==> Step(grid, (r, c), v) && MoveIndex((r, c), v) < k
      invariant forall i :: 0 <= i < |neighbors| ==> MoveIndex((r, c), neighbors[i]) < k
      invariant forall i, j :: 0 <= i < j < |neighbors| ==>
        MoveIndex((r, c), neighbors[i]) < MoveIndex((r, c), neighbors[j])
      invariant |neighbors| <= k
    {
      var (dr, dc) := MOVES[k];
      var nr, nc := r + dr, c + dc;
      assert forall v :: MoveIndex((r, c), v) == k <==> v == (nr, nc);
      if 0 <= nr < |grid| && 0 <= nc < |grid[0]| && grid[nr][nc] != 1 {
        neighbors := neighbors + [(nr, nc)];
      }
    }
  }
}
