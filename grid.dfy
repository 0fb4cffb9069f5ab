/**
 * Occupancy grids shared by the path finder and the player: `maze[y][x]`
 * is 0 for an open cell and anything else for a wall; positions are
 * `(x, y)` pairs with `x` the column and `y` the row.
 */
module Grid {

  datatype Pos = Pos(x: int, y: int)

  type Maze = seq<seq<int>>

  /** A non-empty rectangular grid (the searches read `len(maze[0])`). */
  predicate IsGrid(maze: Maze) {
    |maze| > 0 && forall y :: 0 <= y < |maze| ==> |maze[y]| == |maze[0]|
  }

  /** The bounds test the searches perform: `0 <= x < cols and 0 <= y < rows`. */
  predicate InBounds(maze: Maze, p: Pos) {
    0 <= p.y < |maze| && 0 <= p.x < |maze[0]|
  }

  predicate IsOpen(maze: Maze, p: Pos) {
    InBounds(maze, p) && p.x < |maze[p.y]| && maze[p.y][p.x] == 0
  }

  function Abs(n: int): nat {
    if n < 0 then -n else n
  }

  /** Manhattan distance between two positions. */
  function Manhattan(p: Pos, q: Pos): nat {
    Abs(p.x - q.x) + Abs(p.y - q.y)
  }

  /** 4-neighbours: exactly one coordinate differs, by exactly one. */
  predicate Adjacent(p: Pos, q: Pos) {
    Manhattan(p, q) == 1
  }

  /** The neighbour order of all three searches: left, right, up, down. */
  const Offsets: seq<(int, int)> := [(-1, 0), (1, 0), (0, -1), (0, 1)]

  function Shift(p: Pos, d: (int, int)): Pos {
    Pos(p.x + d.0, p.y + d.1)
  }

  lemma OffsetsAreNeighbours(p: Pos, i: nat)
    requires i < |Offsets|
    ensures Adjacent(p, Shift(p, Offsets[i]))
  {
  }

  /** Every 4-neighbour of `p` is reached by one of the four offsets. */
  lemma NeighbourIsOffset(p: Pos, q: Pos) returns (i: nat)
    requires Adjacent(p, q)
    ensures i < |Offsets| && q == Shift(p, Offsets[i])
  {
    if q.x == p.x - 1 { i := 0; }
    else if q.x == p.x + 1 { i := 1; }
    else if q.y == p.y - 1 { i := 2; }
    else { i := 3; }
  }

  /** The cell a walk occupies after `k` steps: `start` itself for `k == 0`. */
  function At(start: Pos, w: seq<Pos>, k: nat): Pos
    requires k <= |w|
  {
    if k == 0 then start else w[k - 1]
  }

  /**
   * A walk from `start` in the form the searches return it: `start` itself
   * excluded, every cell in bounds and open, every step to a 4-neighbour.
   */
  ghost predicate IsWalk(maze: Maze, start: Pos, w: seq<Pos>) {
    (forall i :: 0 <= i < |w| ==> IsOpen(maze, w[i])) &&
    (forall i {:trigger At(start, w, i)} :: 0 <= i < |w| ==> Adjacent(At(start, w, i), w[i]))
  }

  /** A non-empty walk from `start` that ends at `goal`. */
  ghost predicate IsPathTo(maze: Maze, start: Pos, goal: Pos, w: seq<Pos>) {
    IsWalk(maze, start, w) && w != [] && w[|w| - 1] == goal
  }

  ghost predicate Reachable(maze: Maze, start: Pos, goal: Pos) {
    exists w :: IsPathTo(maze, start, goal, w)
  }

  /** The cells the searches may ever touch: those in bounds, and `start`. */
  ghost function Cells(maze: Maze, start: Pos): set<Pos> {
    (set x, y | 0 <= y < |maze| && 0 <= x < (if |maze| == 0 then 0 else |maze[0]|) :: Pos(x, y)) + {start}
  }

  lemma InBoundsInCells(maze: Maze, start: Pos, p: Pos)
    requires InBounds(maze, p)
    ensures p in Cells(maze, start)
  {
  }
}
