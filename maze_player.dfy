/**
 * The maze runner's player marker: a mutable two-element position list
 * `[x, y]` that one key press moves by one cell when the cell in that
 * direction is open. The maze itself is a value here, so a move cannot
 * change it.
 */
module MazePlayer {
  import opened Grid
  import MazeLayout

  /** Column and row of a two-element position list. */
  function AsPos(position: seq<int>): Pos
    requires |position| == 2
  {
    Pos(position[0], position[1])
  }

  /** The cell offset a direction name stands for; `NoStep` for any other string. */
  datatype Step = Step(dx: int, dy: int) | NoStep

  function StepOf(direction: string): (s: Step)
    ensures s.Step? ==> Grid.Abs(s.dx) + Grid.Abs(s.dy) == 1
    ensures s.NoStep? <==> direction !in {"UP", "DOWN", "LEFT", "RIGHT"}
  {
    if direction == "UP" then Step(0, -1)
    else if direction == "DOWN" then Step(0, 1)
    else if direction == "LEFT" then Step(-1, 0)
    else if direction == "RIGHT" then Step(1, 0)
    else NoStep
  }

  /** `maze[y][x]` can be read without leaving the grid. */
  predicate Readable(maze: Maze, x: int, y: int) {
    0 <= y < |maze| && 0 <= x < |maze[y]|
  }

  /**
   * The move reads exactly one cell, and only for one of the four direction
   * names; that cell must lie inside the grid (the model does not follow
   * negative-index wrap-around).
   */
  predicate CanLook(maze: Maze, position: seq<int>, direction: string) {
    |position| == 2 &&
    (StepOf(direction).Step? ==>
      Readable(maze, position[0] + StepOf(direction).dx, position[1] + StepOf(direction).dy))
  }

  /** The position after one move, branch by branch as the source tests them. */
  function Moved(maze: Maze, position: seq<int>, direction: string): (r: seq<int>)
    requires CanLook(maze, position, direction)
    ensures |r| == 2
  {
    var x := position[0];
    var y := position[1];
    if direction == "UP" && maze[y - 1][x] == 0 then [x, y - 1]
    else if direction == "DOWN" && maze[y + 1][x] == 0 then [x, y + 1]
    else if direction == "LEFT" && maze[y][x - 1] == 0 then [x - 1, y]
    else if direction == "RIGHT" && maze[y][x + 1] == 0 then [x + 1, y]
    else position
  }

  class Player {
    var position: seq<int>

    constructor (startPosition: (int, int))
      ensures position == [startPosition.0, startPosition.1]
    {
      position := [startPosition.0, startPosition.1];
    }

    method Move(maze: Maze, direction: string)
      requires CanLook(maze, position, direction)
      modifies this
      ensures position == Moved(maze, old(position), direction)
    {
      var x := position[0];
      var y := position[1];
      if direction == "UP" && maze[y - 1][x] == 0 {
        position := position[1 := y - 1];
      } else if direction == "DOWN" && maze[y + 1][x] == 0 {
        position := position[1 := y + 1];
      } else if direction == "LEFT" && maze[y][x - 1] == 0 {
        position := position[0 := x - 1];
      } else if direction == "RIGHT" && maze[y][x + 1] == 0 {
        position := position[0 := x + 1];
      }
    }
  }

  /**
   * A move changes the position exactly when the direction is one of the four
   * names and the cell it names is open; the player then stands on that cell.
   */
  lemma MoveIff(maze: Maze, position: seq<int>, direction: string)
    requires CanLook(maze, position, direction)
    ensures Moved(maze, position, direction) != position <==>
      StepOf(direction).Step? &&
      maze[position[1] + StepOf(direction).dy][position[0] + StepOf(direction).dx] == 0
    ensures Moved(maze, position, direction) != position ==>
      Moved(maze, position, direction) ==
        [position[0] + StepOf(direction).dx, position[1] + StepOf(direction).dy]
  {
  }

  /** Any string other than the four direction names leaves the player where it is. */
  lemma UnknownDirectionStays(maze: Maze, position: seq<int>, direction: string)
    requires |position| == 2
    requires direction !in {"UP", "DOWN", "LEFT", "RIGHT"}
    ensures CanLook(maze, position, direction)
    ensures Moved(maze, position, direction) == position
  {
  }

  /** A move is a single 4-neighbour step or no step at all. */
  lemma MoveIsUnitStep(maze: Maze, position: seq<int>, direction: string)
    requires CanLook(maze, position, direction)
    ensures var r := Moved(maze, position, direction);
      r == position || Adjacent(AsPos(position), AsPos(r))
  {
  }

  /**
   * A grid in which every open cell is surrounded on all four sides by cells
   * of the grid: its border is wall, as the generated maze's is.
   */
  predicate Enclosed(maze: Maze) {
    IsGrid(maze) &&
    forall y, x :: 0 <= y < |maze| && 0 <= x < |maze[y]| && maze[y][x] == 0 ==>
      1 <= y < |maze| - 1 && 1 <= x < |maze[y]| - 1
  }

  predicate OnOpen(maze: Maze, position: seq<int>) {
    |position| == 2 && Readable(maze, position[0], position[1]) && maze[position[1]][position[0]] == 0
  }

  /** On an enclosed grid every move from an open cell is well defined and ends on an open cell. */
  lemma MoveStaysOpen(maze: Maze, position: seq<int>, direction: string)
    requires Enclosed(maze) && OnOpen(maze, position)
    ensures CanLook(maze, position, direction)
    ensures OnOpen(maze, Moved(maze, position, direction))
  {
    assert 1 <= position[1] < |maze| - 1 && 1 <= position[0] < |maze[position[1]]| - 1;
    assert |maze[position[1] - 1]| == |maze[position[1] + 1]| == |maze[position[1]]| == |maze[0]|;
  }

  /** The position after a sequence of key presses. */
  function MovedAll(maze: Maze, position: seq<int>, directions: seq<string>): (r: seq<int>)
    requires Enclosed(maze) && OnOpen(maze, position)
    decreases |directions|
  {
    if |directions| == 0 then position
    else
      MoveStaysOpen(maze, position, directions[0]);
      MovedAll(maze, Moved(maze, position, directions[0]), directions[1..])
  }

  /**
   * A player that starts on an open cell of an enclosed grid is on an open
   * cell after any sequence of key presses, and has moved at most one cell
   * per press.
   */
  lemma {:induction false} MovesStayOpen(maze: Maze, position: seq<int>, directions: seq<string>)
    requires Enclosed(maze) && OnOpen(maze, position)
    ensures OnOpen(maze, MovedAll(maze, position, directions))
    ensures Manhattan(AsPos(position), AsPos(MovedAll(maze, position, directions))) <= |directions|
    decreases |directions|
  {
    if |directions| > 0 {
      MoveStaysOpen(maze, position, directions[0]);
      var next := Moved(maze, position, directions[0]);
      MoveIsUnitStep(maze, position, directions[0]);
      MovesStayOpen(maze, next, directions[1..]);
    }
  }

  /**
   * The generated maze (of side at least 4) is enclosed, so a player placed on
   * any of its open cells, the exit among them, can be moved by any key
   * presses without reading outside the grid.
   */
  lemma GeneratedIsEnclosed(c: MazeLayout.Layout, n: int, branchPicks: seq<(int, int)>, deadEndPicks: seq<(int, int)>)
    requires MazeLayout.Carved(c, n) && n >= 4
    requires MazeLayout.AllInterior(n, branchPicks) && MazeLayout.AllInterior(n, deadEndPicks)
    ensures var r := MazeLayout.FixExit(MazeLayout.DeadEnds(MazeLayout.BranchesAll(c, n, branchPicks), n, deadEndPicks), n);
      Enclosed(r) && OnOpen(r, [n - 2, n - 2])
  {
    MazeLayout.Generated(c, n, branchPicks, deadEndPicks);
  }
}
