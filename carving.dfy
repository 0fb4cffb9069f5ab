/**
 * The loop invariant of the backtracker in `generate_maze` (Maze.py:17-37):
 * from `(1, 1)` it carves two cells at a time towards an interior wall cell
 * two steps away, and it drops a cell from the stack once no direction is
 * carvable.
 */
module Carving {
  import opened MazeLayout

  /** The directions `generate_maze` shuffles before each step. */
  const CarveDirections: seq<(int, int)> := [(0, -1), (0, 1), (-1, 0), (1, 0)]

  /** A shuffle of `CarveDirections`, as `random.shuffle` produces. */
  predicate IsShuffle(d: seq<(int, int)>) {
    multiset(d) == multiset(CarveDirections)
  }

  predicate UnitStep(dx: int, dy: int) {
    (dx, dy) == (0, -1) || (dx, dy) == (0, 1) || (dx, dy) == (-1, 0) || (dx, dy) == (1, 0)
  }

  lemma ShuffleFacts(d: seq<(int, int)>)
    requires IsShuffle(d)
    ensures |d| == 4
    ensures forall k :: 0 <= k < |d| ==> UnitStep(d[k].0, d[k].1)
    ensures (0, -1) in d && (0, 1) in d && (-1, 0) in d && (1, 0) in d
  {
    assert |multiset(d)| == |multiset(CarveDirections)|;
    forall k | 0 <= k < |d| ensures UnitStep(d[k].0, d[k].1) {
      assert d[k] in multiset(d);
      assert d[k] in multiset(CarveDirections);
    }
    assert CarveDirections[0] in multiset(CarveDirections);
    assert CarveDirections[1] in multiset(CarveDirections);
    assert CarveDirections[2] in multiset(CarveDirections);
    assert CarveDirections[3] in multiset(CarveDirections);
  }

  /** The cell two steps from `(cx, cy)` in direction `(dx, dy)` is an interior wall. */
  predicate Carvable(g: Layout, n: int, cx: int, cy: int, dx: int, dy: int)
    requires Square(g, n)
  {
    Interior(n, cx + dx * 2, cy + dy * 2) && g[cy + dy * 2][cx + dx * 2] == 1
  }

  predicate OddCell(n: int, x: int, y: int) {
    Interior(n, x, y) && Odd(x) && Odd(y)
  }

  ghost function AllCells(n: nat): set<(int, int)> {
    set y: int, x: int | 0 <= y < n && 0 <= x < n :: (x, y)
  }

  ghost predicate OnStack(g: Layout, n: int, stack: seq<(int, int)>)
    requires Square(g, n)
  {
    forall k :: 0 <= k < |stack| ==> OddCell(n, stack[k].0, stack[k].1) && g[stack[k].1][stack[k].0] == 0
  }

  /** Every open odd cell that has left the stack has no carvable direction. */
  ghost predicate Finished(g: Layout, n: int, stack: seq<(int, int)>)
    requires Square(g, n)
  {
    forall y, x :: OddCell(n, x, y) && g[y][x] == 0 && (x, y) !in stack ==> Surrounded(g, n, x, y)
  }

  /** Every interior wall is still in `walls`, the ghost measure that shrinks with every carve. */
  ghost predicate WallsIn(g: Layout, n: int, walls: set<(int, int)>)
    requires Square(g, n)
  {
    forall y, x :: Interior(n, x, y) && g[y][x] == 1 ==> (x, y) in walls
  }

  ghost predicate Framed(g: Layout, n: int)
    requires Square(g, n)
  {
    && Binary(g)
    && (forall y, x :: OnBorder(n, x, y) ==> g[y][x] == 1)
    && (forall y, x :: Interior(n, x, y) && !Odd(x) && !Odd(y) ==> g[y][x] == 1)
  }

  ghost predicate CarveInv(g: Layout, n: int, stack: seq<(int, int)>, walls: set<(int, int)>) {
    && Square(g, n) && n >= 3
    && Framed(g, n)
    && g[1][1] == 0
    && OnStack(g, n, stack)
    && Finished(g, n, stack)
    && WallsIn(g, n, walls)
  }

  /** The state after `maze[1][1] = 0` on a grid of walls. */
  lemma CarveInit(g: Layout, n: int)
    requires Square(g, n) && n >= 3
    requires forall y, x :: 0 <= y < n && 0 <= x < n ==> g[y][x] == 1
    ensures CarveInv(Set(g, 1, 1, 0), n, [(1, 1)], AllCells(n))
  {
    var h := Set(g, 1, 1, 0);
    assert OddCell(n, 1, 1);
    forall y, x | Interior(n, x, y) && h[y][x] == 1 ensures (x, y) in AllCells(n) {
    }
    forall y, x | 0 <= y < n && 0 <= x < n && h[y][x] == 0 ensures (x, y) == (1, 1) {
    }
  }

  /** The cell between an odd cell and the odd cell two steps away is on neither grid of walls nor odd cells. */
  lemma MidpointParity(n: int, cx: int, cy: int, dx: int, dy: int)
    requires OddCell(n, cx, cy) && UnitStep(dx, dy) && Interior(n, cx + dx * 2, cy + dy * 2)
    ensures Interior(n, cx + dx, cy + dy)
    ensures Odd(cx + dx) != Odd(cy + dy)
    ensures OddCell(n, cx + dx * 2, cy + dy * 2)
  {
  }

  lemma CarveFramed(g: Layout, n: int, cx: int, cy: int, dx: int, dy: int)
    requires Square(g, n) && Framed(g, n)
    requires OddCell(n, cx, cy) && UnitStep(dx, dy) && Interior(n, cx + dx * 2, cy + dy * 2)
    ensures Framed(Set(Set(g, cx + dx, cy + dy, 0), cx + dx * 2, cy + dy * 2, 0), n)
  {
    MidpointParity(n, cx, cy, dx, dy);
  }

  lemma CarveFinished(g: Layout, n: int, stack: seq<(int, int)>, cx: int, cy: int, dx: int, dy: int)
    requires Square(g, n) && Finished(g, n, stack) && Binary(g)
    requires OddCell(n, cx, cy) && UnitStep(dx, dy) && Interior(n, cx + dx * 2, cy + dy * 2)
    ensures Finished(Set(Set(g, cx + dx, cy + dy, 0), cx + dx * 2, cy + dy * 2, 0), n,
                     stack + [(cx + dx * 2, cy + dy * 2)])
  {
    var t := (cx + dx * 2, cy + dy * 2);
    var h := Set(Set(g, cx + dx, cy + dy, 0), t.0, t.1, 0);
    MidpointParity(n, cx, cy, dx, dy);
    forall y, x | OddCell(n, x, y) && h[y][x] == 0 && (x, y) !in stack + [t] ensures Surrounded(h, n, x, y) {
      assert (x, y) != (cx + dx, cy + dy);
      assert g[y][x] == 0 && (x, y) !in stack;
      assert Surrounded(g, n, x, y);
    }
  }

  lemma OnStackPush(g: Layout, n: int, stack: seq<(int, int)>, cx: int, cy: int, dx: int, dy: int, nx: int, ny: int)
    requires Square(g, n) && OnStack(g, n, stack)
    requires OddCell(n, cx, cy) && UnitStep(dx, dy) && Interior(n, nx, ny) && nx == cx + dx * 2 && ny == cy + dy * 2
    ensures OnStack(Set(Set(g, cx + dx, cy + dy, 0), nx, ny, 0), n, stack + [(nx, ny)])
  {
    var t := (nx, ny);
    var h := Set(Set(g, cx + dx, cy + dy, 0), nx, ny, 0);
    MidpointParity(n, cx, cy, dx, dy);
    forall k | 0 <= k < |stack + [t]|
      ensures OddCell(n, (stack + [t])[k].0, (stack + [t])[k].1) && h[(stack + [t])[k].1][(stack + [t])[k].0] == 0
    {
      if k < |stack| {
        assert (stack + [t])[k] == stack[k];
      }
    }
  }

  /**
   * `g'`, `stack'` and `walls'` are `g`, `stack` and `walls` after opening the
   * passage cell and the cell two steps from `(cx, cy)` towards `(dx, dy)`,
   * pushing the latter and ticking it off the walls.
   */
  ghost predicate Opened(g: Layout, n: int, stack: seq<(int, int)>, walls: set<(int, int)>,
                         cx: int, cy: int, dx: int, dy: int,
                         g': Layout, stack': seq<(int, int)>, walls': set<(int, int)>)
    requires Square(g, n) && Interior(n, cx + dx, cy + dy) && Interior(n, cx + dx * 2, cy + dy * 2)
  {
    && g' == Set(Set(g, cx + dx, cy + dy, 0), cx + dx * 2, cy + dy * 2, 0)
    && stack' == stack + [(cx + dx * 2, cy + dy * 2)]
    && walls' == walls - {(cx + dx * 2, cy + dy * 2)}
  }

  /**
   * One carving step of the backtracker: the cell two steps from `(cx, cy)`
   * towards `(dx, dy)` is an interior wall, and `g'`, `stack'` and `walls'`
   * are the state after opening it and the passage cell and pushing it.
   */
  ghost predicate CarvedTowards(g: Layout, n: int, stack: seq<(int, int)>, walls: set<(int, int)>,
                                cx: int, cy: int, dx: int, dy: int,
                                g': Layout, stack': seq<(int, int)>, walls': set<(int, int)>)
    requires Square(g, n)
  {
    && Carvable(g, n, cx, cy, dx, dy) && Interior(n, cx + dx, cy + dy)
    && Opened(g, n, stack, walls, cx, cy, dx, dy, g', stack', walls')
  }

  /** Carving towards a carvable direction keeps the invariant and uses up one wall. */
  lemma CarveStep(g: Layout, n: int, stack: seq<(int, int)>, walls: set<(int, int)>,
                  cx: int, cy: int, dx: int, dy: int, g': Layout, stack': seq<(int, int)>, walls': set<(int, int)>)
    requires CarveInv(g, n, stack, walls) && stack != [] && stack[|stack| - 1] == (cx, cy)
    requires UnitStep(dx, dy) && Carvable(g, n, cx, cy, dx, dy) && Interior(n, cx + dx, cy + dy)
    requires Opened(g, n, stack, walls, cx, cy, dx, dy, g', stack', walls')
    ensures CarvedTowards(g, n, stack, walls, cx, cy, dx, dy, g', stack', walls')
    ensures CarveInv(g', n, stack', walls') && walls' < walls
  {
    var nx, ny := cx + dx * 2, cy + dy * 2;
    assert OddCell(n, cx, cy) by {
      assert OnStack(g, n, stack);
      assert OddCell(n, stack[|stack| - 1].0, stack[|stack| - 1].1);
    }
    MidpointParity(n, cx, cy, dx, dy);
    CarveFramed(g, n, cx, cy, dx, dy);
    CarveFinished(g, n, stack, cx, cy, dx, dy);
    OnStackPush(g, n, stack, cx, cy, dx, dy, nx, ny);
    assert WallsIn(g', n, walls') by {
      forall y, x | Interior(n, x, y) && g'[y][x] == 1 ensures (x, y) in walls' {
        assert g[y][x] == 1;
      }
    }
    assert (nx, ny) in walls && (nx, ny) !in walls';
  }

  /** A cell with no carvable direction is surrounded by open cells. */
  lemma NoneCarvableSurrounded(g: Layout, n: int, cx: int, cy: int)
    requires Square(g, n) && Binary(g)
    requires !Carvable(g, n, cx, cy, 0, -1) && !Carvable(g, n, cx, cy, 0, 1)
    requires !Carvable(g, n, cx, cy, -1, 0) && !Carvable(g, n, cx, cy, 1, 0)
    ensures Surrounded(g, n, cx, cy)
  {
  }

  lemma OnStackPop(g: Layout, n: int, stack: seq<(int, int)>)
    requires Square(g, n) && OnStack(g, n, stack) && stack != []
    ensures OnStack(g, n, stack[..|stack| - 1])
  {
    var s := stack[..|stack| - 1];
    forall k | 0 <= k < |s| ensures OddCell(n, s[k].0, s[k].1) && g[s[k].1][s[k].0] == 0 {
      assert s[k] == stack[k];
    }
  }

  lemma FinishedPop(g: Layout, n: int, stack: seq<(int, int)>, cx: int, cy: int)
    requires Square(g, n) && Finished(g, n, stack) && stack != [] && stack[|stack| - 1].0 == cx && stack[|stack| - 1].1 == cy
    requires Surrounded(g, n, cx, cy)
    ensures Finished(g, n, stack[..|stack| - 1])
  {
    var s := stack[..|stack| - 1];
    forall y, x | OddCell(n, x, y) && g[y][x] == 0 && (x, y) !in s ensures Surrounded(g, n, x, y) {
      if (x, y) != (cx, cy) {
        assert (x, y) !in stack;
      }
    }
  }

  /** Dropping the top of the stack once none of the four directions is carvable keeps the invariant. */
  lemma CarvePop(g: Layout, n: int, stack: seq<(int, int)>, walls: set<(int, int)>, cx: int, cy: int)
    requires CarveInv(g, n, stack, walls) && stack != [] && stack[|stack| - 1].0 == cx && stack[|stack| - 1].1 == cy
    requires !Carvable(g, n, cx, cy, 0, -1) && !Carvable(g, n, cx, cy, 0, 1)
    requires !Carvable(g, n, cx, cy, -1, 0) && !Carvable(g, n, cx, cy, 1, 0)
    ensures CarveInv(g, n, stack[..|stack| - 1], walls)
  {
    NoneCarvableSurrounded(g, n, cx, cy);
    OnStackPop(g, n, stack);
    FinishedPop(g, n, stack, cx, cy);
  }

  /** No entry of a shuffle is carvable, so none of the four directions is. */
  lemma NoneCarvable(g: Layout, n: int, cx: int, cy: int, d: seq<(int, int)>)
    requires Square(g, n) && IsShuffle(d)
    requires forall k :: 0 <= k < |d| ==> !Carvable(g, n, cx, cy, d[k].0, d[k].1)
    ensures !Carvable(g, n, cx, cy, 0, -1) && !Carvable(g, n, cx, cy, 0, 1)
    ensures !Carvable(g, n, cx, cy, -1, 0) && !Carvable(g, n, cx, cy, 1, 0)
  {
    ShuffleFacts(d);
    var a :| 0 <= a < |d| && d[a] == (0, -1);
    var b :| 0 <= b < |d| && d[b] == (0, 1);
    var c :| 0 <= c < |d| && d[c] == (-1, 0);
    var e :| 0 <= e < |d| && d[e] == (1, 0);
    assert !Carvable(g, n, cx, cy, d[a].0, d[a].1);
    assert !Carvable(g, n, cx, cy, d[b].0, d[b].1);
    assert !Carvable(g, n, cx, cy, d[c].0, d[c].1);
    assert !Carvable(g, n, cx, cy, d[e].0, d[e].1);
  }

  /** When the stack is empty every odd interior cell is open: the backtracker's result is carved. */
  lemma CarveDone(g: Layout, n: int, walls: set<(int, int)>)
    requires CarveInv(g, n, [], walls)
    ensures Carved(g, n)
  {
    assert Framed(g, n);
    forall y, x | Interior(n, x, y) && Odd(x) && Odd(y) ensures g[y][x] == 0 {
      assert Finished(g, n, []);
      AllOddOpen(g, n, x, y);
    }
  }
}
