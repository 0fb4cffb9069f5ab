/**
 * `Maze` (Maze.py:7-90): the grid is a fixed-size two-dimensional buffer
 * that `generate_maze` fills in place. The random choices are inputs: the
 * shuffle of the four directions for every step of the backtracker, and the
 * cells `randint(1, grid_size - 2)` picks for the branches and dead ends.
 */
module MazeGeneration {
  import opened MazeLayout
  import opened Carving

  /** `g` holds the rows of `m`: `g[y][x] == m[y, x]`. */
  ghost predicate Mirrors(m: array2<int>, g: Layout)
    reads m
  {
    && |g| == m.Length0
    && (forall y :: 0 <= y < |g| ==> |g[y]| == m.Length1)
    && (forall y, x :: 0 <= y < m.Length0 && 0 <= x < m.Length1 ==> g[y][x] == m[y, x])
  }

  /** The grid held in `m`, as rows. */
  ghost function Snapshot(m: array2<int>): (g: Layout)
    reads m
    ensures Mirrors(m, g)
  {
    seq(m.Length0, y requires 0 <= y < m.Length0 reads m =>
      seq(m.Length1, x requires 0 <= x < m.Length1 reads m => m[y, x]))
  }

  /** Rows that mirror `m` are its snapshot. */
  lemma MirrorsSnapshot(m: array2<int>, g: Layout)
    requires Mirrors(m, g)
    ensures Snapshot(m) == g
  {
    var s := Snapshot(m);
    forall y | 0 <= y < |g| ensures s[y] == g[y] {
      assert |s[y]| == |g[y]|;
    }
  }

  /** `maze[y][x] = v`. */
  method SetCell(m: array2<int>, x: int, y: int, v: int, ghost g: Layout)
    requires 0 <= y < m.Length0 && 0 <= x < m.Length1 && Mirrors(m, g)
    modifies m
    ensures Mirrors(m, Set(g, x, y, v))
  {
    m[y, x] := v;
  }

  /** A grid `generate_maze` can return: some carved grid with the branches, dead ends and exit applied. */
  ghost predicate GeneratedFrom(g: Layout, n: int, branchPicks: seq<(int, int)>, deadEndPicks: seq<(int, int)>)
    requires n >= 3 && AllInterior(n, branchPicks) && AllInterior(n, deadEndPicks)
  {
    exists c :: Carved(c, n) && g == FixExit(DeadEnds(BranchesAll(c, n, branchPicks), n, deadEndPicks), n)
  }

  class Maze {
    const cellSize: int
    const gridSize: int
    var maze: array2<int>

    constructor (gridSize: int, cellSize: int, shuffle: nat -> seq<(int, int)>,
                 branchPicks: seq<(int, int)>, deadEndPicks: seq<(int, int)>)
      requires gridSize >= 3 && forall k: nat :: IsShuffle(shuffle(k))
      requires |branchPicks| == gridSize * gridSize / 20 && AllInterior(gridSize, branchPicks)
      requires |deadEndPicks| == gridSize * gridSize / 15 && AllInterior(gridSize, deadEndPicks)
      ensures this.gridSize == gridSize && this.cellSize == cellSize
      ensures fresh(maze) && maze.Length0 == gridSize && maze.Length1 == gridSize
      ensures GeneratedFrom(Snapshot(maze), gridSize, branchPicks, deadEndPicks)
    {
      this.cellSize := cellSize;
      this.gridSize := gridSize;
      var m := Maze.GenerateMaze(gridSize, shuffle, branchPicks, deadEndPicks);
      maze := m;
    }

    /**
     * `generate_maze`: walls everywhere, the backtracker from `(1, 1)`, the
     * branches, the dead ends, and the exit `(n-2, n-2)` opened and, when
     * it has no open 4-neighbour, joined to the cell above it.
     */
    static method GenerateMaze(n: int, shuffle: nat -> seq<(int, int)>,
                               branchPicks: seq<(int, int)>, deadEndPicks: seq<(int, int)>)
      returns (m: array2<int>)
      requires n >= 3 && forall k: nat :: IsShuffle(shuffle(k))
      requires |branchPicks| == n * n / 20 && AllInterior(n, branchPicks)
      requires |deadEndPicks| == n * n / 15 && AllInterior(n, deadEndPicks)
      ensures fresh(m) && m.Length0 == n && m.Length1 == n
      ensures GeneratedFrom(Snapshot(m), n, branchPicks, deadEndPicks)
      ensures Binary(Snapshot(m))
      ensures m[n - 2, n - 2] == 0 && |OpenNeighbours(Snapshot(m), n, n - 2, n - 2)| >= 1
      ensures n >= 4 ==> forall y, x :: OnBorder(n, x, y) ==> m[y, x] == 1
    {
      m := new int[n, n]((_, _) => 1);
      ghost var c := CarvePassages(m, n, shuffle);
      ghost var b := BranchesAll(c, n, branchPicks);
      ghost var d := DeadEnds(b, n, deadEndPicks);
      AddBranches(m, n, branchPicks, c);
      AddDeadEnds(m, n, deadEndPicks, b);
      var e := n - 2;
      SetCell(m, e, e, 0, d);
      ghost var h := Set(d, e, e, 0);
      OpenNeighbourCountZero(h, n, e, e);
      if !(m[e, e - 1] == 0 || m[e, e + 1] == 0 || m[e - 1, e] == 0 || m[e + 1, e] == 0) {
        SetCell(m, e, e - 1, 0, h);
      }
      ghost var r := FixExit(d, n);
      assert Mirrors(m, r);
      MirrorsSnapshot(m, r);
      Generated(c, n, branchPicks, deadEndPicks);
    }

    /**
     * The backtracker of `generate_maze` (its `while stack` loop);
     * `shuffle(k)` is the order `random.shuffle` gives at its `k`-th step.
     * The grid it leaves is returned as `carved`.
     */
    static method CarvePassages(m: array2<int>, n: int, shuffle: nat -> seq<(int, int)>)
      returns (ghost carved: Layout)
      requires m.Length0 == n && m.Length1 == n && n >= 3
      requires forall y, x :: 0 <= y < n && 0 <= x < n ==> m[y, x] == 1
      requires forall k: nat :: IsShuffle(shuffle(k))
      modifies m
      ensures Mirrors(m, carved) && Carved(carved, n)
    {
      ghost var g0 := seq(n, y => seq(n, x => 1));
      CarveInit(g0, n);
      var stack := [(1, 1)];
      SetCell(m, 1, 1, 0, g0);
      ghost var g := Set(g0, 1, 1, 0);
      ghost var walls := AllCells(n);
      var step: nat := 0;
      while stack != []
        invariant Mirrors(m, g) && CarveInv(g, n, stack, walls)
        decreases walls, |stack|
      {
        var directions := shuffle(step);
        step := step + 1;
        var j;
        stack, j, g, walls := BacktrackStep(m, n, stack, directions, g, walls);
      }
      CarveDone(g, n, walls);
      carved := g;
    }

    /**
     * One turn of the `while stack` loop: carve towards the first carvable
     * direction of `directions`, whose index is returned as `j`, and push the
     * new cell, or pop when there is none (`j == 4`).
     */
    static method BacktrackStep(m: array2<int>, n: int, stack: seq<(int, int)>, directions: seq<(int, int)>,
                                ghost g: Layout, ghost walls: set<(int, int)>)
      returns (stack': seq<(int, int)>, j: int, ghost g': Layout, ghost walls': set<(int, int)>)
      requires m.Length0 == n && m.Length1 == n && Mirrors(m, g) && IsShuffle(directions)
      requires CarveInv(g, n, stack, walls) && stack != []
      modifies m
      ensures Mirrors(m, g') && CarveInv(g', n, stack', walls')
      ensures walls' < walls || (walls' == walls && |stack'| < |stack|)
      ensures 0 <= j <= 4 == |directions|
      ensures forall k :: 0 <= k < j ==>
                !Carvable(g, n, stack[|stack| - 1].0, stack[|stack| - 1].1, directions[k].0, directions[k].1)
      ensures j < 4 ==> CarvedTowards(g, n, stack, walls, stack[|stack| - 1].0, stack[|stack| - 1].1,
                                      directions[j].0, directions[j].1, g', stack', walls')
      ensures j == 4 ==> g' == g && stack' == stack[..|stack| - 1] && walls' == walls
    {
      j := FirstCarvable(m, n, stack[|stack| - 1].0, stack[|stack| - 1].1, directions, g);
      if j < 4 {
        assert OddCell(n, stack[|stack| - 1].0, stack[|stack| - 1].1) by { assert OnStack(g, n, stack); }
        MidpointParity(n, stack[|stack| - 1].0, stack[|stack| - 1].1, directions[j].0, directions[j].1);
        stack', g', walls' := CarveTowards(m, n, stack, stack[|stack| - 1].0, stack[|stack| - 1].1,
                                           directions[j].0, directions[j].1, g, walls);
        CarveStep(g, n, stack, walls, stack[|stack| - 1].0, stack[|stack| - 1].1, directions[j].0, directions[j].1,
                  g', stack', walls');
      } else {
        NoneCarvable(g, n, stack[|stack| - 1].0, stack[|stack| - 1].1, directions);
        CarvePop(g, n, stack, walls, stack[|stack| - 1].0, stack[|stack| - 1].1);
        g', walls' := g, walls;
        stack' := stack[..|stack| - 1];
      }
    }

    /**
     * The carving branch of the backtracker: open the passage cell and the
     * cell two steps from `(cx, cy)` in direction `(dx, dy)`, and push the
     * latter.
     */
    static method CarveTowards(m: array2<int>, n: int, stack: seq<(int, int)>, cx: int, cy: int, dx: int, dy: int,
                               ghost g: Layout, ghost walls: set<(int, int)>)
      returns (stack': seq<(int, int)>, ghost g': Layout, ghost walls': set<(int, int)>)
      requires m.Length0 == n && m.Length1 == n && Mirrors(m, g)
      requires Interior(n, cx + dx, cy + dy) && Interior(n, cx + dx * 2, cy + dy * 2)
      modifies m
      ensures Mirrors(m, g') && Opened(g, n, stack, walls, cx, cy, dx, dy, g', stack', walls')
    {
      SetCell(m, cx + dx, cy + dy, 0, g);
      SetCell(m, cx + dx * 2, cy + dy * 2, 0, Set(g, cx + dx, cy + dy, 0));
      g' := Set(Set(g, cx + dx, cy + dy, 0), cx + dx * 2, cy + dy * 2, 0);
      stack' := stack + [(cx + dx * 2, cy + dy * 2)];
      walls' := walls - {(cx + dx * 2, cy + dy * 2)};
    }

    /**
     * The `for dx, dy in directions` loop of the backtracker up to its
     * `break`: the first direction whose cell two steps away is an interior
     * wall, or 4 when there is none.
     */
    static method FirstCarvable(m: array2<int>, n: int, cx: int, cy: int, directions: seq<(int, int)>,
                                ghost g: Layout) returns (j: int)
      requires m.Length0 == n && m.Length1 == n && Mirrors(m, g) && IsShuffle(directions)
      ensures 0 <= j <= 4 == |directions|
      ensures j < 4 ==> UnitStep(directions[j].0, directions[j].1) &&
                        Carvable(g, n, cx, cy, directions[j].0, directions[j].1)
      ensures forall k :: 0 <= k < j ==> !Carvable(g, n, cx, cy, directions[k].0, directions[k].1)
    {
      ShuffleFacts(directions);
      j := 0;
      while j < 4
        invariant 0 <= j <= 4
        invariant forall k :: 0 <= k < j ==> !Carvable(g, n, cx, cy, directions[k].0, directions[k].1)
      {
        var dx, dy := directions[j].0, directions[j].1;
        var nx, ny := cx + dx * 2, cy + dy * 2;
        if 1 <= nx < n - 1 && 1 <= ny < n - 1 && m[ny, nx] == 1 {
          return;
        }
        j := j + 1;
      }
    }

    /** `add_branches`: `n * n / 20` picks, each applied as `BranchAt`. */
    static method AddBranches(m: array2<int>, n: int, picks: seq<(int, int)>, ghost g0: Layout)
      requires m.Length0 == n && m.Length1 == n && Mirrors(m, g0)
      requires |picks| == n * n / 20 && AllInterior(n, picks)
      modifies m
      ensures Mirrors(m, BranchesAll(g0, n, picks))
    {
      var branchCount := n * n / 20;
      for i := 0 to branchCount
        invariant Mirrors(m, BranchesAll(g0, n, picks[..i]))
      {
        var x, y := picks[i].0, picks[i].1;
        BranchesAllSnoc(g0, n, picks, i);
        BranchPick(m, n, x, y, BranchesAll(g0, n, picks[..i]));
      }
      assert picks[..|picks|] == picks;
    }

    /** The body of the `add_branches` loop for the picked cell `(x, y)`. */
    static method BranchPick(m: array2<int>, n: int, x: int, y: int, ghost g: Layout)
      requires m.Length0 == n && m.Length1 == n && Mirrors(m, g) && Interior(n, x, y)
      modifies m
      ensures Mirrors(m, BranchAt(g, n, x, y))
    {
      if m[y, x] == 1 {
        var neighbors := BranchTargets(m, n, x, y, g);
        if |neighbors| >= 2 {
          SetCell(m, x, y, 0, g);
          OpenConnectors(m, n, x, y, neighbors, Set(g, x, y, 0));
        }
      }
    }

    /** The `neighbors` list of `add_branches`: the interior open cells two steps away, in offset order. */
    static method BranchTargets(m: array2<int>, n: int, x: int, y: int, ghost g: Layout)
      returns (neighbors: seq<(int, int)>)
      requires m.Length0 == n && m.Length1 == n && Mirrors(m, g)
      ensures neighbors == Targets(g, n, x, y, 4)
    {
      neighbors := [];
      for k := 0 to 4
        invariant neighbors == Targets(g, n, x, y, k)
      {
        var dx, dy := BranchOffsets[k].0, BranchOffsets[k].1;
        var nx, ny := x + dx, y + dy;
        TargetsNext(g, n, x, y, k, nx, ny);
        if 1 <= nx < n - 1 && 1 <= ny < n - 1 && m[ny, nx] == 0 {
          neighbors := neighbors + [(nx, ny)];
        }
      }
    }

    /** The inner loop of `add_branches`: the cell between `(x, y)` and each target is opened. */
    static method OpenConnectors(m: array2<int>, n: int, x: int, y: int, neighbors: seq<(int, int)>, ghost h: Layout)
      requires m.Length0 == n && m.Length1 == n && Mirrors(m, h) && Interior(n, x, y)
      requires forall j :: 0 <= j < |neighbors| ==> Interior(n, neighbors[j].0, neighbors[j].1)
      modifies m
      ensures forall q :: q in Midpoints(x, y, neighbors) ==> InSquare(n, q.0, q.1)
      ensures Mirrors(m, OpenAll(h, n, Midpoints(x, y, neighbors)))
    {
      for k := 0 to |neighbors|
        invariant forall q :: q in Midpoints(x, y, neighbors[..k]) ==> InSquare(n, q.0, q.1)
        invariant Mirrors(m, OpenAll(h, n, Midpoints(x, y, neighbors[..k])))
      {
        var nx, ny := neighbors[k].0, neighbors[k].1;
        ghost var q := Midpoint(x, y, neighbors[k]);
        ghost var before := OpenAll(h, n, Midpoints(x, y, neighbors[..k]));
        assert q.0 == (x + nx) / 2 && q.1 == (y + ny) / 2;
        MidpointsInside(n, x, y, neighbors[..k + 1]);
        assert OpenAll(h, n, Midpoints(x, y, neighbors[..k + 1])) == Set(before, q.0, q.1, 0) by {
          MidpointsSnoc(x, y, neighbors, k);
          OpenAllSnoc(h, n, Midpoints(x, y, neighbors[..k]), q);
        }
        SetCell(m, (x + nx) / 2, (y + ny) / 2, 0, before);
      }
      assert neighbors[..|neighbors|] == neighbors;
    }

    /** `add_dead_ends`: `n * n / 15` picks, each applied as `DeadEndAt`. */
    static method AddDeadEnds(m: array2<int>, n: int, picks: seq<(int, int)>, ghost g0: Layout)
      requires m.Length0 == n && m.Length1 == n && Mirrors(m, g0)
      requires |picks| == n * n / 15 && AllInterior(n, picks)
      modifies m
      ensures Mirrors(m, DeadEnds(g0, n, picks))
    {
      var deadEndCount := n * n / 15;
      for i := 0 to deadEndCount
        invariant Mirrors(m, DeadEnds(g0, n, picks[..i]))
      {
        var x, y := picks[i].0, picks[i].1;
        DeadEndsSnoc(g0, n, picks, i);
        ghost var g := DeadEnds(g0, n, picks[..i]);
        if m[y, x] == 0 {
          var valid := IsValidDeadEnd(m, n, x, y, g);
          if valid {
            SetCell(m, x, y, 1, g);
          }
        }
      }
      assert picks[..|picks|] == picks;
    }

    /** `is_valid_dead_end`: exactly one of the 4-neighbours of `(x, y)` is inside the grid and open. */
    static method IsValidDeadEnd(m: array2<int>, n: int, x: int, y: int, ghost g: Layout) returns (r: bool)
      requires m.Length0 == n && m.Length1 == n && Mirrors(m, g)
      ensures r <==> |OpenNeighbours(g, n, x, y)| == 1
    {
      var openNeighbors := 0;
      for k := 0 to 4
        invariant openNeighbors == CountOpen(g, n, x, y, k)
      {
        var dx, dy := NeighbourOffsets[k].0, NeighbourOffsets[k].1;
        var nx, ny := x + dx, y + dy;
        if 0 <= nx < n && 0 <= ny < n && m[ny, nx] == 0 {
          openNeighbors := openNeighbors + 1;
        }
      }
      OpenNeighbourCountIsCard(g, n, x, y);
      r := openNeighbors == 1;
    }
  }
}
