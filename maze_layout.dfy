/**
 * Grids as Maze.py builds them (`maze[y][x]`, 1 = wall, 0 = open), and the
 * effect of each post-processing step of `generate_maze` on such a grid:
 * one branch (Maze.py:56-72), one dead end (Maze.py:74-90) and the exit
 * fix-up (Maze.py:45-51).
 */
module MazeLayout {
  type Layout = seq<seq<int>>

  /** The order `is_valid_dead_end` and the exit fix-up look at 4-neighbours in. */
  const NeighbourOffsets: seq<(int, int)> := [(-1, 0), (1, 0), (0, -1), (0, 1)]
  /** The order `add_branches` looks at the cells two steps away in. */
  const BranchOffsets: seq<(int, int)> := [(-2, 0), (2, 0), (0, -2), (0, 2)]

  predicate Square(g: Layout, n: int) {
    |g| == n && forall y :: 0 <= y < n ==> |g[y]| == n
  }

  /** Every cell is a wall or open. */
  predicate Binary(g: Layout) {
    forall y, x :: 0 <= y < |g| && 0 <= x < |g[y]| ==> g[y][x] == 0 || g[y][x] == 1
  }

  predicate InSquare(n: int, x: int, y: int) {
    0 <= x < n && 0 <= y < n
  }

  /** The cells `randint(1, grid_size - 2)` can pick, and the only ones carving writes. */
  predicate Interior(n: int, x: int, y: int) {
    1 <= x < n - 1 && 1 <= y < n - 1
  }

  predicate Adjacent(x: int, y: int, i: int, j: int) {
    (i, j) == (x - 1, y) || (i, j) == (x + 1, y) || (i, j) == (x, y - 1) || (i, j) == (x, y + 1)
  }

  predicate OnBorder(n: int, x: int, y: int) {
    InSquare(n, x, y) && !Interior(n, x, y)
  }

  function Set(g: Layout, x: int, y: int, v: int): (r: Layout)
    requires 0 <= y < |g| && 0 <= x < |g[y]|
    ensures |r| == |g| && forall j :: 0 <= j < |g| ==> |r[j]| == |g[j]|
    ensures forall j, i :: 0 <= j < |g| && 0 <= i < |g[j]| ==> r[j][i] == if (i, j) == (x, y) then v else g[j][i]
  {
    g[y := g[y][x := v]]
  }

  // ---------------------------------------------------------------- dead ends

  /** `(x, y)` is inside the grid and open. */
  predicate OpenIn(g: Layout, n: int, p: (int, int))
    requires Square(g, n)
  {
    InSquare(n, p.0, p.1) && g[p.1][p.0] == 0
  }

  function Step(x: int, y: int, d: (int, int)): (int, int) {
    (x + d.0, y + d.1)
  }

  /** Number of in-bounds open cells among the first `k` of the 4-neighbours of `(x, y)`. */
  function CountOpen(g: Layout, n: int, x: int, y: int, k: nat): (c: nat)
    requires Square(g, n) && k <= 4
    ensures c <= k
  {
    if k == 0 then 0
    else CountOpen(g, n, x, y, k - 1) + (if OpenIn(g, n, Step(x, y, NeighbourOffsets[k - 1])) then 1 else 0)
  }

  function OpenNeighbourCount(g: Layout, n: int, x: int, y: int): nat
    requires Square(g, n)
  {
    CountOpen(g, n, x, y, 4)
  }

  function When(b: bool, p: (int, int)): set<(int, int)> {
    if b then {p} else {}
  }

  /** The in-bounds open 4-neighbours of `(x, y)`, as a set. */
  function OpenNeighbours(g: Layout, n: int, x: int, y: int): set<(int, int)>
    requires Square(g, n)
  {
    When(OpenIn(g, n, (x - 1, y)), (x - 1, y)) + When(OpenIn(g, n, (x + 1, y)), (x + 1, y)) +
    When(OpenIn(g, n, (x, y - 1)), (x, y - 1)) + When(OpenIn(g, n, (x, y + 1)), (x, y + 1))
  }

  /** The sizes of four singleton-or-empty sets of distinct cells add up. */
  lemma FourDistinct(a: (int, int), b: (int, int), c: (int, int), d: (int, int), pa: bool, pb: bool, pc: bool, pd: bool)
    requires a != b && a != c && a != d && b != c && b != d && c != d
    ensures |When(pa, a) + When(pb, b) + When(pc, c) + When(pd, d)| ==
      |When(pa, a)| + |When(pb, b)| + |When(pc, c)| + |When(pd, d)|
  {
    var A, B, C, D := When(pa, a), When(pb, b), When(pc, c), When(pd, d);
    assert |A + B| == |A| + |B| by { assert A * B == {}; }
    assert |A + B + C| == |A + B| + |C| by { assert (A + B) * C == {}; }
    assert |A + B + C + D| == |A + B + C| + |D| by { assert (A + B + C) * D == {}; }
  }

  /** The count `is_valid_dead_end` computes is the number of distinct open 4-neighbours. */
  lemma OpenNeighbourCountIsCard(g: Layout, n: int, x: int, y: int)
    requires Square(g, n)
    ensures OpenNeighbourCount(g, n, x, y) == |OpenNeighbours(g, n, x, y)|
  {
    var l, r, u, d := (x - 1, y), (x + 1, y), (x, y - 1), (x, y + 1);
    assert Step(x, y, NeighbourOffsets[0]) == l && Step(x, y, NeighbourOffsets[1]) == r;
    assert Step(x, y, NeighbourOffsets[2]) == u && Step(x, y, NeighbourOffsets[3]) == d;
    var L, R, U, D := When(OpenIn(g, n, l), l), When(OpenIn(g, n, r), r), When(OpenIn(g, n, u), u), When(OpenIn(g, n, d), d);
    assert CountOpen(g, n, x, y, 1) == |L|;
    assert CountOpen(g, n, x, y, 2) == |L| + |R|;
    assert CountOpen(g, n, x, y, 3) == |L| + |R| + |U|;
    assert CountOpen(g, n, x, y, 4) == |L| + |R| + |U| + |D|;
    FourDistinct(l, r, u, d, OpenIn(g, n, l), OpenIn(g, n, r), OpenIn(g, n, u), OpenIn(g, n, d));
  }

  /** One dead-end pick: an open cell with exactly one open neighbour becomes a wall. */
  function DeadEndAt(g: Layout, n: int, x: int, y: int): (r: Layout)
    requires Square(g, n) && Interior(n, x, y)
    ensures Square(r, n)
    ensures forall j, i :: 0 <= j < n && 0 <= i < n ==>
      r[j][i] == if (i, j) == (x, y) && g[y][x] == 0 && |OpenNeighbours(g, n, x, y)| == 1 then 1 else g[j][i]
  {
    OpenNeighbourCountIsCard(g, n, x, y);
    if g[y][x] == 0 && OpenNeighbourCount(g, n, x, y) == 1 then Set(g, x, y, 1) else g
  }

  predicate AllInterior(n: int, picks: seq<(int, int)>) {
    forall k :: 0 <= k < |picks| ==> Interior(n, picks[k].0, picks[k].1)
  }

  /** `add_dead_ends`: the picks applied in order. */
  function DeadEnds(g: Layout, n: int, picks: seq<(int, int)>): (r: Layout)
    requires Square(g, n) && AllInterior(n, picks)
    ensures Square(r, n)
    decreases |picks|
  {
    if picks == [] then g
    else
      var last := picks[|picks| - 1];
      DeadEndAt(DeadEnds(g, n, picks[..|picks| - 1]), n, last.0, last.1)
  }

  lemma DeadEndsSnoc(g: Layout, n: int, picks: seq<(int, int)>, i: int)
    requires Square(g, n) && AllInterior(n, picks) && 0 <= i < |picks|
    ensures AllInterior(n, picks[..i]) && AllInterior(n, picks[..i + 1])
    ensures DeadEnds(g, n, picks[..i + 1]) == DeadEndAt(DeadEnds(g, n, picks[..i]), n, picks[i].0, picks[i].1)
  {
    assert picks[..i + 1][..i] == picks[..i];
  }

  /** Dead ends only ever turn open cells into walls, never on the border. */
  lemma {:induction false} DeadEndsOnlyClose(g: Layout, n: int, picks: seq<(int, int)>)
    requires Square(g, n) && AllInterior(n, picks)
    ensures forall j, i :: 0 <= j < n && 0 <= i < n && DeadEnds(g, n, picks)[j][i] != g[j][i] ==>
      g[j][i] == 0 && DeadEnds(g, n, picks)[j][i] == 1 && Interior(n, i, j)
    decreases |picks|
  {
    if picks != [] {
      var front := picks[..|picks| - 1];
      DeadEndsOnlyClose(g, n, front);
      var h := DeadEnds(g, n, front);
      var last := picks[|picks| - 1];
      forall j, i | 0 <= j < n && 0 <= i < n && DeadEnds(g, n, picks)[j][i] != g[j][i]
        ensures g[j][i] == 0 && DeadEnds(g, n, picks)[j][i] == 1 && Interior(n, i, j)
      {
        if DeadEnds(g, n, picks)[j][i] != h[j][i] {
          assert (i, j) == last && h[j][i] == 0;
        }
      }
    }
  }

  // ---------------------------------------------------------------- branches

  /** A cell two steps away that `add_branches` would connect to: interior and open. */
  predicate Target(g: Layout, n: int, p: (int, int))
    requires Square(g, n)
  {
    Interior(n, p.0, p.1) && g[p.1][p.0] == 0
  }

  function Opt(b: bool, p: (int, int)): seq<(int, int)> {
    if b then [p] else []
  }

  /** The targets among the first `k` offsets, in the order `add_branches` appends them. */
  function Targets(g: Layout, n: int, x: int, y: int, k: nat): (t: seq<(int, int)>)
    requires Square(g, n) && k <= 4
    ensures |t| <= k
    ensures forall j :: 0 <= j < |t| ==> Target(g, n, t[j])
  {
    if k == 0 then []
    else
      var p := Step(x, y, BranchOffsets[k - 1]);
      Targets(g, n, x, y, k - 1) + Opt(Target(g, n, p), p)
  }

  /** One more offset of `add_branches`'s neighbour loop, with the cell `(nx, ny)` it looks at. */
  lemma TargetsNext(g: Layout, n: int, x: int, y: int, k: nat, nx: int, ny: int)
    requires Square(g, n) && k < 4
    requires nx == x + BranchOffsets[k].0 && ny == y + BranchOffsets[k].1
    ensures Targets(g, n, x, y, k + 1) == Targets(g, n, x, y, k) + Opt(Target(g, n, (nx, ny)), (nx, ny))
  {
    assert Step(x, y, BranchOffsets[k]) == (nx, ny);
  }

  lemma TargetsMember(g: Layout, n: int, x: int, y: int, q: (int, int))
    requires Square(g, n)
    ensures q in Targets(g, n, x, y, 4) <==>
      (q == (x - 2, y) || q == (x + 2, y) || q == (x, y - 2) || q == (x, y + 2)) && Target(g, n, q)
  {
    var a, b, c, d := (x - 2, y), (x + 2, y), (x, y - 2), (x, y + 2);
    assert Step(x, y, BranchOffsets[0]) == a && Step(x, y, BranchOffsets[1]) == b;
    assert Step(x, y, BranchOffsets[2]) == c && Step(x, y, BranchOffsets[3]) == d;
    assert Targets(g, n, x, y, 1) == Opt(Target(g, n, a), a);
    assert Targets(g, n, x, y, 2) == Targets(g, n, x, y, 1) + Opt(Target(g, n, b), b);
    assert Targets(g, n, x, y, 3) == Targets(g, n, x, y, 2) + Opt(Target(g, n, c), c);
    assert Targets(g, n, x, y, 4) == Targets(g, n, x, y, 3) + Opt(Target(g, n, d), d);
    assert Targets(g, n, x, y, 4) ==
      Opt(Target(g, n, a), a) + Opt(Target(g, n, b), b) + Opt(Target(g, n, c), c) + Opt(Target(g, n, d), d);
  }

  /** The cell between `(x, y)` and a cell two steps away, as `((x + nx) // 2, (y + ny) // 2)`. */
  function Midpoint(x: int, y: int, p: (int, int)): (int, int) {
    ((x + p.0) / 2, (y + p.1) / 2)
  }

  /** A wall cell with at least two targets gets a branch. */
  predicate Branches(g: Layout, n: int, x: int, y: int)
    requires Square(g, n)
  {
    0 <= y < n && 0 <= x < n && g[y][x] == 1 && |Targets(g, n, x, y, 4)| >= 2
  }

  function Midpoints(x: int, y: int, t: seq<(int, int)>): (c: seq<(int, int)>)
    ensures |c| == |t| && forall k :: 0 <= k < |t| ==> c[k] == Midpoint(x, y, t[k])
  {
    if t == [] then [] else Midpoints(x, y, t[..|t| - 1]) + [Midpoint(x, y, t[|t| - 1])]
  }

  /** The midpoints towards interior cells, from an interior cell, are interior. */
  lemma MidpointsInside(n: int, x: int, y: int, t: seq<(int, int)>)
    requires Interior(n, x, y) && forall j :: 0 <= j < |t| ==> Interior(n, t[j].0, t[j].1)
    ensures forall q :: q in Midpoints(x, y, t) ==> Interior(n, q.0, q.1) && InSquare(n, q.0, q.1)
  {
    var c := Midpoints(x, y, t);
    forall q | q in c ensures Interior(n, q.0, q.1) && InSquare(n, q.0, q.1) {
      var k :| 0 <= k < |c| && c[k] == q;
      assert Interior(n, t[k].0, t[k].1);
    }
  }

  lemma MidpointsMember(x: int, y: int, t: seq<(int, int)>, q: (int, int))
    ensures q in Midpoints(x, y, t) <==> exists p :: p in t && Midpoint(x, y, p) == q
  {
    var c := Midpoints(x, y, t);
    if q in c {
      var k :| 0 <= k < |c| && c[k] == q;
      assert t[k] in t;
    }
    if exists p :: p in t && Midpoint(x, y, p) == q {
      var p :| p in t && Midpoint(x, y, p) == q;
      var k :| 0 <= k < |t| && t[k] == p;
      assert c[k] == q;
    }
  }

  /** The midpoint towards a cell two steps away along an axis is the neighbour in that direction. */
  lemma MidpointOfStep(x: int, y: int, p: (int, int))
    requires p == (x - 2, y) || p == (x + 2, y) || p == (x, y - 2) || p == (x, y + 2)
    ensures Midpoint(x, y, p) == (x + (p.0 - x) / 2, y + (p.1 - y) / 2)
    ensures Adjacent(x, y, Midpoint(x, y, p).0, Midpoint(x, y, p).1)
    ensures p == (2 * Midpoint(x, y, p).0 - x, 2 * Midpoint(x, y, p).1 - y)
  {
    if p == (x - 2, y) {
      assert (x + x - 2) / 2 == x - 1;
    } else if p == (x + 2, y) {
      assert (x + x + 2) / 2 == x + 1;
    } else if p == (x, y - 2) {
      assert (y + y - 2) / 2 == y - 1;
    } else {
      assert (y + y + 2) / 2 == y + 1;
    }
  }

  /** The midpoint of a step of two is a 4-neighbour, and the step is twice it. */
  lemma HalfStep(x: int, y: int, p: (int, int), q: (int, int))
    requires p == (x - 2, y) || p == (x + 2, y) || p == (x, y - 2) || p == (x, y + 2)
    requires Midpoint(x, y, p) == q
    ensures Adjacent(x, y, q.0, q.1) && (2 * q.0 - x, 2 * q.1 - y) == p
  {
    MidpointOfStep(x, y, p);
  }

  lemma ConnectorIsNeighbour(g: Layout, n: int, x: int, y: int, q: (int, int))
    requires Square(g, n)
    requires q in Midpoints(x, y, Targets(g, n, x, y, 4))
    ensures Adjacent(x, y, q.0, q.1) && Target(g, n, (2 * q.0 - x, 2 * q.1 - y))
  {
    var t := Targets(g, n, x, y, 4);
    var c := Midpoints(x, y, t);
    var k :| 0 <= k < |c| && c[k] == q;
    var p := t[k];
    assert Target(g, n, p) && Midpoint(x, y, p) == q;
    assert p == (x - 2, y) || p == (x + 2, y) || p == (x, y - 2) || p == (x, y + 2) by {
      assert p in t;
      TargetsMember(g, n, x, y, p);
    }
    HalfStep(x, y, p, q);
  }

  lemma NeighbourIsConnector(g: Layout, n: int, x: int, y: int, q: (int, int))
    requires Square(g, n)
    requires Adjacent(x, y, q.0, q.1) && Target(g, n, (2 * q.0 - x, 2 * q.1 - y))
    ensures q in Midpoints(x, y, Targets(g, n, x, y, 4))
  {
    var t := Targets(g, n, x, y, 4);
    var p := (2 * q.0 - x, 2 * q.1 - y);
    assert p in t by { TargetsMember(g, n, x, y, p); }
    assert Midpoint(x, y, p) == q by { MidpointOfStep(x, y, p); }
    MidpointsMember(x, y, t, q);
  }

  /** A connector of a branch is a 4-neighbour whose cell beyond is a target, and each such neighbour is one. */
  lemma ConnectorsAreNeighbours(g: Layout, n: int, x: int, y: int, i: int, j: int)
    requires Square(g, n)
    ensures (i, j) in Midpoints(x, y, Targets(g, n, x, y, 4)) <==>
      Adjacent(x, y, i, j) && Target(g, n, (2 * i - x, 2 * j - y))
  {
    var q := (i, j);
    if q in Midpoints(x, y, Targets(g, n, x, y, 4)) {
      ConnectorIsNeighbour(g, n, x, y, q);
    }
    if Adjacent(x, y, q.0, q.1) && Target(g, n, (2 * q.0 - x, 2 * q.1 - y)) {
      NeighbourIsConnector(g, n, x, y, q);
    }
  }

  /** Sets every cell of `cells` to 0. */
  function OpenAll(g: Layout, n: int, cells: seq<(int, int)>): (r: Layout)
    requires Square(g, n) && forall p :: p in cells ==> InSquare(n, p.0, p.1)
    ensures Square(r, n)
    ensures forall j, i :: 0 <= j < n && 0 <= i < n ==> r[j][i] == if (i, j) in cells then 0 else g[j][i]
  {
    if cells == [] then g
    else
      var last := cells[|cells| - 1];
      assert last in cells && InSquare(n, last.0, last.1);
      Set(OpenAll(g, n, cells[..|cells| - 1]), last.0, last.1, 0)
  }

  lemma OpenAllSnoc(g: Layout, n: int, cells: seq<(int, int)>, q: (int, int))
    requires Square(g, n) && forall p :: p in cells + [q] ==> InSquare(n, p.0, p.1)
    ensures forall p :: p in cells ==> InSquare(n, p.0, p.1)
    ensures OpenAll(g, n, cells + [q]) == Set(OpenAll(g, n, cells), q.0, q.1, 0)
  {
    assert forall p :: p in cells ==> p in cells + [q];
    assert (cells + [q])[..|cells|] == cells;
  }

  lemma MidpointsSnoc(x: int, y: int, t: seq<(int, int)>, k: int)
    requires 0 <= k < |t|
    ensures Midpoints(x, y, t[..k + 1]) == Midpoints(x, y, t[..k]) + [Midpoint(x, y, t[k])]
  {
    assert t[..k + 1][..k] == t[..k];
  }

  /**
   * One branch pick: a wall cell with at least two interior open cells two
   * steps away is opened together with the connectors towards them.
   */
  function BranchAt(g: Layout, n: int, x: int, y: int): (r: Layout)
    requires Square(g, n) && Interior(n, x, y)
    ensures Square(r, n)
  {
    if Branches(g, n, x, y) then
      var t := Targets(g, n, x, y, 4);
      var c := Midpoints(x, y, t);
      ConnectorsInSquare(g, n, x, y);
      OpenAll(Set(g, x, y, 0), n, c)
    else g
  }

  lemma ConnectorsInSquare(g: Layout, n: int, x: int, y: int)
    requires Square(g, n)
    ensures forall q :: q in Midpoints(x, y, Targets(g, n, x, y, 4)) ==> InSquare(n, q.0, q.1)
  {
    forall q | q in Midpoints(x, y, Targets(g, n, x, y, 4)) ensures InSquare(n, q.0, q.1) {
      ConnectorIsNeighbour(g, n, x, y, q);
    }
  }

  lemma BranchAtOpens(g: Layout, n: int, x: int, y: int, i: int, j: int)
    requires Square(g, n) && Interior(n, x, y) && InSquare(n, i, j) && Branches(g, n, x, y)
    ensures BranchAt(g, n, x, y)[j][i] ==
      if (i, j) in Midpoints(x, y, Targets(g, n, x, y, 4)) || (i, j) == (x, y) then 0 else g[j][i]
  {
    var c := Midpoints(x, y, Targets(g, n, x, y, 4));
    ConnectorsInSquare(g, n, x, y);
    var cleared := Set(g, x, y, 0);
    assert cleared[j][i] == if (i, j) == (x, y) then 0 else g[j][i];
    var r := OpenAll(cleared, n, c);
    assert BranchAt(g, n, x, y) == r;
    assert r[j][i] == if (i, j) in c then 0 else cleared[j][i];
  }

  /** What a branch pick changes, stated without the target list. */
  lemma BranchAtCells(g: Layout, n: int, x: int, y: int, i: int, j: int)
    requires Square(g, n) && Interior(n, x, y) && InSquare(n, i, j)
    ensures BranchAt(g, n, x, y)[j][i] ==
      if Branches(g, n, x, y) && ((i, j) == (x, y) || (Adjacent(x, y, i, j) && Target(g, n, (2 * i - x, 2 * j - y))))
      then 0 else g[j][i]
  {
    if Branches(g, n, x, y) {
      var inC := (i, j) in Midpoints(x, y, Targets(g, n, x, y, 4));
      assert BranchAt(g, n, x, y)[j][i] == if inC || (i, j) == (x, y) then 0 else g[j][i] by {
        BranchAtOpens(g, n, x, y, i, j);
      }
      assert inC <==> Adjacent(x, y, i, j) && Target(g, n, (2 * i - x, 2 * j - y)) by {
        ConnectorsAreNeighbours(g, n, x, y, i, j);
      }
    }
  }

  /** `add_branches`: the picks applied in order. */
  function BranchesAll(g: Layout, n: int, picks: seq<(int, int)>): (r: Layout)
    requires Square(g, n) && AllInterior(n, picks)
    ensures Square(r, n)
    decreases |picks|
  {
    if picks == [] then g
    else
      var last := picks[|picks| - 1];
      BranchAt(BranchesAll(g, n, picks[..|picks| - 1]), n, last.0, last.1)
  }

  lemma BranchesAllSnoc(g: Layout, n: int, picks: seq<(int, int)>, i: int)
    requires Square(g, n) && AllInterior(n, picks) && 0 <= i < |picks|
    ensures AllInterior(n, picks[..i]) && AllInterior(n, picks[..i + 1])
    ensures BranchesAll(g, n, picks[..i + 1]) == BranchAt(BranchesAll(g, n, picks[..i]), n, picks[i].0, picks[i].1)
  {
    assert picks[..i + 1][..i] == picks[..i];
  }

  /** Branches only ever turn walls into open cells, never on the border. */
  lemma {:induction false} BranchesOnlyOpen(g: Layout, n: int, picks: seq<(int, int)>)
    requires Square(g, n) && AllInterior(n, picks)
    ensures forall j, i :: 0 <= j < n && 0 <= i < n && BranchesAll(g, n, picks)[j][i] != g[j][i] ==>
      g[j][i] != 0 && BranchesAll(g, n, picks)[j][i] == 0 && Interior(n, i, j)
    decreases |picks|
  {
    if picks != [] {
      var front := picks[..|picks| - 1];
      BranchesOnlyOpen(g, n, front);
      var h := BranchesAll(g, n, front);
      var last := picks[|picks| - 1];
      forall j, i | 0 <= j < n && 0 <= i < n && BranchesAll(g, n, picks)[j][i] != g[j][i]
        ensures g[j][i] != 0 && BranchesAll(g, n, picks)[j][i] == 0 && Interior(n, i, j)
      {
        BranchAtCells(h, n, last.0, last.1, i, j);
      }
    }
  }

  // ---------------------------------------------------------------- exit

  /** The exit fix-up: open `(n-2, n-2)` and, if none of its 4-neighbours is open, the cell above it. */
  function FixExit(g: Layout, n: int): (r: Layout)
    requires Square(g, n) && n >= 3
    ensures Square(r, n)
  {
    var e := n - 2;
    var h := Set(g, e, e, 0);
    if OpenNeighbourCount(h, n, e, e) == 0 then Set(h, e, e - 1, 0) else h
  }

  lemma OpenNeighbourCountZero(g: Layout, n: int, x: int, y: int)
    requires Square(g, n) && Interior(n, x, y)
    ensures OpenNeighbourCount(g, n, x, y) == 0 <==>
      g[y][x - 1] != 0 && g[y][x + 1] != 0 && g[y - 1][x] != 0 && g[y + 1][x] != 0
  {
    assert CountOpen(g, n, x, y, 1) == (if g[y][x - 1] == 0 then 1 else 0);
    assert CountOpen(g, n, x, y, 2) == CountOpen(g, n, x, y, 1) + (if g[y][x + 1] == 0 then 1 else 0);
    assert CountOpen(g, n, x, y, 3) == CountOpen(g, n, x, y, 2) + (if g[y - 1][x] == 0 then 1 else 0);
    assert CountOpen(g, n, x, y, 4) == CountOpen(g, n, x, y, 3) + (if g[y + 1][x] == 0 then 1 else 0);
  }

  /** After the fix-up the exit is open and has an open 4-neighbour. */
  lemma ExitConnected(g: Layout, n: int)
    requires Square(g, n) && n >= 3
    ensures FixExit(g, n)[n - 2][n - 2] == 0
    ensures |OpenNeighbours(FixExit(g, n), n, n - 2, n - 2)| >= 1
  {
    var e := n - 2;
    var h := Set(g, e, e, 0);
    var r := FixExit(g, n);
    OpenNeighbourCountIsCard(h, n, e, e);
    OpenNeighbourCountIsCard(r, n, e, e);
    if OpenNeighbourCount(h, n, e, e) == 0 {
      assert OpenIn(r, n, (e, e - 1));
      assert (e, e - 1) in OpenNeighbours(r, n, e, e);
    }
  }

  /** The fix-up writes 0 to the exit and possibly the cell above it, and nothing else. */
  lemma FixExitCells(g: Layout, n: int, i: int, j: int)
    requires Square(g, n) && n >= 3 && InSquare(n, i, j)
    ensures FixExit(g, n)[j][i] == g[j][i] || (FixExit(g, n)[j][i] == 0 && i == n - 2 && (j == n - 2 || j == n - 3))
  {
  }

  // ---------------------------------------------------------------- carving

  predicate Odd(v: int) {
    v % 2 == 1
  }

  /** The grid the backtracker leaves: walls on the border and at even-even cells, every odd-odd cell open. */
  ghost predicate Carved(g: Layout, n: int) {
    && Square(g, n)
    && Binary(g)
    && (forall y, x :: OnBorder(n, x, y) ==> g[y][x] == 1)
    && (forall y, x :: Interior(n, x, y) && !Odd(x) && !Odd(y) ==> g[y][x] == 1)
    && (forall y, x :: Interior(n, x, y) && Odd(x) && Odd(y) ==> g[y][x] == 0)
  }

  /** No interior wall two steps away from `(x, y)` along an axis. */
  predicate Surrounded(g: Layout, n: int, x: int, y: int)
    requires Square(g, n)
  {
    && (Interior(n, x - 2, y) ==> g[y][x - 2] == 0)
    && (Interior(n, x + 2, y) ==> g[y][x + 2] == 0)
    && (Interior(n, x, y - 2) ==> g[y - 2][x] == 0)
    && (Interior(n, x, y + 2) ==> g[y + 2][x] == 0)
  }

  /**
   * When `(1, 1)` is open and every open odd-odd cell is surrounded by open
   * odd-odd cells, every odd-odd interior cell is open: this is why the
   * backtracker reaches the whole grid.
   */
  lemma {:induction false} AllOddOpen(g: Layout, n: int, x: int, y: int)
    requires Square(g, n) && n >= 3 && g[1][1] == 0
    requires forall b, a :: Interior(n, a, b) && Odd(a) && Odd(b) && g[b][a] == 0 ==> Surrounded(g, n, a, b)
    requires Interior(n, x, y) && Odd(x) && Odd(y)
    ensures g[y][x] == 0
    decreases x + y
  {
    if x > 1 {
      AllOddOpen(g, n, x - 2, y);
      assert Surrounded(g, n, x - 2, y);
    } else if y > 1 {
      AllOddOpen(g, n, x, y - 2);
      assert Surrounded(g, n, x, y - 2);
    }
  }

  /** One cell of the post-processed grid: a wall or open, and a wall if on the border of a grid of size at least 4. */
  lemma GeneratedCell(c: Layout, n: int, branchPicks: seq<(int, int)>, deadEndPicks: seq<(int, int)>, x: int, y: int)
    requires Carved(c, n) && n >= 3 && AllInterior(n, branchPicks) && AllInterior(n, deadEndPicks)
    requires InSquare(n, x, y)
    ensures var r := FixExit(DeadEnds(BranchesAll(c, n, branchPicks), n, deadEndPicks), n);
      (r[y][x] == 0 || r[y][x] == 1) && (n >= 4 && OnBorder(n, x, y) ==> r[y][x] == 1)
  {
    var b := BranchesAll(c, n, branchPicks);
    var d := DeadEnds(b, n, deadEndPicks);
    assert b[y][x] == c[y][x] || (b[y][x] == 0 && Interior(n, x, y)) by {
      BranchesOnlyOpen(c, n, branchPicks);
    }
    assert d[y][x] == b[y][x] || (d[y][x] == 1 && Interior(n, x, y)) by {
      DeadEndsOnlyClose(b, n, deadEndPicks);
    }
    FixExitCells(d, n, x, y);
  }

  /**
   * What `generate_maze` returns, from any carved grid: every cell a wall or
   * open, the exit open with an open neighbour, and for `n >= 4` a closed
   * border.
   */
  lemma Generated(c: Layout, n: int, branchPicks: seq<(int, int)>, deadEndPicks: seq<(int, int)>)
    requires Carved(c, n) && n >= 3 && AllInterior(n, branchPicks) && AllInterior(n, deadEndPicks)
    ensures var r := FixExit(DeadEnds(BranchesAll(c, n, branchPicks), n, deadEndPicks), n);
      && Binary(r)
      && r[n - 2][n - 2] == 0 && |OpenNeighbours(r, n, n - 2, n - 2)| >= 1
      && (n >= 4 ==> forall y, x :: OnBorder(n, x, y) ==> r[y][x] == 1)
  {
    var d := DeadEnds(BranchesAll(c, n, branchPicks), n, deadEndPicks);
    var r := FixExit(d, n);
    assert r[n - 2][n - 2] == 0 && |OpenNeighbours(r, n, n - 2, n - 2)| >= 1 by {
      ExitConnected(d, n);
    }
    assert Binary(r) by {
      forall y, x | 0 <= y < |r| && 0 <= x < |r[y]| ensures r[y][x] == 0 || r[y][x] == 1 {
        GeneratedCell(c, n, branchPicks, deadEndPicks, x, y);
      }
    }
    assert n >= 4 ==> forall y, x :: OnBorder(n, x, y) ==> r[y][x] == 1 by {
      forall y, x | n >= 4 && OnBorder(n, x, y) ensures r[y][x] == 1 {
        GeneratedCell(c, n, branchPicks, deadEndPicks, x, y);
      }
    }
  }
}
