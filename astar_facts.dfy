/**
 * The loop invariant of `AI.a_star` (AI.py:53-78). There is no closed set:
 * a cell is pushed again whenever a shorter tentative cost is found, so the
 * invariant speaks of costs, not of visited cells.
 */
module AStarFacts {
  import opened Grid
  import opened ParentChain
  import opened SearchFacts
  import opened OpenSet

  /**
   * Termination measure: the (cell, cost) pairs that a later improvement
   * could still use. Every push removes the pair it consumes.
   */
  ghost predicate Budgeted(maze: Maze, start: Pos, g: map<Pos, nat>, budget: set<(Pos, nat)>) {
    forall n, v: nat :: n in Cells(maze, start) && v < |Cells(maze, start)| && (n !in g || v < g[n]) ==>
      (n, v) in budget
  }

  /** No cost reaches the number of costed cells: costs are lengths of paths through distinct cells. */
  ghost predicate CostsBelowCount(g: map<Pos, nat>) {
    forall n :: n in g ==> g[n] < |g.Keys|
  }

  ghost function FullBudget(maze: Maze, start: Pos): set<(Pos, nat)> {
    set n, v: nat | n in Cells(maze, start) && v < |Cells(maze, start)| :: (n, v)
  }

  /**
   * A cell with a cost that is not waiting in the open set has all its open
   * 4-neighbours costed, at most one more than itself.
   */
  ghost predicate CostClosed(maze: Maze, g: map<Pos, nat>, heap: seq<Entry>, except: set<Pos>) {
    forall c, n {:trigger Adjacent(c, n), c in g} ::
      c in g && c !in except && c !in Positions(heap) && Adjacent(c, n) && IsOpen(maze, n) ==>
        n in g && g[n] <= g[c] + 1
  }

  /** Facts about the cost and parent maps that hold at every step. */
  ghost predicate AStarCore(maze: Maze, start: Pos, goal: Pos, heap: seq<Entry>,
                            g: map<Pos, nat>, parent: map<Pos, Pos>, budget: set<(Pos, nat)>)
  {
    && start in g && g[start] == 0
    && g.Keys <= Cells(maze, start)
    && CostsBelowCount(g)
    && parent.Keys == g.Keys - {start}
    && ParentsValid(maze, start, parent)
    && Ranked(parent, g)
    && (forall e :: e in heap ==> e.1 in g)
    && (goal in g ==> goal in Positions(heap))
    && Budgeted(maze, start, g, budget)
  }

  ghost predicate AStarInv(maze: Maze, start: Pos, goal: Pos, heap: seq<Entry>,
                           g: map<Pos, nat>, parent: map<Pos, Pos>, budget: set<(Pos, nat)>)
  {
    AStarCore(maze, start, goal, heap, g, parent, budget) && CostClosed(maze, g, heap, {})
  }

  /** While the neighbours of `current` (cost `gc`) are relaxed, offsets before `i` done. */
  ghost predicate AStarInner(maze: Maze, start: Pos, goal: Pos, current: Pos, gc: nat, i: nat,
                             heap: seq<Entry>, g: map<Pos, nat>, parent: map<Pos, Pos>, budget: set<(Pos, nat)>)
  {
    && i <= 4
    && AStarCore(maze, start, goal, heap, g, parent, budget)
    && current in g && g[current] == gc
    && CostClosed(maze, g, heap, {current})
    && (forall k :: 0 <= k < i && IsOpen(maze, Shift(current, Offsets[k])) ==>
          Shift(current, Offsets[k]) in g && g[Shift(current, Offsets[k])] <= gc + 1)
  }

  lemma AStarInit(maze: Maze, start: Pos, goal: Pos)
    ensures AStarInv(maze, start, goal, [(0, start)], map[start := 0], map[], FullBudget(maze, start))
  {
    assert Positions([(0, start)]) == {start} by {
      assert (0, start) in [(0, start)];
    }
    forall n, v: nat | n in Cells(maze, start) && v < |Cells(maze, start)|
      ensures (n, v) in FullBudget(maze, start)
    {
    }
  }

  /** Popping an entry that is not the goal starts the inner loop. */
  lemma AStarPop(maze: Maze, start: Pos, goal: Pos, heap: seq<Entry>, top: Entry, rest: seq<Entry>,
                 g: map<Pos, nat>, parent: map<Pos, Pos>, budget: set<(Pos, nat)>)
    requires AStarInv(maze, start, goal, heap, g, parent, budget)
    requires multiset(rest) + multiset{top} == multiset(heap)
    requires top.1 != goal
    ensures top.1 in g
    ensures AStarInner(maze, start, goal, top.1, g[top.1], 0, rest, g, parent, budget)
  {
    assert forall e :: e in heap <==> e in rest || e == top by {
      forall e ensures e in heap <==> e in rest || e == top {
        assert e in multiset(heap) <==> e in multiset(rest) || e == top;
      }
    }
    assert Positions(heap) == Positions(rest) + {top.1};
  }

  /** Lowering (or first setting) the cost of `next` to `t` keeps the cost bound and the budget. */
  lemma RelaxCosts(maze: Maze, start: Pos, g: map<Pos, nat>, budget: set<(Pos, nat)>, next: Pos, t: nat)
    requires g.Keys <= Cells(maze, start) && next in Cells(maze, start)
    requires CostsBelowCount(g)
    requires Budgeted(maze, start, g, budget)
    requires next !in g || t < g[next]
    requires t <= |g.Keys|
    ensures (next, t) in budget
    ensures g[next := t].Keys <= Cells(maze, start)
    ensures CostsBelowCount(g[next := t])
    ensures Budgeted(maze, start, g[next := t], budget - {(next, t)})
  {
    var C := Cells(maze, start);
    var g' := g[next := t];
    SubsetCard(g.Keys, C);
    if next !in g {
      SubsetCard(g.Keys + {next}, C);
      assert |g'.Keys| == |g.Keys| + 1;
    } else {
      assert g'.Keys == g.Keys;
    }
    assert t < |C|;
    forall n | n in g' ensures g'[n] < |g'.Keys| {
      if n != next { assert n in g; }
    }
    forall n, v: nat | n in C && v < |C| && (n !in g' || v < g'[n]) ensures (n, v) in budget - {(next, t)} {
      assert (n, v) in budget;
    }
  }

  /** Giving `next` the parent `current` with a cost above the parent's keeps the parent facts. */
  lemma RelaxParents(maze: Maze, start: Pos, g: map<Pos, nat>, parent: map<Pos, Pos>, current: Pos, next: Pos, t: nat)
    requires start in g && g[start] == 0
    requires parent.Keys == g.Keys - {start}
    requires ParentsValid(maze, start, parent) && Ranked(parent, g)
    requires current in g && current != next && g[current] < t
    requires Adjacent(current, next) && IsOpen(maze, next)
    requires next !in g || t < g[next]
    ensures next != start
    ensures parent[next := current].Keys == g[next := t].Keys - {start}
    ensures ParentsValid(maze, start, parent[next := current])
    ensures Ranked(parent[next := current], g[next := t])
  {
    var g' := g[next := t];
    var pa := parent[next := current];
    forall n | n in pa ensures n in g' && pa[n] in g' && g'[pa[n]] < g'[n] {
      if n != next { assert n in parent; }
    }
    forall n | n in pa ensures IsOpen(maze, n) && Adjacent(pa[n], n) && (pa[n] == start || pa[n] in pa) {
      if n != next { assert n in parent; }
    }
  }

  /** Relaxing `next` through `current` keeps the cost and parent facts. */
  lemma RelaxCore(maze: Maze, start: Pos, goal: Pos, current: Pos, next: Pos, priority: int,
                  heap: seq<Entry>, g: map<Pos, nat>, parent: map<Pos, Pos>, budget: set<(Pos, nat)>)
    requires AStarCore(maze, start, goal, heap, g, parent, budget)
    requires current in g && Adjacent(current, next) && InBounds(maze, next) && IsOpen(maze, next)
    requires next !in g || g[current] + 1 < g[next]
    ensures (next, g[current] + 1) in budget
    ensures AStarCore(maze, start, goal, heap + [(priority, next)], g[next := g[current] + 1],
                      parent[next := current], budget - {(next, g[current] + 1)})
  {
    InBoundsInCells(maze, start, next);
    var t := g[current] + 1;
    var h := heap + [(priority, next)];
    RelaxCosts(maze, start, g, budget, next, t);
    RelaxParents(maze, start, g, parent, current, next, t);
    assert (priority, next) in h;
    assert Positions(h) == Positions(heap) + {next};
  }

  /** Relaxing `next` puts it in the open set, so closure of the other cells survives. */
  lemma RelaxClosed(maze: Maze, g: map<Pos, nat>, heap: seq<Entry>, current: Pos, next: Pos, t: nat, priority: int)
    requires CostClosed(maze, g, heap, {current})
    requires next !in g || t < g[next]
    ensures CostClosed(maze, g[next := t], heap + [(priority, next)], {current})
  {
    var g' := g[next := t];
    var h := heap + [(priority, next)];
    assert (priority, next) in h;
    assert Positions(h) == Positions(heap) + {next};
    forall c, n | c in g' && c != current && c !in Positions(h) && Adjacent(c, n) && IsOpen(maze, n)
      ensures n in g' && g'[n] <= g'[c] + 1
    {
      assert c in g && c !in Positions(heap) && c != next;
    }
  }

    /**
   * Relaxing an open neighbour whose cost drops to `gc + 1` takes one budget
   * entry and keeps the inner loop's invariant one offset further.
   */
  lemma AStarRelaxStep(maze: Maze, start: Pos, goal: Pos, current: Pos, gc: nat, i: nat, priority: int,
                       heap: seq<Entry>, g: map<Pos, nat>, parent: map<Pos, Pos>, budget: set<(Pos, nat)>,
                       heap': seq<Entry>, g': map<Pos, nat>, parent': map<Pos, Pos>, budget': set<(Pos, nat)>)
    requires AStarInner(maze, start, goal, current, gc, i, heap, g, parent, budget)
    requires i < 4
    requires IsOpen(maze, Shift(current, Offsets[i]))
    requires Shift(current, Offsets[i]) !in g || gc + 1 < g[Shift(current, Offsets[i])]
    requires heap' == heap + [(priority, Shift(current, Offsets[i]))]
    requires g' == g[Shift(current, Offsets[i]) := gc + 1]
    requires parent' == parent[Shift(current, Offsets[i]) := current]
    requires budget' == budget - {(Shift(current, Offsets[i]), gc + 1)}
    ensures budget' < budget
    ensures AStarInner(maze, start, goal, current, gc, i + 1, heap', g', parent', budget')
  {
    var next := Shift(current, Offsets[i]);
    OffsetsAreNeighbours(current, i);
    RelaxCore(maze, start, goal, current, next, priority, heap, g, parent, budget);
    RelaxClosed(maze, g, heap, current, next, gc + 1, priority);
    assert current != next;
    assert (next, gc + 1) !in budget';
  }

  /** A neighbour that is a wall, outside the maze or no cheaper leaves the state alone and the invariant holds one offset further. */
  lemma AStarSkipStep(maze: Maze, start: Pos, goal: Pos, current: Pos, gc: nat, i: nat,
                      heap: seq<Entry>, g: map<Pos, nat>, parent: map<Pos, Pos>, budget: set<(Pos, nat)>)
    requires AStarInner(maze, start, goal, current, gc, i, heap, g, parent, budget)
    requires i < 4
    requires !IsOpen(maze, Shift(current, Offsets[i])) ||
             (Shift(current, Offsets[i]) in g && g[Shift(current, Offsets[i])] <= gc + 1)
    ensures AStarInner(maze, start, goal, current, gc, i + 1, heap, g, parent, budget)
  {
  }

  /** After the four offsets, the outer invariant holds again. */
  lemma AStarInnerDone(maze: Maze, start: Pos, goal: Pos, current: Pos, gc: nat,
                       heap: seq<Entry>, g: map<Pos, nat>, parent: map<Pos, Pos>, budget: set<(Pos, nat)>)
    requires AStarInner(maze, start, goal, current, gc, 4, heap, g, parent, budget)
    ensures AStarInv(maze, start, goal, heap, g, parent, budget)
  {
    forall c, n | c in g && c !in Positions(heap) && Adjacent(c, n) && IsOpen(maze, n)
      ensures n in g && g[n] <= g[c] + 1
    {
      if c == current {
        var k := NeighbourIsOffset(c, n);
      }
    }
  }

  /** With the open set empty, the costed cells are closed and the goal is not among them. */
  lemma AStarExhausted(maze: Maze, start: Pos, goal: Pos,
                       g: map<Pos, nat>, parent: map<Pos, Pos>, budget: set<(Pos, nat)>)
    requires AStarInv(maze, start, goal, [], g, parent, budget)
    ensures !Reachable(maze, start, goal)
  {
    assert Positions([]) == {};
    forall e, n | e in g.Keys && Adjacent(e, n) && IsOpen(maze, n) ensures n in g.Keys {
      assert e in g;
    }
    ClosedSetBlocks(maze, start, goal, g.Keys);
  }

  /**
   * The goal has been popped: its parent chain is `[]` exactly when the
   * start is the goal, and otherwise a path to the goal that repeats no
   * cell and avoids the start.
   */
  lemma AStarFound(maze: Maze, start: Pos, goal: Pos, heap: seq<Entry>, top: Entry,
                   g: map<Pos, nat>, parent: map<Pos, Pos>, budget: set<(Pos, nat)>)
    requires AStarInv(maze, start, goal, heap, g, parent, budget)
    requires top in heap && top.1 == goal
    ensures Ranked(parent, g)
    ensures Chain(parent, g, goal) == [] <==> start == goal || !Reachable(maze, start, goal)
    ensures Chain(parent, g, goal) != [] ==> IsPathTo(maze, start, goal, Chain(parent, g, goal))
    ensures forall i, j :: 0 <= i < j < |Chain(parent, g, goal)| ==> Chain(parent, g, goal)[i] != Chain(parent, g, goal)[j]
    ensures start !in Chain(parent, g, goal)
  {
    if goal != start {
      ChainIsPath(maze, start, parent, g, goal);
    }
    ChainSimple(parent, g, goal);
  }
}
