/**
 * The loop invariant of `AI.dfs` (AI.py:32-51). A cell may sit on the stack
 * several times and its parent may be overwritten until it is popped and
 * marked visited; from then on its parent is fixed.
 */
module DfsFacts {
  import opened Grid
  import opened ParentChain
  import opened SearchFacts

  /** Every open 4-neighbour of a visited cell (other than `except`) is visited or still on the stack. */
  ghost predicate VisitedClosed(maze: Maze, visited: set<Pos>, stack: seq<Pos>, except: set<Pos>) {
    forall v, n {:trigger Adjacent(v, n), v in visited} ::
      v in visited && v !in except && Adjacent(v, n) && IsOpen(maze, n) ==> n in visited || n in stack
  }

  /**
   * `rank` is a ghost depth that grows from parent to child. Parents are
   * always visited cells, and only unvisited cells get a new parent, so
   * overwriting a parent never breaks the rank order.
   */
  ghost predicate DfsCore(maze: Maze, start: Pos, goal: Pos, stack: seq<Pos>, visited: set<Pos>,
                          parent: map<Pos, Pos>, rank: map<Pos, nat>)
  {
    && Ranked(parent, rank)
    && ParentsValid(maze, start, parent)
    && (forall n :: n in parent ==> parent[n] in visited)
    && (forall v :: v in visited ==> v in rank)
    && visited <= Cells(maze, start)
    && (forall i :: 0 <= i < |stack| ==>
          stack[i] in Cells(maze, start) && stack[i] in rank && (stack[i] == start || stack[i] in parent))
    && goal !in visited
    && (start in visited || (visited == {} && stack == [start]))
  }

  ghost predicate DfsInv(maze: Maze, start: Pos, goal: Pos, stack: seq<Pos>, visited: set<Pos>,
                         parent: map<Pos, Pos>, rank: map<Pos, nat>)
  {
    DfsCore(maze, start, goal, stack, visited, parent, rank) &&
    VisitedClosed(maze, visited, stack, {})
  }

  /** While the neighbours of the newly visited `current` are pushed, offsets before `i` done. */
  ghost predicate DfsInner(maze: Maze, start: Pos, goal: Pos, current: Pos, i: nat, stack: seq<Pos>,
                           visited: set<Pos>, parent: map<Pos, Pos>, rank: map<Pos, nat>)
  {
    && i <= 4
    && DfsCore(maze, start, goal, stack, visited, parent, rank)
    && current in visited && (current == start || current in parent)
    && VisitedClosed(maze, visited, stack, {current})
    && (forall k :: 0 <= k < i && IsOpen(maze, Shift(current, Offsets[k])) ==>
          Shift(current, Offsets[k]) in visited || Shift(current, Offsets[k]) in stack)
  }

  /** Popping a cell that is already visited keeps the invariant. */
  lemma DfsSkip(maze: Maze, start: Pos, goal: Pos, stack: seq<Pos>, visited: set<Pos>,
                parent: map<Pos, Pos>, rank: map<Pos, nat>)
    requires DfsInv(maze, start, goal, stack, visited, parent, rank)
    requires stack != [] && stack[|stack| - 1] in visited
    ensures DfsInv(maze, start, goal, stack[..|stack| - 1], visited, parent, rank)
  {
    ClosedAfterPop(maze, stack, visited, {});
    assert visited + {stack[|stack| - 1]} == visited;
  }

  /** Closure survives popping the top `c` of the stack once `c` counts as visited. */
  lemma ClosedAfterPop(maze: Maze, stack: seq<Pos>, visited: set<Pos>, except: set<Pos>)
    requires stack != [] && VisitedClosed(maze, visited, stack, except)
    ensures VisitedClosed(maze, visited + {stack[|stack| - 1]}, stack[..|stack| - 1],
                          except + {stack[|stack| - 1]})
  {
    var c := stack[|stack| - 1];
    var s := stack[..|stack| - 1];
    forall v, n | v in visited + {c} && v !in except + {c} && Adjacent(v, n) && IsOpen(maze, n)
      ensures n in visited + {c} || n in s
    {
      if n !in visited && n != c {
        var i :| 0 <= i < |stack| && stack[i] == n;
        assert s[i] == n;
      }
    }
  }

  /** Popping an unvisited cell and marking it visited starts the inner loop. */
  lemma DfsVisit(maze: Maze, start: Pos, goal: Pos, stack: seq<Pos>, visited: set<Pos>,
                 parent: map<Pos, Pos>, rank: map<Pos, nat>)
    requires DfsInv(maze, start, goal, stack, visited, parent, rank)
    requires stack != [] && stack[|stack| - 1] !in visited && stack[|stack| - 1] != goal
    ensures var c := stack[|stack| - 1];
      DfsInner(maze, start, goal, c, 0, stack[..|stack| - 1], visited + {c}, parent, rank)
  {
    var c := stack[|stack| - 1];
    var s := stack[..|stack| - 1];
    var vs := visited + {c};
    assert c in Cells(maze, start) && c in rank && (c == start || c in parent);
    assert forall i :: 0 <= i < |s| ==> s[i] == stack[i];
    assert start in vs;
    ClosedAfterPop(maze, stack, visited, {});
    assert {} + {c} == {c};
  }

  /** One offset of the inner loop: push the neighbour if open and unvisited, overwriting its parent. */
  lemma DfsInnerStep(maze: Maze, start: Pos, goal: Pos, current: Pos, i: nat, stack: seq<Pos>,
                     visited: set<Pos>, parent: map<Pos, Pos>, rank: map<Pos, nat>)
    requires IsGrid(maze)
    requires DfsInner(maze, start, goal, current, i, stack, visited, parent, rank)
    requires i < 4
    ensures var next := Shift(current, Offsets[i]);
      if IsOpen(maze, next) && next !in visited then
        DfsInner(maze, start, goal, current, i + 1, stack + [next], visited,
                 parent[next := current], rank[next := rank[current] + 1])
      else
        DfsInner(maze, start, goal, current, i + 1, stack, visited, parent, rank)
  {
    var next := Shift(current, Offsets[i]);
    OffsetsAreNeighbours(current, i);
    if IsOpen(maze, next) && next !in visited {
      InBoundsInCells(maze, start, next);
      var s := stack + [next];
      var pa := parent[next := current];
      var rk := rank[next := rank[current] + 1];
      assert next != start;
      forall n | n in pa ensures n in rk && pa[n] in rk && rk[pa[n]] < rk[n] {
        if n != next { assert n in parent && parent[n] in visited; }
      }
      forall n | n in pa ensures IsOpen(maze, n) && Adjacent(pa[n], n) && (pa[n] == start || pa[n] in pa) {
        if n != next { assert n in parent; }
      }
      forall j | 0 <= j < |s| ensures s[j] in Cells(maze, start) && s[j] in rk && (s[j] == start || s[j] in pa) {
        if j < |stack| { assert s[j] == stack[j]; }
      }
      assert s[|stack|] == next;
    }
  }

  /** After the four offsets, the outer invariant holds again. */
  lemma DfsInnerDone(maze: Maze, start: Pos, goal: Pos, current: Pos, stack: seq<Pos>,
                     visited: set<Pos>, parent: map<Pos, Pos>, rank: map<Pos, nat>)
    requires DfsInner(maze, start, goal, current, 4, stack, visited, parent, rank)
    ensures DfsInv(maze, start, goal, stack, visited, parent, rank)
  {
    forall v, n | v in visited && Adjacent(v, n) && IsOpen(maze, n) ensures n in visited || n in stack {
      if v == current {
        var k := NeighbourIsOffset(v, n);
      }
    }
  }

  /** With the stack empty, everything reachable was visited, and the goal was not. */
  lemma DfsExhausted(maze: Maze, start: Pos, goal: Pos, visited: set<Pos>,
                     parent: map<Pos, Pos>, rank: map<Pos, nat>)
    requires DfsInv(maze, start, goal, [], visited, parent, rank)
    ensures !Reachable(maze, start, goal)
  {
    ClosedSetBlocks(maze, start, goal, visited);
  }
}
