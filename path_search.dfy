/**
 * The maze solver of AI.py: breadth-first, depth-first and A* search over an
 * occupancy grid, each returning the path from (but excluding) the start to
 * (and including) the goal, or `[]`.
 */
module PathSearch {
  import opened Grid
  import opened ParentChain
  import opened SearchFacts
  import opened BfsFacts
  import opened DfsFacts
  import opened OpenSet
  import opened AStarFacts

  class AI {
    const startPos: Pos
    const endPos: Pos
    var path: seq<Pos>

    constructor(startPos: Pos, endPos: Pos)
      ensures this.startPos == startPos && this.endPos == endPos && path == []
    {
      this.startPos := startPos;
      this.endPos := endPos;
      path := [];
    }

    /** Manhattan distance to the goal. */
    function Heuristic(pos: Pos): (h: nat)
      ensures h == 0 <==> pos == endPos
    {
      Abs(pos.x - endPos.x) + Abs(pos.y - endPos.y)
    }

    /** `f_score` holds cost plus heuristic for every cell that has a cost. */
    ghost predicate ScoresAgree(g: map<Pos, nat>, f: map<Pos, int>) {
      forall p :: p in g ==> p in f && f[p] == g[p] + Heuristic(p)
    }

    /**
     * One offset of the `a_star` neighbour loop: an open neighbour that has no
     * cost or a strictly higher one than `gScore[current] + 1` gets that cost,
     * its priority, `current` as parent and a pushed entry; otherwise nothing
     * changes.
     */
    ghost predicate RelaxedBy(maze: Maze, current: Pos, i: nat,
                              openSet: seq<Entry>, gScore: map<Pos, nat>, fScore: map<Pos, int>, parent: map<Pos, Pos>,
                              openSet': seq<Entry>, gScore': map<Pos, nat>, fScore': map<Pos, int>, parent': map<Pos, Pos>)
      requires i < 4 && current in gScore
    {
      var next, tentative := Shift(current, Offsets[i]), gScore[current] + 1;
      if IsOpen(maze, next) && (next !in gScore || tentative < gScore[next]) then
        gScore' == gScore[next := tentative] && fScore' == fScore[next := tentative + Heuristic(next)] &&
        parent' == parent[next := current] && openSet' == openSet + [(tentative + Heuristic(next), next)]
      else
        gScore' == gScore && fScore' == fScore && parent' == parent && openSet' == openSet
    }

    /** Moving to a 4-neighbour changes the heuristic by exactly one. */
    lemma HeuristicStep(p: Pos, q: Pos)
      requires Adjacent(p, q)
      ensures Heuristic(q) == Heuristic(p) + 1 || Heuristic(p) == Heuristic(q) + 1
    {
    }

    /** The heuristic never overestimates: every walk to the goal is at least as long. */
    lemma HeuristicAdmissible(maze: Maze, p: Pos, w: seq<Pos>)
      requires IsPathTo(maze, p, endPos, w)
      ensures Heuristic(p) <= |w|
    {
      ManhattanBelowWalk(maze, p, endPos, w);
    }

    /**
     * Follows parents back from the goal, collecting cells, then reverses:
     * the result is the parent chain of the goal, root first, root excluded,
     * and `[]` when the goal has no parent.
     */
    method ReconstructPath(parent: map<Pos, Pos>, ghost rank: map<Pos, nat>) returns (path: seq<Pos>)
      requires Ranked(parent, rank)
      ensures path == Chain(parent, rank, endPos)
    {
      path := [];
      var current := endPos;
      while current in parent
        invariant Chain(parent, rank, current) + Reverse(path) == Chain(parent, rank, endPos)
        decreases if current in rank then rank[current] else 0
      {
        ghost var before := path;
        path := path + [current];
        assert path[..|path| - 1] == before;
        current := parent[current];
      }
      path := Reverse(path);
    }
    /**
     * Breadth-first search: a cell is marked visited when it is queued, so it
     * is queued at most once and its parent is the cell that discovered it
     * first. The path returned is a shortest one, and `[]` exactly when the
     * start is the goal or the goal cannot be reached.
     */
    method Bfs(maze: Maze) returns (path: seq<Pos>)
      requires IsGrid(maze)
      ensures path == [] <==> startPos == endPos || !Reachable(maze, startPos, endPos)
      ensures path != [] ==> IsPathTo(maze, startPos, endPos, path)
      ensures forall w :: IsPathTo(maze, startPos, endPos, w) ==> |path| <= |w|
    {
      var queue := [startPos];
      var visited := {startPos};
      var parent: map<Pos, Pos> := map[];
      ghost var depth: map<Pos, nat> := map[startPos := 0];
      ghost var expanded: set<Pos> := {};
      while queue != []
        invariant BfsInv(maze, startPos, endPos, queue, visited, parent, depth, expanded)
        decreases Cells(maze, startPos) - visited, |queue|
      {
        ghost var queue0, visited0 := queue, visited;
        var current := queue[0];
        queue := queue[1..];
        if current == endPos {
          BfsFound(maze, startPos, endPos, queue0, visited, parent, depth, expanded);
          path := ReconstructPath(parent, depth);
          return;
        }
        BfsInnerStart(maze, startPos, endPos, queue0, visited, parent, depth, expanded);
        ghost var d := depth[current];
        expanded := expanded + {current};
        queue, visited, parent, depth := BfsExpand(maze, current, queue, visited, parent, d, depth, expanded);
        BfsInnerDone(maze, startPos, endPos, current, d, queue, visited, parent, depth, expanded);
        if visited != visited0 {
          FewerLeft(Cells(maze, startPos), visited0, visited);
        }
      }
      BfsExhausted(maze, startPos, endPos, visited, parent, depth, expanded);
      path := [];
    }

    /**
     * The neighbour loop of `bfs`: every open, unvisited 4-neighbour of
     * `current`, in offset order, is marked visited, queued, and given
     * `current` as parent.
     */
    method BfsExpand(maze: Maze, current: Pos, queue: seq<Pos>, visited: set<Pos>, parent: map<Pos, Pos>,
                     ghost d: nat, ghost depth: map<Pos, nat>, ghost expanded: set<Pos>)
      returns (queue': seq<Pos>, visited': set<Pos>, parent': map<Pos, Pos>, ghost depth': map<Pos, nat>)
      requires IsGrid(maze)
      requires BfsInner(maze, startPos, endPos, current, d, 0, queue, visited, parent, depth, expanded)
      ensures BfsInner(maze, startPos, endPos, current, d, 4, queue', visited', parent', depth', expanded)
      ensures visited <= visited' && (visited' == visited ==> queue' == queue)
    {
      var rows, cols := |maze|, |maze[0]|;
      queue', visited', parent', depth' := queue, visited, parent, depth;
      for i := 0 to 4
        invariant BfsInner(maze, startPos, endPos, current, d, i, queue', visited', parent', depth', expanded)
        invariant visited <= visited' && (visited' == visited ==> queue' == queue)
      {
        var next := Shift(current, Offsets[i]);
        BfsInnerStep(maze, startPos, endPos, current, d, i, queue', visited', parent', depth', expanded);
        if 0 <= next.x < cols && 0 <= next.y < rows && maze[next.y][next.x] == 0 && next !in visited' {
          assert IsOpen(maze, next);
          queue' := queue' + [next];
          visited' := visited' + {next};
          parent' := parent'[next := current];
          depth' := depth'[next := d + 1];
        }
      }
    }

    /**
     * Depth-first search: a cell is marked visited when it is popped, so it
     * may be pushed several times, and its parent is the last visited cell
     * that pushed it. The path returned is a walk to the goal that never
     * repeats a cell or returns to the start, and `[]` exactly when the start
     * is the goal or the goal cannot be reached.
     */
    method Dfs(maze: Maze) returns (path: seq<Pos>)
      requires IsGrid(maze)
      ensures path == [] <==> startPos == endPos || !Reachable(maze, startPos, endPos)
      ensures path != [] ==> IsPathTo(maze, startPos, endPos, path)
      ensures forall i, j :: 0 <= i < j < |path| ==> path[i] != path[j]
      ensures startPos !in path
    {
      var rows, cols := |maze|, |maze[0]|;
      var stack := [startPos];
      var visited: set<Pos> := {};
      var parent: map<Pos, Pos> := map[];
      ghost var rank: map<Pos, nat> := map[startPos := 0];
      while stack != []
        invariant DfsInv(maze, startPos, endPos, stack, visited, parent, rank)
        decreases Cells(maze, startPos) - visited, |stack|
      {
        var current := stack[|stack| - 1];
        if current == endPos {
          stack := stack[..|stack| - 1];
          path := ReconstructPath(parent, rank);
          if endPos != startPos {
            ChainIsPath(maze, startPos, parent, rank, endPos);
          }
          ChainSimple(parent, rank, endPos);
          return;
        }
        if current in visited {
          DfsSkip(maze, startPos, endPos, stack, visited, parent, rank);
          stack := stack[..|stack| - 1];
        } else {
          DfsVisit(maze, startPos, endPos, stack, visited, parent, rank);
          ghost var visited0 := visited;
          stack := stack[..|stack| - 1];
          visited := visited + {current};
          for i := 0 to 4
            invariant DfsInner(maze, startPos, endPos, current, i, stack, visited, parent, rank)
          {
            var next := Shift(current, Offsets[i]);
            DfsInnerStep(maze, startPos, endPos, current, i, stack, visited, parent, rank);
            if 0 <= next.x < cols && 0 <= next.y < rows && maze[next.y][next.x] == 0 && next !in visited {
              assert IsOpen(maze, next);
              stack := stack + [next];
              parent := parent[next := current];
              rank := rank[next := rank[current] + 1];
            }
          }
          DfsInnerDone(maze, startPos, endPos, current, stack, visited, parent, rank);
          FewerLeft(Cells(maze, startPos), visited0, visited);
        }
      }
      DfsExhausted(maze, startPos, endPos, visited, parent, rank);
      path := [];
    }

    /**
     * A* search with the Manhattan heuristic and no closed set: a cell is
     * pushed again whenever a lower cost is found for it. The start entry
     * goes in with priority 0, every later entry with cost plus heuristic.
     * The path returned is a walk to the goal that never repeats a cell or
     * returns to the start, and `[]` exactly when the start is the goal or
     * the goal cannot be reached.
     */
    method AStar(maze: Maze) returns (path: seq<Pos>)
      requires IsGrid(maze)
      ensures path == [] <==> startPos == endPos || !Reachable(maze, startPos, endPos)
      ensures path != [] ==> IsPathTo(maze, startPos, endPos, path)
      ensures forall i, j :: 0 <= i < j < |path| ==> path[i] != path[j]
      ensures startPos !in path
    {
      var openSet: seq<Entry> := [(0, startPos)];
      var gScore: map<Pos, nat> := map[startPos := 0];
      var fScore: map<Pos, int> := map[startPos := Heuristic(startPos)];
      var parent: map<Pos, Pos> := map[];
      ghost var budget := FullBudget(maze, startPos);
      AStarInit(maze, startPos, endPos);
      while openSet != []
        invariant AStarInv(maze, startPos, endPos, openSet, gScore, parent, budget)
        invariant ScoresAgree(gScore, fScore)
        decreases budget, |openSet|
      {
        ghost var open0 := openSet;
        var top, rest := HeapPop(openSet);
        var current := top.1;
        if current == endPos {
          AStarFound(maze, startPos, endPos, openSet, top, gScore, parent, budget);
          path := ReconstructPath(parent, gScore);
          return;
        }
        AStarPop(maze, startPos, endPos, openSet, top, rest, gScore, parent, budget);
        ghost var budget0 := budget;
        openSet, gScore, fScore, parent, budget := AStarExpand(maze, current, rest, gScore, fScore, parent, budget);
        AStarInnerDone(maze, startPos, endPos, current, gScore[current], openSet, gScore, parent, budget);
        PairShrinks(budget, budget0, openSet, rest, open0);
      }
      AStarExhausted(maze, startPos, endPos, gScore, parent, budget);
      path := [];
    }

    /**
     * The neighbour loop of `a_star`: every open 4-neighbour of `current`
     * whose cost strictly drops to one more than the cost of `current` gets
     * that cost, a new priority, a fresh open-set entry, and `current` as
     * parent; each such update spends one unit of the termination budget.
     */
    method AStarExpand(maze: Maze, current: Pos, openSet: seq<Entry>, gScore: map<Pos, nat>, fScore: map<Pos, int>,
                       parent: map<Pos, Pos>, ghost budget: set<(Pos, nat)>)
      returns (openSet': seq<Entry>, gScore': map<Pos, nat>, fScore': map<Pos, int>, parent': map<Pos, Pos>,
               ghost budget': set<(Pos, nat)>)
      requires IsGrid(maze) && current in gScore
      requires AStarInner(maze, startPos, endPos, current, gScore[current], 0, openSet, gScore, parent, budget)
      requires ScoresAgree(gScore, fScore)
      ensures current in gScore' && gScore'[current] == gScore[current]
      ensures ScoresAgree(gScore', fScore')
      ensures gScore.Keys <= gScore'.Keys && forall p :: p in gScore ==> gScore'[p] <= gScore[p]
      ensures AStarInner(maze, startPos, endPos, current, gScore[current], 4, openSet', gScore', parent', budget')
      ensures budget' <= budget && (budget' == budget ==> openSet' == openSet)
    {
      ghost var gc := gScore[current];
      openSet', gScore', fScore', parent', budget' := openSet, gScore, fScore, parent, budget;
      for i := 0 to 4
        invariant AStarInner(maze, startPos, endPos, current, gc, i, openSet', gScore', parent', budget')
        invariant budget' <= budget && (budget' == budget ==> openSet' == openSet)
        invariant ScoresAgree(gScore', fScore')
        invariant gScore.Keys <= gScore'.Keys && forall p :: p in gScore ==> gScore'[p] <= gScore[p]
      {
        openSet', gScore', fScore', parent', budget' := AStarRelax(maze, current, gc, i, openSet', gScore', fScore', parent', budget');
      }
    }

    /** One offset of the neighbour loop of `a_star`. */
    method AStarRelax(maze: Maze, current: Pos, ghost gc: nat, i: nat, openSet: seq<Entry>, gScore: map<Pos, nat>,
                      fScore: map<Pos, int>, parent: map<Pos, Pos>, ghost budget: set<(Pos, nat)>)
      returns (openSet': seq<Entry>, gScore': map<Pos, nat>, fScore': map<Pos, int>, parent': map<Pos, Pos>,
               ghost budget': set<(Pos, nat)>)
      requires IsGrid(maze) && i < 4
      requires AStarInner(maze, startPos, endPos, current, gc, i, openSet, gScore, parent, budget)
      requires ScoresAgree(gScore, fScore)
      ensures AStarInner(maze, startPos, endPos, current, gc, i + 1, openSet', gScore', parent', budget')
      ensures ScoresAgree(gScore', fScore')
      ensures gScore.Keys <= gScore'.Keys && forall p :: p in gScore ==> gScore'[p] <= gScore[p]
      ensures budget' <= budget && (budget' == budget ==> openSet' == openSet)
      ensures RelaxedBy(maze, current, i, openSet, gScore, fScore, parent, openSet', gScore', fScore', parent')
    {
      var rows, cols := |maze|, |maze[0]|;
      openSet', gScore', fScore', parent', budget' := openSet, gScore, fScore, parent, budget;
      var next := Shift(current, Offsets[i]);
      assert gScore[current] == gc;
      if 0 <= next.x < cols && 0 <= next.y < rows && maze[next.y][next.x] == 0 &&
         (next !in gScore || gScore[current] + 1 < gScore[next]) {
        var tentative := gScore[current] + 1;
        gScore' := gScore[next := tentative];
        fScore' := fScore[next := tentative + Heuristic(next)];
        openSet' := openSet + [(fScore'[next], next)];
        parent' := parent[next := current];
        budget' := budget - {(next, tentative)};
        AStarRelaxStep(maze, startPos, endPos, current, gc, i, fScore'[next], openSet, gScore, parent, budget,
                       openSet', gScore', parent', budget');
      } else {
        AStarSkipStep(maze, startPos, endPos, current, gc, i, openSet, gScore, parent, budget);
      }
    }
  }
}
