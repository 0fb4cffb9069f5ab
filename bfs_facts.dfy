/**
 * The loop invariant of `AI.bfs` (AI.py:10-30) and the two facts it yields:
 * the goal, once popped, has the least depth any walk to it can have, and an
 * empty queue means the goal cannot be reached.
 */
module BfsFacts {
  import opened Grid
  import opened ParentChain
  import opened SearchFacts

  /** Every open 4-neighbour of an expanded cell is visited, at most one level deeper. */
  ghost predicate ExpandedClosed(maze: Maze, expanded: set<Pos>, depth: map<Pos, nat>) {
    forall e, n {:trigger Adjacent(e, n), e in expanded} ::
      e in expanded && Adjacent(e, n) && IsOpen(maze, n) ==>
        e in depth && n in depth && depth[n] <= depth[e] + 1
  }

  /** Depths along the queue never decrease and span at most one level. */
  ghost predicate Layered(queue: seq<Pos>, depth: map<Pos, nat>) {
    (forall i :: 0 <= i < |queue| ==> queue[i] in depth) &&
    (forall i, j :: 0 <= i <= j < |queue| ==> depth[queue[i]] <= depth[queue[j]]) &&
    (forall i :: 0 <= i < |queue| ==> depth[queue[i]] <= depth[queue[0]] + 1)
  }

  /**
   * `visited` is split into the cells already expanded and the queue; `depth`
   * is the ghost level of each visited cell, which is also the length of its
   * parent chain.
   */
  ghost predicate BfsInv(maze: Maze, start: Pos, goal: Pos, queue: seq<Pos>, visited: set<Pos>,
                         parent: map<Pos, Pos>, depth: map<Pos, nat>, expanded: set<Pos>)
  {
    && depth.Keys == visited
    && start in visited && depth[start] == 0
    && visited <= Cells(maze, start)
    && (forall v :: v in visited <==> v in expanded || v in queue)
    && (forall v :: v in expanded ==> v !in queue)
    && (forall i, j :: 0 <= i < j < |queue| ==> queue[i] != queue[j])
    && goal !in expanded
    && parent.Keys == visited - {start}
    && ParentsValid(maze, start, parent)
    && (forall n :: n in parent ==> parent[n] in expanded && depth[n] == depth[parent[n]] + 1)
    && Layered(queue, depth)
    && (queue != [] ==> forall e :: e in expanded ==> depth[e] <= depth[queue[0]])
    && ExpandedClosed(maze, expanded, depth)
  }

  /**
   * The invariant while the neighbours of `current`, at depth `d`, are being
   * queued: `current` is already counted as expanded, the offsets before `i`
   * are done, and the queue holds depths `d` and `d + 1` only.
   */
  ghost predicate BfsInner(maze: Maze, start: Pos, goal: Pos, current: Pos, d: nat, i: nat,
                           queue: seq<Pos>, visited: set<Pos>, parent: map<Pos, Pos>,
                           depth: map<Pos, nat>, expanded: set<Pos>)
  {
    && i <= 4
    && depth.Keys == visited
    && start in visited && depth[start] == 0
    && visited <= Cells(maze, start)
    && (forall v :: v in visited <==> v in expanded || v in queue)
    && (forall v :: v in expanded ==> v !in queue)
    && (forall a, b :: 0 <= a < b < |queue| ==> queue[a] != queue[b])
    && goal !in expanded
    && parent.Keys == visited - {start}
    && ParentsValid(maze, start, parent)
    && (forall n :: n in parent ==> parent[n] in expanded && depth[n] == depth[parent[n]] + 1)
    && (forall a :: 0 <= a < |queue| ==> queue[a] in depth && d <= depth[queue[a]] <= d + 1)
    && (forall a, b :: 0 <= a <= b < |queue| ==> depth[queue[a]] <= depth[queue[b]])
    && (forall e :: e in expanded ==> depth[e] <= d)
    && current in expanded && depth[current] == d
    && ExpandedClosed(maze, expanded - {current}, depth)
    && (forall k :: 0 <= k < i && IsOpen(maze, Shift(current, Offsets[k])) ==>
          Shift(current, Offsets[k]) in depth && depth[Shift(current, Offsets[k])] <= d + 1)
  }

  /** Popping the front of the queue and counting it as expanded starts the inner loop. */
  lemma BfsInnerStart(maze: Maze, start: Pos, goal: Pos, queue: seq<Pos>, visited: set<Pos>,
                      parent: map<Pos, Pos>, depth: map<Pos, nat>, expanded: set<Pos>)
    requires BfsInv(maze, start, goal, queue, visited, parent, depth, expanded)
    requires queue != [] && queue[0] != goal
    ensures BfsInner(maze, start, goal, queue[0], depth[queue[0]], 0, queue[1..], visited, parent,
                     depth, expanded + {queue[0]})
  {
    var c := queue[0];
    var q := queue[1..];
    forall a | 0 <= a < |q| ensures q[a] != c && depth[c] <= depth[q[a]] {
      assert q[a] == queue[a + 1];
    }
    assert (expanded + {c}) - {c} == expanded;
  }

  /** Appending an unqueued cell one level deeper keeps the queue sorted by depth, within two levels, and free of repeats. */
  lemma QueueAppend(queue: seq<Pos>, depth: map<Pos, nat>, next: Pos, d: nat)
    requires next !in queue
    requires forall a :: 0 <= a < |queue| ==> queue[a] in depth && d <= depth[queue[a]] <= d + 1
    requires forall a, b :: 0 <= a <= b < |queue| ==> depth[queue[a]] <= depth[queue[b]]
    requires forall a, b :: 0 <= a < b < |queue| ==> queue[a] != queue[b]
    ensures forall a :: 0 <= a < |queue + [next]| ==>
      (queue + [next])[a] in depth[next := d + 1] && d <= depth[next := d + 1][(queue + [next])[a]] <= d + 1
    ensures forall a, b :: 0 <= a <= b < |queue + [next]| ==>
      depth[next := d + 1][(queue + [next])[a]] <= depth[next := d + 1][(queue + [next])[b]]
    ensures forall a, b :: 0 <= a < b < |queue + [next]| ==> (queue + [next])[a] != (queue + [next])[b]
  {
    var q := queue + [next];
    var dp := depth[next := d + 1];
    forall a | 0 <= a < |q| ensures q[a] in dp && d <= dp[q[a]] <= d + 1 {
      if a < |queue| { assert q[a] == queue[a]; }
    }
    forall a, b | 0 <= a <= b < |q| ensures dp[q[a]] <= dp[q[b]] {
      if b < |queue| { assert q[a] == queue[a] && q[b] == queue[b]; }
      else if a < |queue| { assert q[a] == queue[a]; }
    }
    forall a, b | 0 <= a < b < |q| ensures q[a] != q[b] {
      if b < |queue| { assert q[a] == queue[a] && q[b] == queue[b]; }
      else { assert q[a] == queue[a]; }
    }
  }

  /** The neighbour at offset `i` is open and unvisited: it is marked visited, queued one level deeper, and given `current` as parent. */
  lemma BfsPush(maze: Maze, start: Pos, goal: Pos, current: Pos, d: nat, i: nat, queue: seq<Pos>,
                visited: set<Pos>, parent: map<Pos, Pos>, depth: map<Pos, nat>, expanded: set<Pos>, next: Pos)
    requires IsGrid(maze)
    requires BfsInner(maze, start, goal, current, d, i, queue, visited, parent, depth, expanded)
    requires i < 4 && next == Shift(current, Offsets[i]) && IsOpen(maze, next) && next !in visited
    ensures BfsInner(maze, start, goal, current, d, i + 1, queue + [next], visited + {next},
                     parent[next := current], depth[next := d + 1], expanded)
  {
    OffsetsAreNeighbours(current, i);
    InBoundsInCells(maze, start, next);
    var dp := depth[next := d + 1];
    var pa := parent[next := current];
    assert next != start && next !in queue;
    QueueAppend(queue, depth, next, d);
    forall n | n in pa ensures IsOpen(maze, n) && Adjacent(pa[n], n) && (pa[n] == start || pa[n] in pa) {
      if n != next { assert n in parent; }
    }
    assert ExpandedClosed(maze, expanded - {current}, dp) by {
      forall e, n | e in expanded - {current} && Adjacent(e, n) && IsOpen(maze, n)
        ensures e in dp && n in dp && dp[n] <= dp[e] + 1
      {
        assert n in depth;
      }
    }
  }

  /** One offset of the inner loop: queue the neighbour if it is open and not yet visited. */
  lemma BfsInnerStep(maze: Maze, start: Pos, goal: Pos, current: Pos, d: nat, i: nat, queue: seq<Pos>,
                     visited: set<Pos>, parent: map<Pos, Pos>, depth: map<Pos, nat>, expanded: set<Pos>)
    requires IsGrid(maze)
    requires BfsInner(maze, start, goal, current, d, i, queue, visited, parent, depth, expanded)
    requires i < 4
    ensures var next := Shift(current, Offsets[i]);
      if IsOpen(maze, next) && next !in visited then
        BfsInner(maze, start, goal, current, d, i + 1, queue + [next], visited + {next},
                 parent[next := current], depth[next := d + 1], expanded)
      else
        BfsInner(maze, start, goal, current, d, i + 1, queue, visited, parent, depth, expanded)
  {
    var next := Shift(current, Offsets[i]);
    if IsOpen(maze, next) && next !in visited {
      BfsPush(maze, start, goal, current, d, i, queue, visited, parent, depth, expanded, next);
    }
  }

  /** Once all four offsets are done, the outer invariant holds again. */
  lemma BfsInnerDone(maze: Maze, start: Pos, goal: Pos, current: Pos, d: nat, queue: seq<Pos>,
                     visited: set<Pos>, parent: map<Pos, Pos>, depth: map<Pos, nat>, expanded: set<Pos>)
    requires BfsInner(maze, start, goal, current, d, 4, queue, visited, parent, depth, expanded)
    ensures BfsInv(maze, start, goal, queue, visited, parent, depth, expanded)
  {
    forall e, n | e in expanded && Adjacent(e, n) && IsOpen(maze, n)
      ensures e in depth && n in depth && depth[n] <= depth[e] + 1
    {
      if e == current {
        var k := NeighbourIsOffset(e, n);
      } else {
        assert e in expanded - {current};
      }
    }
  }

  /** Along a walk whose first `k` cells are expanded, the `k`-th cell is visited at depth at most `k`. */
  lemma {:induction false} DepthAlongWalk(maze: Maze, start: Pos, w: seq<Pos>, expanded: set<Pos>,
                                          depth: map<Pos, nat>, k: nat)
    requires IsWalk(maze, start, w) && k <= |w|
    requires start in depth && depth[start] == 0
    requires ExpandedClosed(maze, expanded, depth)
    requires forall j :: 0 <= j < k ==> At(start, w, j) in expanded
    ensures At(start, w, k) in depth && depth[At(start, w, k)] <= k
    decreases k
  {
    if k > 0 {
      DepthAlongWalk(maze, start, w, expanded, depth, k - 1);
      var e := At(start, w, k - 1);
      assert e in expanded;
      assert IsOpen(maze, w[k - 1]) && Adjacent(e, w[k - 1]);
    }
  }

  /** Walking on from the first `k` expanded cells, some later cell is in the queue, no shallower than its front. */
  lemma {:induction false} FrontIsShallowest(maze: Maze, start: Pos, w: seq<Pos>, queue: seq<Pos>,
                                             visited: set<Pos>, depth: map<Pos, nat>, expanded: set<Pos>, k: nat)
    requires IsWalk(maze, start, w) && k <= |w|
    requires queue != [] && At(start, w, |w|) == queue[0]
    requires start in depth && depth[start] == 0 && depth.Keys == visited
    requires forall v :: v in visited <==> v in expanded || v in queue
    requires forall v :: v in expanded ==> v !in queue
    requires Layered(queue, depth)
    requires ExpandedClosed(maze, expanded, depth)
    requires forall j :: 0 <= j < k ==> At(start, w, j) in expanded
    ensures depth[queue[0]] <= |w|
    decreases |w| - k
  {
    DepthAlongWalk(maze, start, w, expanded, depth, k);
    var c := At(start, w, k);
    if c in expanded {
      assert k < |w|;
      FrontIsShallowest(maze, start, w, queue, visited, depth, expanded, k + 1);
    } else {
      assert c in queue;
      var i :| 0 <= i < |queue| && queue[i] == c;
      assert depth[queue[0]] <= depth[queue[i]];
    }
  }

  /** When the goal is at the front of the queue, no walk to it is shorter than its depth. */
  lemma BfsShortest(maze: Maze, start: Pos, goal: Pos, queue: seq<Pos>, visited: set<Pos>,
                    parent: map<Pos, Pos>, depth: map<Pos, nat>, expanded: set<Pos>, w: seq<Pos>)
    requires BfsInv(maze, start, goal, queue, visited, parent, depth, expanded)
    requires queue != [] && queue[0] == goal
    requires IsPathTo(maze, start, goal, w)
    ensures depth[goal] <= |w|
  {
    FrontIsShallowest(maze, start, w, queue, visited, depth, expanded, 0);
  }

  /**
   * The goal is at the front of the queue: its parent chain is what the
   * search returns, and it is `[]` exactly when the start is the goal,
   * and otherwise a path to the goal no longer than any other.
   */
  lemma BfsFound(maze: Maze, start: Pos, goal: Pos, queue: seq<Pos>, visited: set<Pos>,
                 parent: map<Pos, Pos>, depth: map<Pos, nat>, expanded: set<Pos>)
    requires BfsInv(maze, start, goal, queue, visited, parent, depth, expanded)
    requires queue != [] && queue[0] == goal
    ensures Ranked(parent, depth)
    ensures Chain(parent, depth, goal) == [] <==> start == goal || !Reachable(maze, start, goal)
    ensures Chain(parent, depth, goal) != [] ==> IsPathTo(maze, start, goal, Chain(parent, depth, goal))
    ensures forall w :: IsPathTo(maze, start, goal, w) ==> |Chain(parent, depth, goal)| <= |w|
  {
    forall w | IsPathTo(maze, start, goal, w) ensures depth[goal] <= |w| {
      BfsShortest(maze, start, goal, queue, visited, parent, depth, expanded, w);
    }
    ChainLength(start, parent, depth, goal);
    if goal != start {
      ChainIsPath(maze, start, parent, depth, goal);
    }
  }

  /** With the queue empty, the visited set is closed under steps and holds no goal. */
  lemma BfsExhausted(maze: Maze, start: Pos, goal: Pos, visited: set<Pos>,
                     parent: map<Pos, Pos>, depth: map<Pos, nat>, expanded: set<Pos>)
    requires BfsInv(maze, start, goal, [], visited, parent, depth, expanded)
    ensures !Reachable(maze, start, goal)
  {
    assert Closed(maze, expanded) by {
      forall e, n | e in expanded && Adjacent(e, n) && IsOpen(maze, n) ensures n in expanded {
        assert n in depth;
      }
    }
    ClosedSetBlocks(maze, start, goal, expanded);
  }
}
