/**
 * Facts about walks used by the termination and completeness arguments of
 * the three searches of AI.py.
 */
module SearchFacts {
  import opened Grid

  /** Stepping from a cell of `s` to an open 4-neighbour stays inside `s`. */
  ghost predicate Closed(maze: Maze, s: set<Pos>) {
    forall e, n {:trigger Adjacent(e, n), e in s} :: e in s && Adjacent(e, n) && IsOpen(maze, n) ==> n in s
  }

  /**
   * A set that holds `start` and is closed under stepping to an open
   * 4-neighbour holds every cell of every walk from `start`.
   */
  lemma {:induction false} ClosedSetHoldsWalkCell(maze: Maze, start: Pos, s: set<Pos>, w: seq<Pos>, k: nat)
    requires start in s && Closed(maze, s)
    requires IsWalk(maze, start, w)
    requires k < |w|
    ensures w[k] in s
    decreases k
  {
    var b := At(start, w, k);
    if k > 0 {
      ClosedSetHoldsWalkCell(maze, start, s, w, k - 1);
    }
    assert b in s;
    assert IsOpen(maze, w[k]) && Adjacent(b, w[k]);
  }

  lemma ClosedSetHoldsWalk(maze: Maze, start: Pos, s: set<Pos>, w: seq<Pos>)
    requires start in s && Closed(maze, s)
    requires IsWalk(maze, start, w)
    ensures forall i :: 0 <= i < |w| ==> w[i] in s
  {
    forall i | 0 <= i < |w| ensures w[i] in s {
      ClosedSetHoldsWalkCell(maze, start, s, w, i);
    }
  }

  /** So when `goal` is outside such a set, no walk reaches it. */
  lemma ClosedSetBlocks(maze: Maze, start: Pos, goal: Pos, s: set<Pos>)
    requires start in s && goal !in s
    requires Closed(maze, s)
    ensures !Reachable(maze, start, goal)
  {
    forall w | IsPathTo(maze, start, goal, w) ensures false {
      ClosedSetHoldsWalk(maze, start, s, w);
    }
  }

  lemma {:induction false} SubsetCard<T>(a: set<T>, b: set<T>)
    requires a <= b
    ensures |a| <= |b|
    decreases |b|
  {
    if a != {} {
      var x :| x in a;
      SubsetCard(a - {x}, b - {x});
    }
  }

  /** Growing a subset of `all` leaves strictly fewer of its elements outside: the searches' termination measure. */
  lemma FewerLeft<T>(all: set<T>, a: set<T>, b: set<T>)
    requires a <= b <= all && a != b
    ensures all - b < all - a
  {
    var x :| x in b && x !in a;
    assert x in all - a && x !in all - b;
  }

  /** A budget that stays put forces the work list back to what it was, so the pair decreases. */
  lemma PairShrinks<T, U>(budget: set<T>, budget0: set<T>, work: seq<U>, rest: seq<U>, work0: seq<U>)
    requires budget <= budget0 && (budget == budget0 ==> work == rest) && |rest| < |work0|
    ensures budget < budget0 || (budget == budget0 && |work| < |work0|)
  {
  }

  /** One step changes the Manhattan distance to `goal` by at most one. */
  lemma ManhattanStep(p: Pos, q: Pos, goal: Pos)
    requires Adjacent(p, q)
    ensures Manhattan(p, goal) <= Manhattan(q, goal) + 1
  {
  }

  /** Dropping the first step of a walk leaves a walk from that step's cell. */
  lemma WalkTail(maze: Maze, p: Pos, w: seq<Pos>)
    requires IsWalk(maze, p, w) && |w| > 0
    ensures IsWalk(maze, w[0], w[1..])
    ensures Adjacent(p, w[0]) && IsOpen(maze, w[0])
  {
    var rest := w[1..];
    forall i | 0 <= i < |rest| ensures IsOpen(maze, rest[i]) && Adjacent(At(w[0], rest, i), rest[i]) {
      assert rest[i] == w[i + 1];
      assert At(w[0], rest, i) == At(p, w, i + 1);
    }
    assert At(p, w, 0) == p;
  }

  /** Manhattan distance to the goal never exceeds the length of a walk there. */
  lemma {:induction false} ManhattanBelowWalk(maze: Maze, p: Pos, goal: Pos, w: seq<Pos>)
    requires IsPathTo(maze, p, goal, w)
    ensures Manhattan(p, goal) <= |w|
    decreases |w|
  {
    WalkTail(maze, p, w);
    if |w| > 1 {
      ManhattanBelowWalk(maze, w[0], goal, w[1..]);
    }
    ManhattanStep(p, w[0], goal);
  }
}
