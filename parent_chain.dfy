/**
 * Parent maps as the three searches of AI.py build them, and the path
 * `reconstruct_path` reads off them: the chain of parents from a cell back
 * to the root, reversed, root excluded.
 */
module ParentChain {
  import opened Grid

  /**
   * `rank` strictly grows from a parent to its child, so following parents
   * always stops: this is what makes the reconstruction loop terminate.
   */
  ghost predicate Ranked(parent: map<Pos, Pos>, rank: map<Pos, nat>) {
    forall n :: n in parent ==> n in rank && parent[n] in rank && rank[parent[n]] < rank[n]
  }

  /** The parent chain ending at `n`, root first; the root itself is left out. */
  ghost function Chain(parent: map<Pos, Pos>, rank: map<Pos, nat>, n: Pos): seq<Pos>
    requires Ranked(parent, rank)
    decreases if n in rank then rank[n] else 0
  {
    if n in parent then Chain(parent, rank, parent[n]) + [n] else []
  }

  /**
   * What every search keeps true of its parent map: `start` never gets a
   * parent, every child is an open 4-neighbour of its parent, and every
   * parent is `start` or has a parent itself.
   */
  ghost predicate ParentsValid(maze: Maze, start: Pos, parent: map<Pos, Pos>) {
    start !in parent &&
    forall n :: n in parent ==>
      IsOpen(maze, n) && Adjacent(parent[n], n) && (parent[n] == start || parent[n] in parent)
  }

  /** The chain of a cell with a parent is a walk from `start` to that cell. */
  lemma {:induction false} ChainIsPath(maze: Maze, start: Pos, parent: map<Pos, Pos>, rank: map<Pos, nat>, n: Pos)
    requires Ranked(parent, rank) && ParentsValid(maze, start, parent)
    requires n in parent
    ensures IsPathTo(maze, start, n, Chain(parent, rank, n))
    decreases rank[n]
  {
    var p := parent[n];
    var c := Chain(parent, rank, p);
    assert Chain(parent, rank, n) == c + [n];
    if p == start {
      assert c == [];
    } else {
      ChainIsPath(maze, start, parent, rank, p);
      assert c[|c| - 1] == p;
      forall i | 0 <= i < |c + [n]|
        ensures IsOpen(maze, (c + [n])[i]) && Adjacent(At(start, c + [n], i), (c + [n])[i])
      {
        if i < |c| {
          assert (c + [n])[i] == c[i];
          assert At(start, c + [n], i) == At(start, c, i);
        }
      }
    }
  }

  /**
   * Every cell of a chain has a parent (so `start` is never on it) and rank
   * strictly grows along it, so a chain never visits a cell twice.
   */
  lemma {:induction false} ChainSimple(parent: map<Pos, Pos>, rank: map<Pos, nat>, n: Pos)
    requires Ranked(parent, rank)
    ensures forall e :: e in Chain(parent, rank, n) ==> e in parent && rank[e] <= rank[n]
    ensures forall i, j :: 0 <= i < j < |Chain(parent, rank, n)| ==>
      rank[Chain(parent, rank, n)[i]] < rank[Chain(parent, rank, n)[j]]
    decreases if n in rank then rank[n] else 0
  {
    if n in parent {
      var c := Chain(parent, rank, parent[n]);
      ChainSimple(parent, rank, parent[n]);
      assert Chain(parent, rank, n) == c + [n];
      forall i, j | 0 <= i < j < |c + [n]|
        ensures rank[(c + [n])[i]] < rank[(c + [n])[j]]
      {
        assert (c + [n])[i] == c[i];
        if j < |c| { assert (c + [n])[j] == c[j]; }
      }
    }
  }

  /** With unit rank steps from a root of rank 0, a chain is as long as its cell's rank. */
  lemma {:induction false} ChainLength(start: Pos, parent: map<Pos, Pos>, rank: map<Pos, nat>, n: Pos)
    requires Ranked(parent, rank)
    requires start !in parent && start in rank && rank[start] == 0
    requires forall m :: m in parent ==> rank[m] == rank[parent[m]] + 1 && (parent[m] == start || parent[m] in parent)
    requires n == start || n in parent
    ensures |Chain(parent, rank, n)| == rank[n]
    decreases if n in rank then rank[n] else 0
  {
    if n in parent {
      ChainLength(start, parent, rank, parent[n]);
    }
  }

  function Reverse<T>(s: seq<T>): (r: seq<T>)
    ensures |r| == |s|
    ensures forall i :: 0 <= i < |s| ==> r[i] == s[|s| - 1 - i]
  {
    if s == [] then [] else [s[|s| - 1]] + Reverse(s[..|s| - 1])
  }
}
