/**
 * The A* open set of AI.py:55-75, a `heapq` list of `(priority, (x, y))`
 * entries. Only what `heappush` and `heappop` promise is modelled: a push
 * adds one entry, a pop removes and returns a least entry in Python's
 * tuple order. The heap layout itself is not.
 */
module OpenSet {
  import opened Grid

  type Entry = (int, Pos)

  /** Python's tuple order on `(priority, (x, y))`: priority, then x, then y. */
  predicate EntryLe(a: Entry, b: Entry) {
    a.0 < b.0 || (a.0 == b.0 && (a.1.x < b.1.x || (a.1.x == b.1.x && a.1.y <= b.1.y)))
  }

  lemma EntryLeTotal(a: Entry, b: Entry)
    ensures EntryLe(a, b) || EntryLe(b, a)
    ensures EntryLe(a, b) && EntryLe(b, a) ==> a == b
  {
  }

  lemma EntryLeTransitive(a: Entry, b: Entry, c: Entry)
    requires EntryLe(a, b) && EntryLe(b, c)
    ensures EntryLe(a, c)
  {
  }

  /** The positions that have at least one entry in the open set. */
  ghost function Positions(heap: seq<Entry>): set<Pos> {
    set e | e in heap :: e.1
  }

  /** heapq.heappop: removes a least entry and returns it with what remains. */
  method HeapPop(heap: seq<Entry>) returns (top: Entry, rest: seq<Entry>)
    requires heap != []
    ensures top in heap
    ensures forall e :: e in heap ==> EntryLe(top, e)
    ensures multiset(rest) + multiset{top} == multiset(heap)
    ensures |rest| == |heap| - 1
  {
    var m := 0;
    for i := 1 to |heap|
      invariant 0 <= m < |heap|
      invariant forall k :: 0 <= k < i ==> EntryLe(heap[m], heap[k])
    {
      if !EntryLe(heap[m], heap[i]) {
        forall k | 0 <= k < i ensures EntryLe(heap[i], heap[k]) {
          EntryLeTotal(heap[m], heap[i]);
          EntryLeTransitive(heap[i], heap[m], heap[k]);
        }
        m := i;
      }
    }
    top := heap[m];
    rest := heap[..m] + heap[m + 1..];
    assert heap == heap[..m] + [heap[m]] + heap[m + 1..];
  }
}
