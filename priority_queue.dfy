// The priority queue of util.py: a heapq container of (distance, node)
// entries. Entries compare as Python tuples do: by distance, then by node.
// The container is kept as an unordered sequence; only the multiset of its
// entries and the element pop returns are modelled, not the heap layout.

module PriorityQueues {
  import opened Common

  type Entry = (Dist, int)

  /** Python's `a <= b` on (distance, node) tuples. */
  predicate EntryLe(a: Entry, b: Entry)
  {
    Lt(a.0, b.0) || (a.0 == b.0 && a.1 <= b.1)
  }

  lemma EntryLeTotal(a: Entry, b: Entry)
    ensures EntryLe(a, b) || EntryLe(b, a)
  {
  }

  /** An entry other than the popped one is still queued after a pop. */
  lemma StillQueued(q0: seq<Entry>, q1: seq<Entry>, top: Entry, e: Entry)
    requires multiset(q1) == multiset(q0) - multiset{top}
    requires e in q0 && e != top
    ensures e in q1
  {
    assert e in multiset(q0);
    assert e in multiset(q1);
  }

  /** The position of a least entry: the scan that heappop's sift stands for. */
  method LeastIndex(q: seq<Entry>) returns (best: int)
    requires q != []
    ensures 0 <= best < |q| && forall e :: e in q ==> EntryLe(q[best], e)
  {
    best := 0;
    var i := 1;
    while i < |q|
      invariant 0 <= best < i <= |q|
      invariant forall j :: 0 <= j < i ==> EntryLe(q[best], q[j])
    {
      if !EntryLe(q[best], q[i]) {
        best := i;
      }
      i := i + 1;
    }
    forall e | e in q ensures EntryLe(q[best], e) {
      var j :| 0 <= j < |q| && q[j] == e;
    }
  }

  /** Cutting out the entry at position k takes exactly that entry out. */
  lemma RemoveAtFacts(q: seq<Entry>, k: int)
    requires 0 <= k < |q|
    ensures var q1 := q[..k] + q[k + 1..];
      multiset(q1) == multiset(q) - multiset{q[k]} && |q1| == |q| - 1 && forall e :: e in q1 ==> e in q
  {
    assert q == q[..k] + [q[k]] + q[k + 1..];
  }

  class PriorityQueue {
    var container: seq<Entry>

    constructor ()
      ensures container == []
    {
      container := [];
    }

    method Push(item: Entry)
      modifies this
      ensures multiset(container) == multiset(old(container)) + multiset{item}
      ensures |container| == |old(container)| + 1
      ensures forall e :: e in container <==> e in old(container) || e == item
    {
      container := container + [item];
    }

    /**
     * heapq.heappop: the least entry, removed once. Popping an empty heap
     * raises IndexError, modelled as None.
     */
    method Pop() returns (r: Option<Entry>)
      modifies this
      ensures old(container) == [] ==> r == None && container == []
      ensures old(container) != [] ==>
        r.Some? && r.value in old(container) &&
        (forall e :: e in old(container) ==> EntryLe(r.value, e)) &&
        multiset(container) == multiset(old(container)) - multiset{r.value} &&
        |container| == |old(container)| - 1 &&
        forall e :: e in container ==> e in old(container)
    {
      if container == [] {
        return None;
      }
      var best := LeastIndex(container);
      var item := container[best];
      RemoveAtFacts(container, best);
      container := container[..best] + container[best + 1..];
      r := Some(item);
    }

    function Size(): nat
      reads this
    {
      |container|
    }
  }
}
