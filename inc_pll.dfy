// inc_pll_weighted.py: repairing the labels after an edge {a, b} is added or
// made lighter, by resuming pruned searches from every hub of a or b.

module IncPll {
  import opened Common
  import opened Walks
  import opened PriorityQueues
  import opened PllWeighted
  import opened RouteUtil

  /**
   * prefixal_query(labels, u, v, k): the least L[u][x] + L[v][x] over the shared
   * hubs x with x <= k; inf when there are none.
   */
  function PrefixalQuery(L: Labels, u: int, v: int, k: int): (d: Dist)
    requires u in L && v in L
    ensures forall x :: x in L[u] && x in L[v] && x <= k ==> Le(d, Fin(L[u][x] + L[v][x]))
    ensures d.Fin? ==> exists x :: x in L[u] && x in L[v] && x <= k && d.n == L[u][x] + L[v][x]
    ensures d.Inf? <==> forall x :: x in L[u] && x in L[v] ==> x > k
  {
    MinOverHubs(L, u, v, set x | x in FindHub(L, u, v) && x <= k)
  }

  /** Restricting the hubs can only make the answer worse than the full query. */
  lemma PrefixalQueryBoundsQuery(L: Labels, u: int, v: int, k: int)
    requires u in L && v in L
    ensures Le(QueryDistance(L, u, v), PrefixalQuery(L, u, v, k))
    ensures (forall x :: x in L[u] && x in L[v] ==> x <= k) ==>
      PrefixalQuery(L, u, v, k) == QueryDistance(L, u, v)
  {
    var p, q := PrefixalQuery(L, u, v, k), QueryDistance(L, u, v);
    if p.Fin? {
      var x :| x in L[u] && x in L[v] && x <= k && p.n == L[u][x] + L[v][x];
      assert Le(q, Fin(L[u][x] + L[v][x]));
    }
    if forall x :: x in L[u] && x in L[v] ==> x <= k {
      if q.Fin? {
        var y :| y in L[u] && y in L[v] && q.n == L[u][y] + L[v][y];
        assert Le(p, q);
      }
    }
  }

  /** Every queued entry names a vertex of the graph. */
  predicate QueuedInGraph(G: Graph, q: seq<Entry>)
  {
    forall e :: e in q ==> e.1 in G
  }

  /** Every finite queued entry bounds the weight of a walk from `root`. */
  ghost predicate EntriesFromRoot(G: Graph, root: int, q: seq<Entry>)
  {
    forall e :: e in q && e.0.Fin? ==> HasWalk(G, root, e.1, e.0.n)
  }

  /** Queue (d + w(v, w), w) for every neighbour w of v. */
  method PushNeighbours(G: Graph, ghost root: int, v: int, dv: int, que: PriorityQueue, ghost start: bool)
    modifies que
    requires Undirected(G) && v in G
    requires QueuedInGraph(G, que.container)
    requires start ==> HasWalk(G, root, v, dv) && EntriesFromRoot(G, root, que.container)
    ensures QueuedInGraph(G, que.container)
    ensures start ==> EntriesFromRoot(G, root, que.container)
  {
    var todo := G[v].Keys;
    while todo != {}
      invariant todo <= G[v].Keys
      invariant QueuedInGraph(G, que.container)
      invariant start ==> EntriesFromRoot(G, root, que.container)
      decreases todo
    {
      var w := Pick(todo);
      todo := todo - {w};
      if start {
        ExtendWalk(G, root, v, dv, w);
      }
      que.Push((Fin(dv + G[v][w]), w));
    }
  }

  /**
   * resume_pbfs(g, root, u, d, l0): pop (d, u); whenever d beats the
   * prefixal query (root, u) over hubs up to root, record l0[u][root] = d and
   * queue (d + w(u, v), v) for every neighbour v. The search keeps no visited
   * set; it runs for at most `fuel` pops here. Only entries with hub root
   * change, and when the starting distance is a walk bound, every entry
   * written is one too. Every entry written passed the pruning test, so it
   * beats the prefixal query over the hubs below root, which the search
   * does not change.
   */
  method ResumePbfs(G: Graph, root: int, u: int, d: Dist, L: Labels, fuel: nat) returns (L': Labels)
    requires Undirected(G) && u in G && root in L
    requires forall v :: v in G ==> v in L
    ensures OnlyHubChanged(L, L', root)
    ensures forall v :: v in L && v !in G ==> L'[v] == L[v]
    ensures forall v, x :: v in L && x in L[v] ==> x in L'[v]
    ensures (d.Fin? ==> HasWalk(G, root, u, d.n)) ==> NewEntriesSound(G, L, L')
    ensures NewEntriesPruned(L, L', root)
  {
    ghost var start := d.Fin? ==> HasWalk(G, root, u, d.n);
    L' := L;
    var que := new PriorityQueue();
    que.Push((d, u));
    var steps := 0;
    while que.Size() != 0 && steps < fuel
      invariant QueuedInGraph(G, que.container)
      invariant start ==> EntriesFromRoot(G, root, que.container)
      invariant Resumed(G, L, L', root, start)
      invariant NewEntriesPruned(L, L', root)
      decreases fuel - steps
    {
      steps := steps + 1;
      var top := que.Pop();
      var du, v := top.value.0, top.value.1;
      if Lt(du, PrefixalQuery(L', root, v, root)) {
        ResumedStep(G, L, L', root, start, v, du.n);
        PrunedStep(L, L', root, v, du.n);
        L' := SetLabel(L', v, root, du.n);
        PushNeighbours(G, root, v, du.n, que, start);
      }
    }
  }

  /**
   * Every entry with hub root that L1 adds or rewrites is below the
   * prefixal query (root, v) of L over the hubs smaller than root.
   */
  ghost predicate NewEntriesPruned(L: Labels, L1: Labels, root: int)
  {
    forall v :: v in L1 && root in L1[v] && v in L && root in L && NewEntry(L, L1, v, root) ==>
      Lt(Fin(L1[v][root]), PrefixalQuery(L, root, v, root - 1))
  }

  /** Labels changed only at hub root answer the prefixal query at least as well as L does over the smaller hubs. */
  lemma PrefixalQueryBelowRoot(L: Labels, L1: Labels, root: int, v: int)
    requires OnlyHubChanged(L, L1, root) && root in L && v in L
    ensures Le(PrefixalQuery(L1, root, v, root), PrefixalQuery(L, root, v, root - 1))
  {
    var q := PrefixalQuery(L, root, v, root - 1);
    if q.Fin? {
      var x :| x in L[root] && x in L[v] && x <= root - 1 && q.n == L[root][x] + L[v][x];
      assert x in L1[root] && x in L1[v] && L1[root][x] + L1[v][x] == q.n;
    }
  }

  /** A write that passed the pruning test keeps NewEntriesPruned. */
  lemma PrunedStep(L: Labels, L1: Labels, root: int, v: int, d: int)
    requires OnlyHubChanged(L, L1, root) && NewEntriesPruned(L, L1, root) && root in L && v in L
    requires Lt(Fin(d), PrefixalQuery(L1, root, v, root))
    ensures NewEntriesPruned(L, SetLabel(L1, v, root, d), root)
  {
    PrefixalQueryBelowRoot(L, L1, root, v);
    var L2 := SetLabel(L1, v, root, d);
    forall u | u in L2 && root in L2[u] && u in L && root in L && NewEntry(L, L2, u, root)
      ensures Lt(Fin(L2[u][root]), PrefixalQuery(L, root, u, root - 1))
    {
      if u != v {
        assert L2[u] == L1[u];
      }
    }
  }

  /** What the resumed search keeps about the labels it has written so far. */
  ghost predicate Resumed(G: Graph, L: Labels, L1: Labels, root: int, start: bool)
  {
    OnlyHubChanged(L, L1, root) &&
    (forall v :: v in L && v !in G ==> L1[v] == L[v]) &&
    (forall v, x :: v in L && x in L[v] ==> x in L1[v]) &&
    (start ==> NewEntriesSound(G, L, L1))
  }

  /** Writing L1[v][root] for a graph vertex v keeps Resumed, given a walk when the start was one. */
  lemma ResumedStep(G: Graph, L: Labels, L1: Labels, root: int, start: bool, v: int, d: int)
    requires Resumed(G, L, L1, root, start) && v in G && v in L
    requires start ==> HasWalk(G, root, v, d)
    ensures Resumed(G, L, SetLabel(L1, v, root, d), root, start)
  {
    if start {
      SetLabelKeeps(G, L, L1, v, root, d);
    }
    var L2 := SetLabel(L1, v, root, d);
    assert OnlyHubChanged(L, L2, root) by {
      forall u, x | u in L && x != root
        ensures (x in L2[u] <==> x in L[u]) && (x in L[u] ==> L2[u][x] == L[u][x])
      {
        assert (x in L2[u] <==> x in L1[u]) && (x in L1[u] ==> L2[u][x] == L1[u][x]);
      }
    }
  }

  /**
   * One step of inc_pll_w: when hub v labels `from`, resume the search from v
   * towards `to` at d(v, from) + w(from, to).
   */
  method ResumeIfHub(G: Graph, L: Labels, v: int, from: int, to: int, fuel: nat) returns (L': Labels)
    requires Undirected(G) && from in G && to in G[from]
    requires forall x :: x in G ==> x in L
    requires HubsLabelled(L) && v in L
    ensures L'.Keys == L.Keys && HubsLabelled(L')
    ensures OnlyHubChanged(L, L', v)
    ensures forall u, x :: u in L && x in L[u] ==> x in L'[u]
    ensures forall u :: u in L && u !in G ==> L'[u] == L[u]
    ensures LabelsSound(G, L) ==> LabelsSound(G, L')
  {
    L' := L;
    if v in L[from] {
      var d := AddW(QueryDistance(L, v, from), G[from][to]);
      if LabelsSound(G, L) && d.Fin? {
        QueryDistanceSound(G, L, v, from);
        ExtendWalk(G, v, from, QueryDistance(L, v, from).n, to);
      }
      L' := ResumePbfs(G, v, to, d, L, fuel);
      if LabelsSound(G, L) {
        NewEntriesKeepSound(G, L, L');
      }
      ResumeKeepsHubsLabelled(L, L', v);
    }
  }

  /** Entries whose hub is outside `done` are as in L. */
  ghost predicate UnchangedOutside(L: Labels, L': Labels, done: seq<int>)
    requires L'.Keys == L.Keys
  {
    forall u, x :: u in L && x !in done ==>
      (x in L'[u] <==> x in L[u]) && (x in L[u] ==> L'[u][x] == L[u][x])
  }

  lemma UnchangedOutsideStep(L: Labels, L1: Labels, L2: Labels, done: seq<int>, v: int)
    requires L1.Keys == L.Keys && L2.Keys == L.Keys
    requires UnchangedOutside(L, L1, done) && OnlyHubChanged(L1, L2, v)
    ensures UnchangedOutside(L, L2, done + [v])
  {
  }

  /**
   * inc_pll_w(g, l0, a, b): after edge {a, b} was added or made lighter,
   * resume a search from every hub v of a or b, in increasing order: towards
   * b from d(v, a) + w(a, b) when v is still a hub of a, and towards a from
   * d(v, b) + w(a, b) when v is a hub of b. Only entries whose hub was a hub
   * of a or b change, no entry disappears, and sound labels stay sound.
   */
  method IncPllW(G: Graph, L: Labels, a: int, b: int, fuel: nat) returns (L': Labels)
    requires Undirected(G) && a in G && b in G[a]
    requires forall v :: v in G ==> v in L
    requires HubsLabelled(L)
    ensures L'.Keys == L.Keys
    ensures forall u, x :: u in L && x !in L[a] && x !in L[b] ==>
      (x in L'[u] <==> x in L[u]) && (x in L[u] ==> L'[u][x] == L[u][x])
    ensures forall u, x :: u in L && x in L[u] ==> x in L'[u]
    ensures forall u :: u in L && u !in G ==> L'[u] == L[u]
    ensures LabelsSound(G, L) ==> LabelsSound(G, L')
  {
    ghost var sound := LabelsSound(G, L);
    var toResume := SortedSet(L[a].Keys + L[b].Keys);
    L' := L;
    for i := 0 to |toResume|
      invariant L'.Keys == L.Keys && HubsLabelled(L')
      invariant UnchangedOutside(L, L', toResume[..i])
      invariant forall u, x :: u in L && x in L[u] ==> x in L'[u]
      invariant forall u :: u in L && u !in G ==> L'[u] == L[u]
      invariant sound ==> LabelsSound(G, L')
    {
      var v := toResume[i];
      assert v in L by { assert v in L[a] || v in L[b]; }
      var L1 := ResumeIfHub(G, L', v, a, b, fuel);
      UndirectedEdge(G, a, b);
      var L2 := ResumeIfHub(G, L1, v, b, a, fuel);
      OnlyHubChangedTrans(L', L1, L2, v);
      UnchangedOutsideStep(L, L', L2, toResume[..i], v);
      PrefixSnoc(toResume, i);
      L' := L2;
    }
    assert toResume[..|toResume|] == toResume;
  }

  lemma UndirectedEdge(G: Graph, a: int, b: int)
    requires Undirected(G) && a in G && b in G[a]
    ensures b in G && a in G[b] && G[b][a] == G[a][b]
  {
  }

  lemma PrefixSnoc(s: seq<int>, i: int)
    requires 0 <= i < |s|
    ensures s[..i + 1] == s[..i] + [s[i]]
  {
  }

  lemma OnlyHubChangedTrans(L1: Labels, L2: Labels, L3: Labels, hub: int)
    requires OnlyHubChanged(L1, L2, hub) && OnlyHubChanged(L2, L3, hub)
    ensures OnlyHubChanged(L1, L3, hub)
  {
  }

  lemma ResumeKeepsHubsLabelled(L1: Labels, L2: Labels, root: int)
    requires HubsLabelled(L1) && root in L1 && OnlyHubChanged(L1, L2, root)
    ensures HubsLabelled(L2)
  {
  }

  /**
   * verify(g, correct_l, test_l): the pairs of nodes on which the two
   * labellings answer a query differently, with both answers.
   */
  method Verify(nodes: seq<int>, correct: Labels, test: Labels) returns (r: seq<Mismatch>)
    ensures forall m :: m in r ==> (m.0 in nodes && m.1 in nodes &&
      m.2 == QueryDistance(correct, m.0, m.1) && m.3 == QueryDistance(test, m.0, m.1) && m.2 != m.3)
    ensures forall u, v :: u in nodes && v in nodes && QueryDistance(correct, u, v) != QueryDistance(test, u, v) ==>
      (u, v, QueryDistance(correct, u, v), QueryDistance(test, u, v)) in r
  {
    r := Mismatches(nodes, (u, v) => QueryDistance(correct, u, v), (u, v) => QueryDistance(test, u, v));
  }
}
