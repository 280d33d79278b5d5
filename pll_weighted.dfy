// pll_weighted.py: weighted pruned landmark labelling. Every vertex v keeps a
// label L[v] mapping hubs (landmarks) x to a distance between x and v; a
// distance query takes the best sum over the hubs two vertices share.

module PllWeighted {
  import opened Common
  import opened Walks
  import opened PriorityQueues

  /** labels[v][x]: the label of vertex v for hub x. */
  type Labels = map<int, map<int, int>>

  /** The hubs that u's and v's labels share (find_hub). */
  function FindHub(L: Labels, u: int, v: int): set<int>
    requires u in L && v in L
  {
    L[u].Keys * L[v].Keys
  }

  /** The least L[u][x] + L[v][x] over the hubs x in `hubs`; inf when there are none. */
  function MinOverHubs(L: Labels, u: int, v: int, hubs: set<int>): (d: Dist)
    requires u in L && v in L
    requires forall x :: x in hubs ==> x in L[u] && x in L[v]
    ensures forall x :: x in hubs ==> Le(d, Fin(L[u][x] + L[v][x]))
    ensures d.Fin? ==> exists x :: x in hubs && d.n == L[u][x] + L[v][x]
    ensures d.Inf? <==> hubs == {}
    decreases hubs
  {
    if hubs == {} then Inf
    else
      var x := SetMin(hubs);
      Min(Fin(L[u][x] + L[v][x]), MinOverHubs(L, u, v, hubs - {x}))
  }

  /**
   * query_distance: inf when either vertex has no label, otherwise the least
   * sum over the shared hubs.
   */
  function QueryDistance(L: Labels, u: int, v: int): (d: Dist)
    ensures (u !in L || v !in L) ==> d == Inf
    ensures u in L && v in L ==>
      (forall x :: x in L[u] && x in L[v] ==> Le(d, Fin(L[u][x] + L[v][x]))) &&
      (d.Fin? ==> exists x :: x in L[u] && x in L[v] && d.n == L[u][x] + L[v][x]) &&
      (d.Inf? <==> FindHub(L, u, v) == {})
  {
    if u !in L || v !in L then Inf else MinOverHubs(L, u, v, FindHub(L, u, v))
  }

  /** Two values that both satisfy the "least shared-hub sum" description are equal. */
  lemma {:induction false} QueryDistanceSymmetric(L: Labels, u: int, v: int)
    ensures QueryDistance(L, u, v) == QueryDistance(L, v, u)
  {
    var a, b := QueryDistance(L, u, v), QueryDistance(L, v, u);
    if u in L && v in L {
      assert FindHub(L, u, v) == FindHub(L, v, u);
      if a.Fin? {
        var x :| x in L[u] && x in L[v] && a.n == L[u][x] + L[v][x];
        assert Le(b, a);
      }
      if b.Fin? {
        var y :| y in L[v] && y in L[u] && b.n == L[v][y] + L[u][y];
        assert Le(a, b);
      }
    }
  }

  /** Every label is an upper bound on the weight of a real walk from its hub. */
  ghost predicate LabelsSound(G: Graph, L: Labels)
  {
    forall u, x :: u in L && x in L[u] ==> HasWalk(G, x, u, L[u][x])
  }

  /**
   * With sound labels, every finite answer of a query is the weight bound of a
   * real walk: the labelling never reports two vertices closer than they are.
   */
  lemma QueryDistanceSound(G: Graph, L: Labels, u: int, v: int)
    requires Undirected(G) && LabelsSound(G, L)
    requires QueryDistance(L, u, v).Fin?
    ensures HasWalk(G, u, v, QueryDistance(L, u, v).n)
  {
    var d := QueryDistance(L, u, v);
    var x :| x in L[u] && x in L[v] && d.n == L[u][x] + L[v][x];
    assert HasWalk(G, x, u, L[u][x]);
    ReverseWalk(G, x, u, L[u][x]);
    ConcatWalks(G, u, x, L[u][x], v, L[v][x]);
  }

  /** Every hub of every label is itself a labelled vertex. */
  ghost predicate HubsLabelled(L: Labels)
  {
    forall u, x :: u in L && x in L[u] ==> x in L
  }

  lemma SoundLabelsHubsLabelled(G: Graph, L: Labels)
    requires LabelsSound(G, L) && G.Keys <= L.Keys
    ensures HubsLabelled(L)
  {
    forall u, x | u in L && x in L[u] ensures x in L {
      var p :| IsWalk(G, p) && p[0] == x && p[|p| - 1] == u && Weight(G, p) <= L[u][x];
    }
  }

  /** The entries of L2 that differ from L1 all have hub `hub`. */
  ghost predicate OnlyHubChanged(L1: Labels, L2: Labels, hub: int)
  {
    L2.Keys == L1.Keys &&
    forall u, x :: u in L1 && x != hub ==>
      (x in L2[u] <==> x in L1[u]) && (x in L1[u] ==> L2[u][x] == L1[u][x])
  }

  /** L2[u][x] is an entry L1 does not have with that value. */
  predicate NewEntry(L1: Labels, L2: Labels, u: int, x: int)
    requires u in L2 && x in L2[u]
  {
    !(u in L1 && x in L1[u] && L1[u][x] == L2[u][x])
  }

  /** Every entry that L2 adds or rewrites is a walk bound. */
  ghost predicate NewEntriesSound(G: Graph, L1: Labels, L2: Labels)
  {
    forall u, x :: u in L2 && x in L2[u] && NewEntry(L1, L2, u, x) ==> HasWalk(G, x, u, L2[u][x])
  }

  lemma NewEntriesKeepSound(G: Graph, L1: Labels, L2: Labels)
    requires LabelsSound(G, L1) && NewEntriesSound(G, L1, L2)
    ensures LabelsSound(G, L2)
  {
    forall u, x | u in L2 && x in L2[u] ensures HasWalk(G, x, u, L2[u][x]) {
      if !NewEntry(L1, L2, u, x) {
        assert HasWalk(G, x, u, L1[u][x]);
      }
    }
  }

  lemma NewEntriesTransitive(G: Graph, L1: Labels, L2: Labels, L3: Labels)
    requires NewEntriesSound(G, L1, L2) && NewEntriesSound(G, L2, L3)
    ensures NewEntriesSound(G, L1, L3)
  {
    forall u, x | u in L3 && x in L3[u] && NewEntry(L1, L3, u, x)
      ensures HasWalk(G, x, u, L3[u][x])
    {
      if !NewEntry(L2, L3, u, x) {
        assert NewEntry(L1, L2, u, x);
      }
    }
  }

  /** Every queued entry is finite, names a known vertex and is no better than its D. */
  predicate QueueBounded(D: map<int, Dist>, q: seq<Entry>)
  {
    forall e :: e in q ==> e.1 in D && e.0.Fin? && Le(D[e.1], e.0)
  }

  /** Popping an entry keeps the queue bounded; the popped vertex is a graph vertex. */
  lemma QueueBoundedShrinks(D: map<int, Dist>, q0: seq<Entry>, q1: seq<Entry>, top: Entry)
    requires QueueBounded(D, q0) && top in q0 && forall e :: e in q1 ==> e in q0
    ensures QueueBounded(D, q1) && top.1 in D && top.0.Fin?
  {
  }

  /** Every finite tentative distance is the weight of a walk from `src`. */
  ghost predicate DistSound(G: Graph, src: int, D: map<int, Dist>)
  {
    forall w :: w in D && D[w].Fin? ==> HasWalk(G, src, w, D[w].n)
  }

  /**
   * The neighbour loop shared by the Dijkstra searches of this package:
   * for every neighbour w of u, if D[w] > D[u] + w(u, w) then lower D[w] and
   * queue (D[w], w). Tentative distances only decrease and stay walk weights.
   */
  method RelaxNeighbours(G: Graph, ghost src: int, u: int, D: map<int, Dist>, pq: PriorityQueue)
    returns (D': map<int, Dist>)
    requires Undirected(G) && u in G && D.Keys == G.Keys && D[u].Fin?
    requires QueueBounded(D, pq.container) && DistSound(G, src, D)
    modifies pq
    ensures D'.Keys == G.Keys && D'[u].Fin?
    ensures QueueBounded(D', pq.container) && DistSound(G, src, D')
    ensures forall w :: w in G ==> Le(D'[w], D[w])
  {
    D' := D;
    var todo := G[u].Keys;
    while todo != {}
      invariant todo <= G[u].Keys
      invariant D'.Keys == G.Keys && D'[u].Fin?
      invariant QueueBounded(D', pq.container) && DistSound(G, src, D')
      invariant forall w :: w in G ==> Le(D'[w], D[w])
      decreases todo
    {
      var w := Pick(todo);
      todo := todo - {w};
      var alt := D'[u].n + G[u][w];
      if Lt(Fin(alt), D'[w]) {
        ExtendWalk(G, src, u, D'[u].n, w);
        D' := D'[w := Fin(alt)];
        pq.Push((D'[w], w));
      }
    }
  }

  /** L with the single entry L[u][hub] set to d. */
  function SetLabel(L: Labels, u: int, hub: int, d: int): (L': Labels)
    requires u in L
    ensures L'.Keys == L.Keys && L'[u] == L[u][hub := d]
    ensures forall v :: v in L && v != u ==> L'[v] == L[v]
  {
    L[u := L[u][hub := d]]
  }

  /** Writing one sound entry with hub `hub` keeps the facts pruned_dijkstra maintains. */
  lemma SetLabelKeeps(G: Graph, L: Labels, L1: Labels, u: int, hub: int, d: int)
    requires u in L1 && u in G && HasWalk(G, hub, u, d)
    requires OnlyHubChanged(L, L1, hub) && NewEntriesSound(G, L, L1)
    requires forall v :: v in L && v !in G ==> L1[v] == L[v]
    ensures OnlyHubChanged(L, SetLabel(L1, u, hub, d), hub)
    ensures NewEntriesSound(G, L, SetLabel(L1, u, hub, d))
    ensures forall v :: v in L && v !in G ==> SetLabel(L1, u, hub, d)[v] == L[v]
  {
    var L2 := SetLabel(L1, u, hub, d);
    assert NewEntriesSound(G, L1, L2);
    NewEntriesTransitive(G, L, L1, L2);
  }

  /**
   * pruned_dijkstra(G, vk, L): a Dijkstra search from vk that records
   * L[u][vk] = D[u] for every vertex it settles, unless the current labels
   * already answer the query (vk, u) with at most D[u]; such a pruned vertex
   * is not expanded. Only the entries with hub vk change, only for graph
   * vertices, and every entry written is the weight of a real walk from vk.
   */
  method PrunedDijkstra(G: Graph, vk: int, L: Labels) returns (L': Labels)
    requires Undirected(G) && vk in G
    requires forall v :: v in G ==> v in L
    ensures OnlyHubChanged(L, L', vk)
    ensures forall u :: u in L && u !in G ==> L'[u] == L[u]
    ensures NewEntriesSound(G, L, L')
  {
    L' := L;
    var visited: map<int, bool> := map v | v in G :: false;
    var D: map<int, Dist> := map v | v in G :: Inf;
    D := D[vk := Fin(0)];
    TrivialWalk(G, vk);
    var pq := new PriorityQueue();
    pq.Push((D[vk], vk));
    ghost var unsettled := G.Keys;
    while pq.Size() != 0
      invariant D.Keys == G.Keys && VisitedExactly(G, visited, unsettled)
      invariant QueueBounded(D, pq.container) && DistSound(G, vk, D)
      invariant OnlyHubChanged(L, L', vk)
      invariant forall u :: u in L && u !in G ==> L'[u] == L[u]
      invariant NewEntriesSound(G, L, L')
      decreases unsettled, |pq.container|
    {
      ghost var q0 := pq.container;
      var top := pq.Pop();
      var u := top.value.1;
      QueueBoundedShrinks(D, q0, pq.container, top.value);
      if visited[u] {
        continue;
      }
      VisitKeeps(G, visited, unsettled, u);
      visited := visited[u := true];
      unsettled := unsettled - {u};
      L', D := SettleVertex(G, L, vk, u, L', D, pq);
    }
  }

  /** visited[v] holds for exactly the graph vertices outside `unsettled`. */
  predicate VisitedExactly(G: Graph, visited: map<int, bool>, unsettled: set<int>)
  {
    visited.Keys == G.Keys && unsettled <= G.Keys &&
    forall v :: v in G ==> (visited[v] <==> v !in unsettled)
  }

  /** Marking u visited removes it from the unsettled vertices. */
  lemma VisitKeeps(G: Graph, visited: map<int, bool>, unsettled: set<int>, u: int)
    requires VisitedExactly(G, visited, unsettled) && u in G
    ensures VisitedExactly(G, visited[u := true], unsettled - {u})
  {
  }

  /**
   * The body of pruned_dijkstra for a vertex u popped for the first time:
   * when the labels already answer (vk, u) with at most D[u] nothing changes;
   * otherwise L[u][vk] := D[u] and u's neighbours are relaxed.
   */
  method SettleVertex(G: Graph, ghost L: Labels, vk: int, u: int, L1: Labels, D: map<int, Dist>, pq: PriorityQueue)
    returns (L2: Labels, D2: map<int, Dist>)
    requires Undirected(G) && u in G && D.Keys == G.Keys && D[u].Fin?
    requires QueueBounded(D, pq.container) && DistSound(G, vk, D)
    requires u in L1 && OnlyHubChanged(L, L1, vk) && NewEntriesSound(G, L, L1)
    requires forall v :: v in L && v !in G ==> L1[v] == L[v]
    modifies pq
    ensures L2 == if Le(QueryDistance(L1, vk, u), D[u]) then L1 else SetLabel(L1, u, vk, D[u].n)
    ensures Le(QueryDistance(L1, vk, u), D[u]) ==> D2 == D && pq.container == old(pq.container)
    ensures D2.Keys == G.Keys
    ensures QueueBounded(D2, pq.container) && DistSound(G, vk, D2)
    ensures OnlyHubChanged(L, L2, vk) && NewEntriesSound(G, L, L2)
    ensures forall v :: v in L && v !in G ==> L2[v] == L[v]
  {
    L2, D2 := L1, D;
    if Le(QueryDistance(L1, vk, u), D[u]) {
      return;
    }
    SetLabelKeeps(G, L, L1, u, vk, D[u].n);
    L2 := SetLabel(L1, u, vk, D[u].n);
    D2 := RelaxNeighbours(G, vk, u, D, pq);
  }

  /**
   * weighted_pll: one pruned Dijkstra search per vertex, starting from empty
   * labels. Every vertex gets a label, every label holds only graph vertices,
   * and every entry is the weight of a real walk from its hub.
   */
  method WeightedPll(G: Graph) returns (L: Labels)
    requires Undirected(G)
    ensures L.Keys == G.Keys
    ensures LabelsSound(G, L)
  {
    L := map v | v in G :: map[];
    var todo := G.Keys;
    while todo != {}
      invariant L.Keys == G.Keys
      invariant LabelsSound(G, L)
      decreases todo
    {
      var v := Pick(todo);
      todo := todo - {v};
      var L0 := L;
      L := PrunedDijkstra(G, v, L);
      NewEntriesKeepSound(G, L0, L);
    }
  }

  // ---------------------------------------------------------------------
  // dijkstra(G, s): the plain search, over a graph whose vertices are 0 .. n-1.

  /** The graph's vertices are the list indices 0 .. |G|-1. */
  ghost predicate NodesAreIndices(G: Graph)
  {
    forall v :: v in G <==> 0 <= v < |G|
  }

  /** No edge can improve d: d[v] <= d[u] + w(u, v) for every edge. */
  predicate Relaxed(G: Graph, d: seq<Dist>)
  {
    forall u, v :: u in G && v in G[u] && 0 <= u < |d| && 0 <= v < |d| ==>
      Le(d[v], AddW(d[u], G[u][v]))
  }

  /** d[v] is the weight of a shortest walk from s to v, inf when there is none. */
  ghost predicate ShortestFrom(G: Graph, s: int, d: seq<Dist>)
  {
    (forall v :: 0 <= v < |d| && d[v].Fin? ==> HasWalk(G, s, v, d[v].n)) &&
    (forall p :: IsWalk(G, p) && p[0] == s && 0 <= p[|p| - 1] < |d| ==>
      Le(d[p[|p| - 1]], Fin(Weight(G, p))))
  }

  /** A relaxed assignment with d[s] <= 0 bounds every walk from s from below. */
  lemma {:induction false} RelaxedBoundsWalks(G: Graph, s: int, d: seq<Dist>, p: seq<int>)
    requires NodesAreIndices(G) && |d| == |G| && Relaxed(G, d)
    requires 0 <= s < |d| && Le(d[s], Fin(0))
    requires IsWalk(G, p) && p[0] == s
    ensures Le(d[p[|p| - 1]], Fin(Weight(G, p)))
    decreases |p|
  {
    if |p| > 1 {
      var q := p[..|p| - 1];
      assert IsWalk(G, q);
      RelaxedBoundsWalks(G, s, d, q);
      var u, v := p[|p| - 2], p[|p| - 1];
      assert u in G && v in G[u];
      assert Le(d[v], AddW(d[u], G[u][v]));
    }
  }

  /** Every queued entry is finite, names a vertex and is no better than its d. */
  predicate ListQueueBounded(d: seq<Dist>, q: seq<Entry>)
  {
    forall e :: e in q ==> 0 <= e.1 < |d| && e.0.Fin? && Le(d[e.1], e.0)
  }

  ghost predicate ListDistSound(G: Graph, s: int, d: seq<Dist>)
  {
    forall v :: 0 <= v < |d| && d[v].Fin? ==> HasWalk(G, s, v, d[v].n)
  }

  /** Each unsettled vertex with a finite distance is queued with exactly that distance. */
  predicate Pending(d: seq<Dist>, settled: set<int>, q: seq<Entry>)
  {
    forall v :: 0 <= v < |d| && v !in settled && d[v].Fin? ==> (d[v], v) in q
  }

  /** Settled distances are no larger than any queued key. */
  predicate SettledBelow(d: seq<Dist>, settled: set<int>, q: seq<Entry>)
  {
    forall x, e :: x in settled && 0 <= x < |d| && e in q ==> Le(d[x], e.0)
  }

  /** No edge out of a settled vertex can improve a distance. */
  predicate SettledRelaxed(G: Graph, d: seq<Dist>, settled: set<int>)
  {
    forall x, w :: x in settled && x in G && w in G[x] && 0 <= x < |d| && 0 <= w < |d| ==>
      Le(d[w], AddW(d[x], G[x][w]))
  }

  /**
   * Once the queue is empty, every unsettled vertex is unreachable and every
   * settled one is relaxed, so the distances are shortest.
   */
  lemma EmptyQueueShortest(G: Graph, s: int, d: seq<Dist>, settled: set<int>)
    requires NodesAreIndices(G) && |d| == |G| && 0 <= s < |d| && Le(d[s], Fin(0))
    requires ListDistSound(G, s, d) && Pending(d, settled, []) && SettledRelaxed(G, d, settled)
    ensures ShortestFrom(G, s, d)
  {
    assert Relaxed(G, d) by {
      forall u, v | u in G && v in G[u] && 0 <= u < |d| && 0 <= v < |d|
        ensures Le(d[v], AddW(d[u], G[u][v]))
      {
        if u !in settled {
          assert d[u] == Inf;
        }
      }
    }
    forall p | IsWalk(G, p) && p[0] == s && 0 <= p[|p| - 1] < |d|
      ensures Le(d[p[|p| - 1]], Fin(Weight(G, p)))
    {
      RelaxedBoundsWalks(G, s, d, p);
    }
  }

  predicate NoNegativeDistance(d: seq<Dist>)
  {
    forall v :: 0 <= v < |d| && d[v].Fin? ==> d[v].n >= 0
  }

  /** dijkstra's neighbour loop, on the list of tentative distances. */
  method DijkstraRelax(G: Graph, ghost s: int, u: int, d: seq<Dist>, pq: PriorityQueue, ghost settled: set<int>)
    returns (d': seq<Dist>)
    requires Undirected(G) && NodesAreIndices(G) && |d| == |G| && 0 <= u < |d| && d[u].Fin?
    requires u in settled
    requires ListQueueBounded(d, pq.container) && ListDistSound(G, s, d)
    requires Pending(d, settled, pq.container)
    requires NonNegative(G) ==>
      NoNegativeDistance(d) &&
      SettledBelow(d, settled, pq.container) && SettledRelaxed(G, d, settled - {u}) &&
      forall x :: x in settled && 0 <= x < |d| ==> Le(d[x], d[u])
    modifies pq
    ensures |d'| == |d| && d'[u].Fin?
    ensures ListQueueBounded(d', pq.container) && ListDistSound(G, s, d')
    ensures Pending(d', settled, pq.container)
    ensures forall v :: 0 <= v < |d| ==> Le(d'[v], d[v])
    ensures NonNegative(G) ==>
      NoNegativeDistance(d') &&
      SettledBelow(d', settled, pq.container) && SettledRelaxed(G, d', settled) &&
      forall x :: x in settled && 0 <= x < |d| ==> d'[x] == d[x]
  {
    d' := d;
    var todo := G[u].Keys;
    while todo != {}
      invariant todo <= G[u].Keys
      invariant |d'| == |d| && d'[u].Fin?
      invariant ListQueueBounded(d', pq.container) && ListDistSound(G, s, d')
      invariant Pending(d', settled, pq.container)
      invariant forall v :: 0 <= v < |d| ==> Le(d'[v], d[v])
      invariant NonNegative(G) ==>
        NoNegativeDistance(d') &&
        SettledBelow(d', settled, pq.container) && SettledRelaxed(G, d', settled - {u}) &&
        (forall x :: x in settled && 0 <= x < |d| ==> d'[x] == d[x]) &&
        forall w :: w in G[u] && w !in todo && 0 <= w < |d| ==> Le(d'[w], AddW(d'[u], G[u][w]))
      decreases todo
    {
      var v := Pick(todo);
      todo := todo - {v};
      assert v in G;
      ghost var d1, q1 := d', pq.container;
      d' := RelaxEdge(G, u, v, d', pq);
      RelaxLoopStep(G, s, u, v, d, d1, d', settled, todo, q1, pq.container);
    }
  }

  /** One neighbour v of u: lower d[v] to d[u] + w(u, v) and queue it when that is shorter. */
  method RelaxEdge(G: Graph, u: int, v: int, d1: seq<Dist>, pq: PriorityQueue) returns (d2: seq<Dist>)
    requires 0 <= u < |d1| && 0 <= v < |d1| && d1[u].Fin? && u in G && v in G[u]
    modifies pq
    ensures d2 == if Lt(Fin(d1[u].n + G[u][v]), d1[v]) then d1[v := Fin(d1[u].n + G[u][v])] else d1
    ensures forall e :: e in pq.container <==> e in old(pq.container) || (Lt(Fin(d1[u].n + G[u][v]), d1[v]) && e == (d2[v], v))
  {
    var duv := G[u][v];
    d2 := d1;
    if Lt(Fin(d1[u].n + duv), d1[v]) {
      d2 := d1[v := Fin(d1[u].n + duv)];
      pq.Push((d2[v], v));
    }
  }

  /** A turn of the neighbour loop keeps its invariant. */
  lemma RelaxLoopStep(G: Graph, s: int, u: int, v: int, d: seq<Dist>, d1: seq<Dist>, d2: seq<Dist>,
                      settled: set<int>, todo: set<int>, q1: seq<Entry>, q2: seq<Entry>)
    requires Undirected(G) && NodesAreIndices(G) && u in G && v in G[u] && v !in todo && u in settled
    requires |d1| == |d| && 0 <= u < |d| && 0 <= v < |d| && d1[u].Fin?
    requires d2 == if Lt(Fin(d1[u].n + G[u][v]), d1[v]) then d1[v := Fin(d1[u].n + G[u][v])] else d1
    requires forall e :: e in q2 <==> e in q1 || (Lt(Fin(d1[u].n + G[u][v]), d1[v]) && e == (d2[v], v))
    requires ListQueueBounded(d1, q1) && ListDistSound(G, s, d1) && Pending(d1, settled, q1)
    requires forall x :: 0 <= x < |d| ==> Le(d1[x], d[x])
    requires NonNegative(G) ==>
      (forall x :: x in settled && 0 <= x < |d| ==> Le(d[x], d[u])) &&
      NoNegativeDistance(d1) &&
      SettledBelow(d1, settled, q1) && SettledRelaxed(G, d1, settled - {u}) &&
      (forall x :: x in settled && 0 <= x < |d| ==> d1[x] == d[x]) &&
      forall w :: w in G[u] && w !in todo + {v} && 0 <= w < |d| ==> Le(d1[w], AddW(d1[u], G[u][w]))
    ensures |d2| == |d| && d2[u].Fin?
    ensures ListQueueBounded(d2, q2) && ListDistSound(G, s, d2) && Pending(d2, settled, q2)
    ensures forall x :: 0 <= x < |d| ==> Le(d2[x], d[x])
    ensures NonNegative(G) ==>
      NoNegativeDistance(d2) &&
      SettledBelow(d2, settled, q2) && SettledRelaxed(G, d2, settled - {u}) &&
      (forall x :: x in settled && 0 <= x < |d| ==> d2[x] == d[x]) &&
      forall w :: w in G[u] && w !in todo && 0 <= w < |d| ==> Le(d2[w], AddW(d2[u], G[u][w]))
  {
    var duv := G[u][v];
    LtIsNotLe(Fin(d1[u].n + duv), d1[v]);
    if Lt(Fin(d1[u].n + duv), d1[v]) {
      ExtendWalk(G, s, u, d1[u].n, v);
      RelaxStepKeeps(G, s, u, v, d1, d2, settled, q1, q2);
      if NonNegative(G) {
        NonNegativeRelaxStepKeeps(G, u, v, d, d1, d2, settled, todo, q1, q2);
      }
    } else {
      assert q2 == q1 || forall e :: e in q2 <==> e in q1;
    }
  }

  /** Lowering d[v] to d[u] + w(u, v) and queueing it keeps the search's general facts. */
  lemma RelaxStepKeeps(G: Graph, s: int, u: int, v: int, d1: seq<Dist>, d2: seq<Dist>,
                       settled: set<int>, q1: seq<Entry>, q2: seq<Entry>)
    requires 0 <= u < |d1| && 0 <= v < |d1| && d1[u].Fin? && u in G && v in G[u]
    requires d2 == d1[v := Fin(d1[u].n + G[u][v])] && Lt(d2[v], d1[v])
    requires HasWalk(G, s, v, d2[v].n)
    requires forall e :: e in q2 <==> e in q1 || e == (d2[v], v)
    requires ListQueueBounded(d1, q1) && ListDistSound(G, s, d1) && Pending(d1, settled, q1)
    ensures ListQueueBounded(d2, q2) && ListDistSound(G, s, d2) && Pending(d2, settled, q2)
  {
  }

  /** The same step on a graph without negative weights keeps the settled facts. */
  lemma NonNegativeRelaxStepKeeps(G: Graph, u: int, v: int, d: seq<Dist>, d1: seq<Dist>, d2: seq<Dist>,
                                  settled: set<int>, todo: set<int>, q1: seq<Entry>, q2: seq<Entry>)
    requires NonNegative(G) && Undirected(G) && NodesAreIndices(G) && u in G && v in G[u] && v !in todo
    requires |d| == |d1| && 0 <= u < |d1| && 0 <= v < |d1| && d1[u].Fin? && u in settled
    requires d2 == d1[v := Fin(d1[u].n + G[u][v])] && Lt(d2[v], d1[v])
    requires forall e :: e in q2 <==> e in q1 || e == (d2[v], v)
    requires forall x :: x in settled && 0 <= x < |d| ==> Le(d[x], d[u])
    requires NoNegativeDistance(d1) && SettledBelow(d1, settled, q1) && SettledRelaxed(G, d1, settled - {u})
    requires forall x :: x in settled && 0 <= x < |d| ==> d1[x] == d[x]
    requires forall w :: w in G[u] && w !in todo + {v} && 0 <= w < |d| ==> Le(d1[w], AddW(d1[u], G[u][w]))
    ensures NoNegativeDistance(d2) && SettledBelow(d2, settled, q2) && SettledRelaxed(G, d2, settled - {u})
    ensures forall x :: x in settled && 0 <= x < |d| ==> d2[x] == d[x]
    ensures forall w :: w in G[u] && w !in todo && 0 <= w < |d| ==> Le(d2[w], AddW(d2[u], G[u][w]))
  {
    assert G[u][v] >= 0;
    assert Le(d1[u], d2[v]);
    assert v !in settled;
  }

  /** Popping the smallest entry keeps the queue facts; an unsettled vertex comes out with its own distance. */
  lemma DijkstraPop(G: Graph, d: seq<Dist>, settled: set<int>, q0: seq<Entry>, q1: seq<Entry>, top: Entry)
    requires top in q0 && (forall e :: e in q0 ==> EntryLe(top, e))
    requires multiset(q1) == multiset(q0) - multiset{top} && (forall e :: e in q1 ==> e in q0)
    requires ListQueueBounded(d, q0) && Pending(d, settled, q0)
    requires NonNegative(G) ==> SettledBelow(d, settled, q0)
    ensures 0 <= top.1 < |d| && top.0.Fin?
    ensures ListQueueBounded(d, q1) && Pending(d, settled + {top.1}, q1)
    ensures NonNegative(G) ==> SettledBelow(d, settled, q1)
    ensures top.1 in settled ==> Pending(d, settled, q1)
    ensures top.1 !in settled ==> d[top.1] == top.0
  {
    var u := top.1;
    forall v | 0 <= v < |d| && v !in settled + {u} && d[v].Fin?
      ensures (d[v], v) in q1
    {
      StillQueued(q0, q1, top, (d[v], v));
    }
    if u !in settled {
      assert (d[u], u) in q0;
      assert EntryLe(top, (d[u], u));
    } else {
      assert settled + {u} == settled;
    }
  }

  /** Settling the popped vertex u gives the facts dijkstra's neighbour loop starts from. */
  lemma DijkstraSettle(G: Graph, d: seq<Dist>, settled: set<int>, q0: seq<Entry>, q1: seq<Entry>, top: Entry)
    requires NonNegative(G) && 0 <= top.1 < |d| && top.1 !in settled && d[top.1] == top.0
    requires top in q0 && (forall e :: e in q0 ==> EntryLe(top, e)) && (forall e :: e in q1 ==> e in q0)
    requires SettledBelow(d, settled, q0) && SettledRelaxed(G, d, settled)
    ensures SettledBelow(d, settled + {top.1}, q1)
    ensures SettledRelaxed(G, d, settled + {top.1} - {top.1})
    ensures forall x :: x in settled + {top.1} && 0 <= x < |d| ==> Le(d[x], d[top.1])
  {
    assert settled + {top.1} - {top.1} == settled;
  }

  /**
   * dijkstra: returns the list d with d[s] = 0 and, on a graph without
   * negative weights, d[v] the shortest distance from s to v (inf when v
   * is unreachable). Every finite d[v] is the weight of a real walk on every
   * graph.
   */

  /** Marking u visited keeps the visited flags in step with the settled set. */
  lemma VisitStep(visited: seq<bool>, settled: set<int>, u: int)
    requires 0 <= u < |visited|
    requires forall v :: 0 <= v < |visited| ==> (visited[v] <==> v in settled)
    ensures forall v :: 0 <= v < |visited| ==> (visited[u := true][v] <==> v in settled + {u})
  {
  }

  method Dijkstra(G: Graph, s: int) returns (d: seq<Dist>)
    requires Undirected(G) && NodesAreIndices(G) && s in G
    ensures |d| == |G|
    ensures forall v :: 0 <= v < |d| && d[v].Fin? ==> HasWalk(G, s, v, d[v].n)
    ensures NonNegative(G) ==> d[s] == Fin(0) && ShortestFrom(G, s, d)
  {
    var n := |G|;
    var visited := seq(n, _ => false);
    d := seq(n, _ => Inf);
    d := d[s := Fin(0)];
    TrivialWalk(G, s);
    var pq := new PriorityQueue();
    pq.Push((d[s], s));
    ghost var settled: set<int> := {};
    while pq.Size() != 0
      invariant |visited| == n && |d| == n && settled <= G.Keys
      invariant forall v :: 0 <= v < n ==> (visited[v] <==> v in settled)
      invariant ListQueueBounded(d, pq.container) && ListDistSound(G, s, d)
      invariant Pending(d, settled, pq.container)
      invariant d[s].Fin? && d[s].n <= 0
      invariant NonNegative(G) ==>
        NoNegativeDistance(d) && SettledBelow(d, settled, pq.container) && SettledRelaxed(G, d, settled)
      decreases G.Keys - settled, |pq.container|
    {
      ghost var q0 := pq.container;
      var top := pq.Pop();
      var k, u := top.value.0, top.value.1;
      DijkstraPop(G, d, settled, q0, pq.container, top.value);
      if visited[u] {
        continue;
      }
      VisitStep(visited, settled, u);
      visited := visited[u := true];
      if NonNegative(G) {
        DijkstraSettle(G, d, settled, q0, pq.container, top.value);
      }
      settled := settled + {u};
      ghost var dOld := d;
      d := DijkstraRelax(G, s, u, d, pq, settled);
      assert d[s].Fin? && d[s].n <= 0 by {
        assert Le(d[s], dOld[s]);
      }
    }
    if NonNegative(G) {
      EmptyQueueShortest(G, s, d, settled);
    }
  }
}
