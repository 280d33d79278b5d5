// dec_pll_weighted.py: repairing the labels after edge {x, y} was removed or
// made heavier. The vertices whose distances may have changed on either side
// (AX around x, AY around y) are collected; every label entry pairing the two
// sides is deleted; and the cleared pairs are restored by plain Dijkstra
// searches from the smaller side.

module DecPll {
  import opened Common
  import opened Walks
  import opened PriorityQueues
  import opened PllWeighted

  // ---------------------------------------------------------------------
  // affected(Gi, raw_w, L, x, y)

  /** d(u, y) == d(u, x) + raw_w under the labels: the u-y distance runs through the old edge. */
  predicate Tight(L: Labels, rawW: int, u: int, x: int, y: int)
  {
    QueryDistance(L, u, y) == AddW(QueryDistance(L, u, x), rawW)
  }

  /**
   * The test applied to an unmarked neighbour u: some common hub h of u and
   * y is already affected, or h is u or y itself and the u-y distance is tight.
   */
  predicate Qualifies(L: Labels, A: set<int>, rawW: int, u: int, x: int, y: int)
    requires u in L && y in L
  {
    (exists h :: h in FindHub(L, u, y) && h in A) || EndpointHubTight(L, rawW, u, x, y)
  }

  /** u or y is a common hub of u and y, and the u-y distance is tight: the part of the test that does not depend on A. */
  predicate EndpointHubTight(L: Labels, rawW: int, u: int, x: int, y: int)
    requires u in L && y in L
  {
    (u in FindHub(L, u, y) || y in FindHub(L, u, y)) && Tight(L, rawW, u, x, y)
  }

  /** The bookkeeping of the breadth-first search in `affected`. */
  ghost predicate SearchState(G: Graph, L: Labels, rawW: int, x: int, y: int,
                              A: set<int>, mark: map<int, bool>, que: seq<int>, marked: set<int>,
                              parent: map<int, int>)
  {
    mark.Keys == G.Keys && x in marked && marked <= G.Keys && A <= marked &&
    (forall v :: v in G ==> (mark[v] <==> v in marked)) &&
    (forall v :: v in que ==> v in marked && v !in A) &&
    (forall v :: v in marked ==> v in A || v in que) &&
    Distinct(que) &&
    (forall v :: v in marked && v != x ==> v in parent && parent[v] in A && parent[v] in G && v in G[parent[v]])
  }

  /** Unmarked neighbours of processed vertices fail the self-hub part of the test. */
  ghost predicate ClosedAt(G: Graph, L: Labels, rawW: int, x: int, y: int,
                           v: int, done: set<int>, marked: set<int>)
  {
    v in G && y in L &&
    forall u :: u in done && u in G[v] && u in L && u !in marked ==> !EndpointHubTight(L, rawW, u, x, y)
  }

  /** The inner loop of `affected`: mark and queue every unmarked neighbour of v that qualifies. */
  method MarkNeighbours(G: Graph, rawW: int, L: Labels, x: int, y: int, v: int,
                        A: set<int>, mark: map<int, bool>, que: seq<int>, ghost marked: set<int>,
                        ghost parent: map<int, int>)
    returns (mark': map<int, bool>, que': seq<int>, ghost marked': set<int>, ghost parent': map<int, int>)
    requires Undirected(G) && v in A && y in L && forall u :: u in G ==> u in L
    requires SearchState(G, L, rawW, x, y, A, mark, que, marked, parent)
    ensures SearchState(G, L, rawW, x, y, A, mark', que', marked', parent')
    ensures marked <= marked' && (marked' == marked ==> que' == que)
    ensures ClosedAt(G, L, rawW, x, y, v, G[v].Keys, marked')
  {
    mark', que', marked', parent' := mark, que, marked, parent;
    var todo := G[v].Keys;
    while todo != {}
      invariant todo <= G[v].Keys
      invariant SearchState(G, L, rawW, x, y, A, mark', que', marked', parent')
      invariant marked <= marked' && (marked' == marked ==> que' == que)
      invariant ClosedAt(G, L, rawW, x, y, v, G[v].Keys - todo, marked')
      decreases todo
    {
      var u := Pick(todo);
      ghost var done := G[v].Keys - todo;
      todo := todo - {u};
      NeighbourInGraph(G, v, u);
      if !mark'[u] && Qualifies(L, A, rawW, u, x, y) {
        MarkStep(G, L, rawW, x, y, A, mark', que', marked', parent', v, u, done);
        mark' := mark'[u := true];
        que' := que' + [u];
        marked' := marked' + {u};
        parent' := parent'[u := v];
      } else {
        ClosedStep(G, L, rawW, x, y, A, mark', marked', v, u, done);
      }
    }
  }

  lemma NeighbourInGraph(G: Graph, v: int, u: int)
    requires Undirected(G) && v in G && u in G[v]
    ensures u in G
  {
  }

  /** Marking and queueing a qualifying neighbour u of the processed vertex v keeps the bookkeeping. */
  lemma MarkStep(G: Graph, L: Labels, rawW: int, x: int, y: int, A: set<int>,
                 mark: map<int, bool>, que: seq<int>, marked: set<int>, parent: map<int, int>,
                 v: int, u: int, done: set<int>)
    requires Undirected(G) && v in A && y in L && forall w :: w in G ==> w in L
    requires SearchState(G, L, rawW, x, y, A, mark, que, marked, parent)
    requires u in G[v] && u in G && !mark[u]
    requires ClosedAt(G, L, rawW, x, y, v, done, marked)
    ensures SearchState(G, L, rawW, x, y, A, mark[u := true], que + [u], marked + {u}, parent[u := v])
    ensures ClosedAt(G, L, rawW, x, y, v, done + {u}, marked + {u})
  {
    var mark', que', marked', parent' := mark[u := true], que + [u], marked + {u}, parent[u := v];
    assert u !in marked && u !in que;
    assert forall w :: w in que' <==> w in que || w == u;
    assert Distinct(que') by {
      forall i, j | 0 <= i < j < |que'| ensures que'[i] != que'[j] {
        if j < |que| {
          assert que'[i] == que[i] && que'[j] == que[j];
        } else {
          assert que'[i] in que;
        }
      }
    }
    assert forall w :: w in G ==> (mark'[w] <==> w in marked');
    assert forall w :: w in marked' && w != x ==>
      w in parent' && parent'[w] in A && parent'[w] in G && w in G[parent'[w]];
  }
  /** A neighbour that is already marked or does not qualify now fails the self-hub test or stays marked. */
  lemma ClosedStep(G: Graph, L: Labels, rawW: int, x: int, y: int, A: set<int>,
                   mark: map<int, bool>, marked: set<int>, v: int, u: int, done: set<int>)
    requires Undirected(G) && v in G && y in L && forall w :: w in G ==> w in L
    requires u in G[v] && u in G && mark.Keys == G.Keys && (mark[u] <==> u in marked)
    requires mark[u] || !Qualifies(L, A, rawW, u, x, y)
    requires ClosedAt(G, L, rawW, x, y, v, done, marked)
    ensures ClosedAt(G, L, rawW, x, y, v, done + {u}, marked)
  {
  }

  /** Taking the head of the queue into A keeps the bookkeeping. */
  lemma PopStep(G: Graph, L: Labels, rawW: int, x: int, y: int, A: set<int>,
                mark: map<int, bool>, que: seq<int>, marked: set<int>, parent: map<int, int>)
    requires SearchState(G, L, rawW, x, y, A, mark, que, marked, parent) && |que| > 0
    ensures SearchState(G, L, rawW, x, y, A + {que[0]}, mark, que[1..], marked, parent)
  {
    var v := que[0];
    assert forall w :: w in que <==> w == v || w in que[1..];
    assert v !in que[1..] by {
      forall i | 0 <= i < |que[1..]| ensures que[1..][i] != v {
        assert que[1..][i] == que[i + 1];
      }
    }
    assert Distinct(que[1..]) by {
      forall i, j | 0 <= i < j < |que[1..]| ensures que[1..][i] != que[1..][j] {
        assert que[1..][i] == que[i + 1] && que[1..][j] == que[j + 1];
      }
    }
  }

  /** Marking more vertices keeps every processed vertex closed. */
  /** Every member of A has had all its neighbours examined against the marked set m. */
  ghost predicate AllClosed(G: Graph, L: Labels, rawW: int, x: int, y: int, A: set<int>, m: set<int>)
  {
    forall v :: v in A ==> v in G && ClosedAt(G, L, rawW, x, y, v, G[v].Keys, m)
  }

  /** Closing one more member v keeps AllClosed as the marked set grows. */
  lemma AllClosedGrow(G: Graph, L: Labels, rawW: int, x: int, y: int, A: set<int>, v: int, m1: set<int>, m2: set<int>)
    requires Undirected(G) && y in L && forall u :: u in G ==> u in L
    requires m1 <= m2 && AllClosed(G, L, rawW, x, y, A, m1)
    requires v in G && ClosedAt(G, L, rawW, x, y, v, G[v].Keys, m2)
    ensures AllClosed(G, L, rawW, x, y, A + {v}, m2)
  {
  }

  /**
   * affected(Gi, raw_w, L, x, y): breadth-first from x, a neighbour joins
   * when it qualifies at the moment it is examined; `mark` lets every vertex
   * be queued at most once. The result holds x, lies in the graph, every
   * other member is adjacent to a member, and a neighbour of a member that
   * stayed out fails the self-hub test.
   */
  method Affected(G: Graph, rawW: int, L: Labels, x: int, y: int) returns (A: set<int>)
    requires Undirected(G) && x in G && y in L
    requires forall v :: v in G ==> v in L
    ensures x in A && A <= G.Keys
    ensures forall v :: v in A && v != x ==> exists w :: w in A && w in G && v in G[w]
    ensures forall v, u :: v in A && u in G[v] && u in L && u !in A ==> !EndpointHubTight(L, rawW, u, x, y)
  {
    var mark: map<int, bool> := map v | v in G :: false;
    mark := mark[x := true];
    var que := [x];
    A := {};
    ghost var marked := {x};
    ghost var parent: map<int, int> := map[];
    AffectedStart(G, L, rawW, x, y, mark);
    while |que| > 0
      invariant SearchState(G, L, rawW, x, y, A, mark, que, marked, parent)
      invariant AllClosed(G, L, rawW, x, y, A, marked)
      decreases G.Keys - marked, |que|
    {
      var v := que[0];
      PopStep(G, L, rawW, x, y, A, mark, que, marked, parent);
      que := que[1..];
      ghost var A0, before := A, marked;
      A := A + {v};
      mark, que, marked, parent := MarkNeighbours(G, rawW, L, x, y, v, A, mark, que, marked, parent);
      AllClosedGrow(G, L, rawW, x, y, A0, v, before, marked);
      if marked != before {
        assert G.Keys - marked < G.Keys - before;
      }
    }
    AffectedFinish(G, L, rawW, x, y, A, mark, que, marked, parent);
  }

  /** The three conclusions of affected once its queue is empty. */
  lemma AffectedFinish(G: Graph, L: Labels, rawW: int, x: int, y: int, A: set<int>,
                       mark: map<int, bool>, que: seq<int>, marked: set<int>, parent: map<int, int>)
    requires Undirected(G) && y in L && forall v :: v in G ==> v in L
    requires SearchState(G, L, rawW, x, y, A, mark, que, marked, parent) && que == []
    requires AllClosed(G, L, rawW, x, y, A, marked)
    ensures x in A && A <= G.Keys
    ensures forall v :: v in A && v != x ==> exists w :: w in A && w in G && v in G[w]
    ensures forall v, u :: v in A && u in G[v] && u in L && u !in A ==> !EndpointHubTight(L, rawW, u, x, y)
  {
    AffectedEnd(G, L, rawW, x, y, A, mark, que, marked, parent);
    ParentsAdjacent(G, L, rawW, x, y, A, mark, que, marked, parent);
    ClosedAll(G, L, rawW, x, y, A);
  }

  lemma AffectedStart(G: Graph, L: Labels, rawW: int, x: int, y: int, mark: map<int, bool>)
    requires x in G && mark == (map v | v in G :: false)[x := true]
    ensures SearchState(G, L, rawW, x, y, {}, mark, [x], {x}, map[])
  {
  }

  /** When the queue is empty, the marked vertices are exactly A. */
  lemma AffectedEnd(G: Graph, L: Labels, rawW: int, x: int, y: int, A: set<int>,
                    mark: map<int, bool>, que: seq<int>, marked: set<int>, parent: map<int, int>)
    requires SearchState(G, L, rawW, x, y, A, mark, que, marked, parent) && que == []
    ensures marked == A && x in A && A <= G.Keys
  {
    forall v | v in marked ensures v in A {
      assert v in A || v in que;
    }
  }

  /** Every neighbour left outside a closed A fails the endpoint-hub test. */
  lemma ClosedAll(G: Graph, L: Labels, rawW: int, x: int, y: int, A: set<int>)
    requires AllClosed(G, L, rawW, x, y, A, A)
    requires Undirected(G) && y in L && forall v :: v in G ==> v in L
    ensures forall v, u :: v in A && u in G[v] && u in L && u !in A ==> !EndpointHubTight(L, rawW, u, x, y)
  {
    forall v, u | v in A && u in G[v] && u in L && u !in A
      ensures !EndpointHubTight(L, rawW, u, x, y)
    {
      assert ClosedAt(G, L, rawW, x, y, v, G[v].Keys, A);
    }
  }

  lemma ParentsAdjacent(G: Graph, L: Labels, rawW: int, x: int, y: int, A: set<int>,
                        mark: map<int, bool>, que: seq<int>, marked: set<int>, parent: map<int, int>)
    requires SearchState(G, L, rawW, x, y, A, mark, que, marked, parent)
    ensures forall v :: v in marked && v != x ==> exists w :: w in A && w in G && v in G[w]
  {
    forall v | v in marked && v != x ensures exists w :: w in A && w in G && v in G[w] {
      var w := parent[v];
      assert w in A && w in G && v in G[w];
    }
  }

  // ---------------------------------------------------------------------
  // remove_affected_labels(L, AX, AY)

  /** Hub x of vertex u pairs the two affected sides. */
  predicate Cross(AX: set<int>, AY: set<int>, u: int, x: int)
  {
    (u in AX && x in AY) || (u in AY && x in AX)
  }

  /** `del L[v][u]` for every v in vs and every hub u in hubs that L[v] holds. */
  method RemoveHubs(L: Labels, vs: set<int>, hubs: set<int>) returns (L': Labels)
    requires vs <= L.Keys
    ensures L'.Keys == L.Keys
    ensures forall v :: v in L && v !in vs ==> L'[v] == L[v]
    ensures forall v :: v in vs ==> L'[v].Keys == L[v].Keys - hubs
    ensures forall v, u :: v in L && u in L'[v] ==> L'[v][u] == L[v][u]
  {
    L' := L;
    var rows := vs;
    while rows != {}
      invariant rows <= vs && L'.Keys == L.Keys
      invariant forall v :: v in L && (v !in vs || v in rows) ==> L'[v] == L[v]
      invariant forall v :: v in vs - rows ==> L'[v].Keys == L[v].Keys - hubs
      invariant forall v, u :: v in L && u in L'[v] ==> L'[v][u] == L[v][u]
      decreases rows
    {
      var v := Pick(rows);
      rows := rows - {v};
      var todo := hubs;
      while todo != {}
        invariant todo <= hubs && L'.Keys == L.Keys
        invariant forall w :: w in L && w != v && (w !in vs || w in rows) ==> L'[w] == L[w]
        invariant forall w :: w in vs - rows - {v} ==> L'[w].Keys == L[w].Keys - hubs
        invariant L'[v].Keys == L[v].Keys - (hubs - todo)
        invariant forall w, u :: w in L && u in L'[w] ==> L'[w][u] == L[w][u]
        decreases todo
      {
        var u := Pick(todo);
        todo := todo - {u};
        if u in L'[v] {
          L' := L'[v := L'[v] - {u}];
        }
      }
    }
  }

  /**
   * remove_affected_labels(L, AX, AY): afterwards no vertex of one side
   * holds a hub of the other side, and every other entry is as before.
   */
  method RemoveAffectedLabels(L: Labels, AX: set<int>, AY: set<int>) returns (L': Labels)
    requires AX <= L.Keys && AY <= L.Keys
    ensures L'.Keys == L.Keys
    ensures forall v, u :: v in L && u in L'[v] ==> !Cross(AX, AY, v, u)
    ensures forall v, u :: v in L && u in L[v] && !Cross(AX, AY, v, u) ==> u in L'[v] && L'[v][u] == L[v][u]
    ensures forall v, u :: v in L && u in L'[v] ==> u in L[v] && L'[v][u] == L[v][u]
  {
    var L1 := RemoveHubs(L, AX, AY);
    L' := RemoveHubs(L1, AY, AX);
  }

  // ---------------------------------------------------------------------
  // greedy_restore(G, L, AX, AY)

  /** The side greedy_restore searches from: AY when strictly smaller, else AX. */
  function SearchSide(AX: set<int>, AY: set<int>): (s: set<int>)
    ensures s == AX || s == AY
    ensures |s| <= |AX| && |s| <= |AY|
  {
    if |AY| < |AX| then AY else AX
  }

  /** The side whose vertices are the search targets. */
  function TargetSide(AX: set<int>, AY: set<int>): (t: set<int>)
    ensures (SearchSide(AX, AY) == AX && t == AY) || (SearchSide(AX, AY) == AY && t == AX)
  {
    if |AY| < |AX| then AX else AY
  }

  /** No entry of L1 disappears in L2. */
  ghost predicate KeepsEntries(L1: Labels, L2: Labels)
  {
    L2.Keys == L1.Keys && forall u, x :: u in L1 && x in L1[u] ==> x in L2[u]
  }

  /** Every entry L2 adds or rewrites pairs the two sides and sits in the label of the larger vertex. */
  ghost predicate WritesBetween(L1: Labels, L2: Labels, S: set<int>, T: set<int>)
  {
    forall u, x :: u in L2 && x in L2[u] && NewEntry(L1, L2, u, x) ==> x <= u && Cross(S, T, u, x)
  }

  lemma WritesCompose(L1: Labels, L2: Labels, L3: Labels, S: set<int>, T: set<int>, S': set<int>)
    requires WritesBetween(L1, L2, S, T) && WritesBetween(L2, L3, S', T) && S' <= S
    requires KeepsEntries(L1, L2) && KeepsEntries(L2, L3)
    ensures WritesBetween(L1, L3, S, T) && KeepsEntries(L1, L3)
  {
    forall u, x | u in L3 && x in L3[u] && NewEntry(L1, L3, u, x)
      ensures x <= u && Cross(S, T, u, x)
    {
      if !NewEntry(L2, L3, u, x) {
        assert NewEntry(L1, L2, u, x);
      }
    }
  }

  /** The write greedy_restore makes for root a and target v: in the label of the larger one, keyed by the smaller. */
  function CrossWrite(L: Labels, a: int, v: int, d: int): Labels
    requires a in L && v in L
  {
    if v < a then SetLabel(L, a, v, d) else SetLabel(L, v, a, d)
  }

  lemma CrossWriteKeeps(G: Graph, L: Labels, L1: Labels, a: int, v: int, d: int, S: set<int>, T: set<int>)
    requires Undirected(G) && a in L1 && v in L1 && HasWalk(G, a, v, d)
    requires a in S && v in T
    requires KeepsEntries(L, L1) && WritesBetween(L, L1, S, T) && NewEntriesSound(G, L, L1)
    ensures KeepsEntries(L, CrossWrite(L1, a, v, d))
    ensures WritesBetween(L, CrossWrite(L1, a, v, d), S, T)
    ensures NewEntriesSound(G, L, CrossWrite(L1, a, v, d))
  {
    var L2 := CrossWrite(L1, a, v, d);
    if v < a {
      ReverseWalk(G, a, v, d);
    }
    assert NewEntriesSound(G, L1, L2);
    NewEntriesTransitive(G, L, L1, L2);
    assert WritesBetween(L1, L2, S, T);
    WritesCompose(L, L1, L2, S, T, S);
  }

  /** What a search from root a has done to the labels so far. */
  ghost predicate RestoreWrites(G: Graph, L: Labels, L1: Labels, a: int, T: set<int>)
  {
    KeepsEntries(L, L1) && WritesBetween(L, L1, {a}, T) && NewEntriesSound(G, L, L1)
  }

  /** One cross write of a walk weight from the root keeps RestoreWrites. */
  lemma RestoreWriteStep(G: Graph, L: Labels, L1: Labels, a: int, v: int, d: int, T: set<int>)
    requires Undirected(G) && a in L1 && v in L1 && HasWalk(G, a, v, d) && v in T
    requires RestoreWrites(G, L, L1, a, T)
    ensures RestoreWrites(G, L, CrossWrite(L1, a, v, d), a, T)
  {
    CrossWriteKeeps(G, L, L1, a, v, d, {a}, T);
  }

  /** Every vertex is a hub of its own label at distance at most 0 (pruned_dijkstra writes 0). */
  ghost predicate SelfHubbed(L: Labels)
  {
    forall u :: u in L ==> u in L[u] && L[u][u] <= 0
  }

  /** No entry that L and L1 share is larger in L1. */
  ghost predicate NoEntryGrows(L: Labels, L1: Labels)
  {
    forall u, x :: u in L && x in L[u] && u in L1 && x in L1[u] ==> L1[u][x] <= L[u][x]
  }

  /** Every entry L1 adds or rewrites beats the query of L on its pair. */
  ghost predicate WritesBeatQuery(L: Labels, L1: Labels)
  {
    forall u, x :: u in L1 && x in L1[u] && NewEntry(L, L1, u, x) ==> Lt(Fin(L1[u][x]), QueryDistance(L, u, x))
  }

  /** What the write test `dist[v] < query(L, a, v)` makes of a sequence of writes. */
  ghost predicate Lowers(L: Labels, L1: Labels)
  {
    SelfHubbed(L1) && NoEntryGrows(L, L1) && WritesBeatQuery(L, L1)
  }

  /** Labels that keep every entry and grow none answer every query at least as well. */
  lemma QueryNoHigher(L: Labels, L1: Labels, u: int, v: int)
    requires KeepsEntries(L, L1) && NoEntryGrows(L, L1)
    ensures Le(QueryDistance(L1, u, v), QueryDistance(L, u, v))
  {
    var q := QueryDistance(L, u, v);
    if q.Fin? {
      var x :| x in L[u] && x in L[v] && q.n == L[u][x] + L[v][x];
      assert x in L1[u] && x in L1[v] && L1[u][x] + L1[v][x] <= q.n;
    }
  }

  lemma LowersCompose(L: Labels, L1: Labels, L2: Labels)
    requires KeepsEntries(L, L1) && KeepsEntries(L1, L2)
    requires Lowers(L, L1) && Lowers(L1, L2)
    ensures Lowers(L, L2)
  {
    forall u, x | u in L2 && x in L2[u] && NewEntry(L, L2, u, x)
      ensures Lt(Fin(L2[u][x]), QueryDistance(L, u, x))
    {
      QueryNoHigher(L, L1, u, x);
      if !NewEntry(L1, L2, u, x) {
        assert NewEntry(L, L1, u, x);
      }
    }
  }

  /** One write that beats the current query on its pair lowers the labels. */
  lemma LowersWrite(L1: Labels, u: int, x: int, d: int)
    requires SelfHubbed(L1) && u in L1 && x in L1
    requires Lt(Fin(d), QueryDistance(L1, u, x))
    ensures KeepsEntries(L1, SetLabel(L1, u, x, d)) && Lowers(L1, SetLabel(L1, u, x, d))
  {
    var L2 := SetLabel(L1, u, x, d);
    assert x in L1[x] && L1[x][x] <= 0;
    if x in L1[u] {
      assert Le(QueryDistance(L1, u, x), Fin(L1[u][x] + L1[x][x]));
    }
    if u == x {
      assert Le(QueryDistance(L1, u, u), Fin(L1[u][u] + L1[u][u]));
    }
    assert forall w, y :: w in L2 && y in L2[w] && NewEntry(L1, L2, w, y) ==> w == u && y == x;
  }

  /** A cross write that passed the write test keeps Lowers. */
  lemma LowersStep(L: Labels, L1: Labels, a: int, v: int, d: int)
    requires KeepsEntries(L, L1) && Lowers(L, L1) && a in L1 && v in L1
    requires Lt(Fin(d), QueryDistance(L1, a, v))
    ensures Lowers(L, CrossWrite(L1, a, v, d))
  {
    var u, x := if v < a then a else v, if v < a then v else a;
    QueryDistanceSymmetric(L1, a, v);
    assert CrossWrite(L1, a, v, d) == SetLabel(L1, u, x, d);
    LowersWrite(L1, u, x, d);
    LowersCompose(L, L1, SetLabel(L1, u, x, d));
  }

  /** The work greedy_restore does for one root a: a full Dijkstra search from a. */
  method RestoreFrom(G: Graph, L: Labels, a: int, T: set<int>) returns (L': Labels)
    requires Undirected(G) && a in G
    requires forall v :: v in G ==> v in L
    ensures KeepsEntries(L, L') && WritesBetween(L, L', {a}, T) && NewEntriesSound(G, L, L')
    ensures SelfHubbed(L) ==> Lowers(L, L')
  {
    L' := L;
    var visited: map<int, bool> := map v | v in G :: false;
    var dist: map<int, Dist> := map v | v in G :: Inf;
    dist := dist[a := Fin(0)];
    TrivialWalk(G, a);
    var que := new PriorityQueue();
    que.Push((dist[a], a));
    ghost var unsettled := G.Keys;
    assert RestoreWrites(G, L, L', a, T);
    while que.Size() != 0
      invariant VisitedExactly(G, visited, unsettled) && dist.Keys == G.Keys
      invariant QueueBounded(dist, que.container) && DistSound(G, a, dist)
      invariant RestoreWrites(G, L, L', a, T) && L'.Keys == L.Keys
      invariant SelfHubbed(L) ==> Lowers(L, L')
      decreases unsettled, |que.container|
    {
      ghost var q0 := que.container;
      var top := que.Pop();
      QueueBoundedShrinks(dist, q0, que.container, top.value);
      var v := top.value.1;
      if visited[v] {
        continue;
      }
      VisitKeeps(G, visited, unsettled, v);
      visited := visited[v := true];
      unsettled := unsettled - {v};
      if v in T && Lt(dist[v], QueryDistance(L', a, v)) {
        RestoreWriteStep(G, L, L', a, v, dist[v].n, T);
        if SelfHubbed(L) {
          LowersStep(L, L', a, v, dist[v].n);
        }
        L' := CrossWrite(L', a, v, dist[v].n);
      }
      dist := RelaxNeighbours(G, a, v, dist, que);
    }
  }

  /**
   * greedy_restore(G, L, AX, AY): one search from every vertex of the
   * smaller side, writing an entry for a target of the other side when the
   * distance found beats the current query. Nothing is deleted, every entry
   * written pairs the two sides and is keyed by the smaller vertex, and
   * every entry written is the weight of a real walk.
   */
  method GreedyRestore(G: Graph, L: Labels, AX: set<int>, AY: set<int>) returns (L': Labels)
    requires Undirected(G) && AX <= G.Keys && AY <= G.Keys
    requires forall v :: v in G ==> v in L
    ensures KeepsEntries(L, L') && NewEntriesSound(G, L, L')
    ensures WritesBetween(L, L', SearchSide(AX, AY), TargetSide(AX, AY))
    ensures SelfHubbed(L) ==> Lowers(L, L')
  {
    var S, T := SearchSide(AX, AY), TargetSide(AX, AY);
    L' := L;
    var roots := S;
    while roots != {}
      invariant roots <= S
      invariant forall v :: v in G ==> v in L'
      invariant KeepsEntries(L, L') && NewEntriesSound(G, L, L') && WritesBetween(L, L', S, T)
      invariant SelfHubbed(L) ==> Lowers(L, L')
      decreases roots
    {
      var a := Pick(roots);
      roots := roots - {a};
      var L1 := RestoreFrom(G, L', a, T);
      if SelfHubbed(L) {
        LowersCompose(L, L', L1);
      }
      WritesCompose(L, L', L1, S, T, {a});
      NewEntriesTransitive(G, L, L', L1);
      L' := L1;
    }
  }

  // ---------------------------------------------------------------------
  // order_restore(G, L, AX, AY)

  /**
   * The search order_restore runs from root a over vertices numbered at least
   * a, writing L[v][a] for a cross pair (a, v) that beats the current query.
   * With `markRootFirst` the root is marked before it is popped, as the
   * source does, and the search then settles nothing at all.
   */
  method OrderRestoreFrom(G: Graph, L: Labels, a: int, AX: set<int>, AY: set<int>, markRootFirst: bool)
    returns (L': Labels)
    requires Undirected(G) && a in G
    requires forall v :: v in G ==> v in L
    ensures KeepsEntries(L, L') && WritesBetween(L, L', AX, AY) && NewEntriesSound(G, L, L')
    ensures OnlyHubChanged(L, L', a)
    ensures markRootFirst ==> L' == L
  {
    L' := L;
    var mark: map<int, bool> := map v | v in G :: false;
    var dist: map<int, Dist> := map v | v in G :: Inf;
    var que := new PriorityQueue();
    que.Push((Fin(0), a));
    dist := dist[a := Fin(0)];
    if markRootFirst {
      mark := mark[a := true];
    }
    TrivialWalk(G, a);
    ghost var unsettled := if markRootFirst then G.Keys - {a} else G.Keys;
    while que.Size() != 0
      invariant mark.Keys == G.Keys && dist.Keys == G.Keys && unsettled <= G.Keys
      invariant forall v :: v in G ==> (mark[v] <==> v !in unsettled)
      invariant QueueBounded(dist, que.container) && DistSound(G, a, dist)
      invariant OrderLabelsInv(G, L, L', a, AX, AY)
      invariant markRootFirst ==> L' == L && mark[a] && forall e :: e in que.container ==> e.1 == a
      decreases unsettled, |que.container|
    {
      ghost var u0, n0 := unsettled, |que.container|;
      L', mark, dist, unsettled := OrderRestoreStep(G, L, L', a, AX, AY, markRootFirst, mark, dist, que, unsettled);
      assert unsettled < u0 || (unsettled == u0 && |que.container| < n0);
    }
  }

  /** The label facts the order_restore search keeps. */
  ghost predicate OrderLabelsInv(G: Graph, L: Labels, L': Labels, a: int, AX: set<int>, AY: set<int>)
  {
    KeepsEntries(L, L') && WritesBetween(L, L', AX, AY) && NewEntriesSound(G, L, L') && OnlyHubChanged(L, L', a)
  }

  /** One pop of the order_restore search from root a. */
  method OrderRestoreStep(G: Graph, L: Labels, L1: Labels, a: int, AX: set<int>, AY: set<int>, markRootFirst: bool,
                          mark: map<int, bool>, dist: map<int, Dist>, que: PriorityQueue, ghost unsettled: set<int>)
    returns (L2: Labels, mark': map<int, bool>, dist': map<int, Dist>, ghost unsettled': set<int>)
    modifies que
    requires Undirected(G) && a in G && forall v :: v in G ==> v in L
    requires que.container != []
    requires mark.Keys == G.Keys && dist.Keys == G.Keys && unsettled <= G.Keys
    requires forall v :: v in G ==> (mark[v] <==> v !in unsettled)
    requires QueueBounded(dist, que.container) && DistSound(G, a, dist)
    requires OrderLabelsInv(G, L, L1, a, AX, AY)
    requires markRootFirst ==> L1 == L && mark[a] && forall e :: e in que.container ==> e.1 == a
    ensures mark'.Keys == G.Keys && dist'.Keys == G.Keys && unsettled' <= G.Keys
    ensures forall v :: v in G ==> (mark'[v] <==> v !in unsettled')
    ensures QueueBounded(dist', que.container) && DistSound(G, a, dist')
    ensures OrderLabelsInv(G, L, L2, a, AX, AY)
    ensures markRootFirst ==> L2 == L && mark'[a] && forall e :: e in que.container ==> e.1 == a
    ensures unsettled' < unsettled || (unsettled' == unsettled && |que.container| < |old(que.container)|)
  {
    L2, mark', dist', unsettled' := L1, mark, dist, unsettled;
    ghost var q0 := que.container;
    var top := que.Pop();
    var v := top.value.1;
    assert top.value in q0;
    if v < a || mark[v] {
      return;
    }
    assert !markRootFirst;
    mark' := mark[v := true];
    unsettled' := unsettled - {v};
    if ((a in AX && v in AY) || (a in AY && v in AX)) && Lt(dist[v], QueryDistance(L1, a, v)) {
      OrderWriteKeeps(G, L, L1, a, v, dist[v].n, AX, AY);
      L2 := SetLabel(L1, v, a, dist[v].n);
    }
    dist' := RelaxNeighbours(G, a, v, dist, que);
  }

  lemma OrderWriteKeeps(G: Graph, L: Labels, L1: Labels, a: int, v: int, d: int, AX: set<int>, AY: set<int>)
    requires v in L1 && a <= v && HasWalk(G, a, v, d) && Cross(AX, AY, v, a)
    requires KeepsEntries(L, L1) && WritesBetween(L, L1, AX, AY) && NewEntriesSound(G, L, L1)
    requires OnlyHubChanged(L, L1, a)
    ensures KeepsEntries(L, SetLabel(L1, v, a, d)) && WritesBetween(L, SetLabel(L1, v, a, d), AX, AY)
    ensures NewEntriesSound(G, L, SetLabel(L1, v, a, d)) && OnlyHubChanged(L, SetLabel(L1, v, a, d), a)
  {
    var L2 := SetLabel(L1, v, a, d);
    assert NewEntriesSound(G, L1, L2);
    NewEntriesTransitive(G, L, L1, L2);
    assert WritesBetween(L1, L2, AX, AY);
    WritesCompose(L, L1, L2, AX, AY, AX);
  }

  /** order_restore with the root search as in `OrderRestoreFrom`, roots in increasing order. */
  method OrderRestoreSearch(G: Graph, L: Labels, AX: set<int>, AY: set<int>, markRootFirst: bool)
    returns (L': Labels)
    requires Undirected(G) && AX <= G.Keys && AY <= G.Keys
    requires forall v :: v in G ==> v in L
    ensures KeepsEntries(L, L') && WritesBetween(L, L', AX, AY) && NewEntriesSound(G, L, L')
    ensures markRootFirst ==> L' == L
  {
    var roots := SortedSet(AX + AY);
    L' := L;
    for i := 0 to |roots|
      invariant forall v :: v in G ==> v in L'
      invariant KeepsEntries(L, L') && WritesBetween(L, L', AX, AY) && NewEntriesSound(G, L, L')
      invariant markRootFirst ==> L' == L
    {
      var a := roots[i];
      assert a in roots;
      var L1 := OrderRestoreFrom(G, L', a, AX, AY, markRootFirst);
      WritesCompose(L, L', L1, AX, AY, AX);
      NewEntriesTransitive(G, L, L', L1);
      L' := L1;
    }
  }

  /**
   * order_restore(G, L, AX, AY) as written: every root is marked before its
   * own entry is popped, so each search stops at once and the labels come
   * back unchanged.
   */
  method OrderRestore(G: Graph, L: Labels, AX: set<int>, AY: set<int>) returns (L': Labels)
    requires Undirected(G) && AX <= G.Keys && AY <= G.Keys
    requires forall v :: v in G ==> v in L
    ensures L' == L
  {
    L' := OrderRestoreSearch(G, L, AX, AY, true);
  }

  /**
   * order_restore as intended: the root is marked when it is popped, so
   * each search settles the vertices numbered at least the root. Nothing is
   * deleted, only cross pairs are written, keyed by the smaller vertex, and
   * every entry written is the weight of a real walk.
   */
  method OrderRestoreIntended(G: Graph, L: Labels, AX: set<int>, AY: set<int>) returns (L': Labels)
    requires Undirected(G) && AX <= G.Keys && AY <= G.Keys
    requires forall v :: v in G ==> v in L
    ensures KeepsEntries(L, L') && WritesBetween(L, L', AX, AY) && NewEntriesSound(G, L, L')
  {
    L' := OrderRestoreSearch(G, L, AX, AY, false);
  }

  // ---------------------------------------------------------------------
  // dec_pll_w(g, raw_w, x, y, l0)

  /**
   * dec_pll_w: AX from x and AY from y on the old labels, clear the cross
   * entries, restore greedily. The affected sets are also returned. Entries
   * not pairing the two sides are exactly kept; every cross entry of the
   * result was written by the restoration, so it is a walk bound in the new
   * graph and sits in the label of the larger vertex.
   */
  method DecPllW(G: Graph, rawW: int, x: int, y: int, L: Labels) returns (L': Labels, AX: set<int>, AY: set<int>)
    requires Undirected(G) && x in G && y in G
    requires forall v :: v in G ==> v in L
    ensures x in AX && y in AY && AX <= G.Keys && AY <= G.Keys
    ensures L'.Keys == L.Keys
    ensures forall u, h :: u in L && h in L[u] && !Cross(AX, AY, u, h) ==> h in L'[u] && L'[u][h] == L[u][h]
    ensures forall u, h :: u in L && h in L'[u] && !Cross(AX, AY, u, h) ==> h in L[u] && L'[u][h] == L[u][h]
    ensures forall u, h :: u in L && h in L'[u] && Cross(AX, AY, u, h) ==> h <= u && HasWalk(G, h, u, L'[u][h])
    ensures (forall u, h :: u in L && h in L[u] && !Cross(AX, AY, u, h) ==> HasWalk(G, h, u, L[u][h])) ==>
      LabelsSound(G, L')
    ensures HubsLabelled(L) ==> HubsLabelled(L')
  {
    AX := Affected(G, rawW, L, x, y);
    AY := Affected(G, rawW, L, y, x);
    var L1 := RemoveAffectedLabels(L, AX, AY);
    L' := GreedyRestore(G, L1, AX, AY);
    DecResult(G, L, L1, L', AX, AY);
    if HubsLabelled(L) {
      forall u, h | u in L' && h in L'[u] ensures h in L' {
        if !Cross(AX, AY, u, h) {
          assert h in L[u];
        }
      }
    }
  }

  lemma CrossSides(AX: set<int>, AY: set<int>, u: int, h: int)
    ensures Cross(SearchSide(AX, AY), TargetSide(AX, AY), u, h) <==> Cross(AX, AY, u, h)
  {
  }

  lemma DecResult(G: Graph, L: Labels, L1: Labels, L2: Labels, AX: set<int>, AY: set<int>)
    requires L1.Keys == L.Keys
    requires forall v, u :: v in L && u in L1[v] ==> !Cross(AX, AY, v, u)
    requires forall v, u :: v in L && u in L[v] && !Cross(AX, AY, v, u) ==> u in L1[v] && L1[v][u] == L[v][u]
    requires forall v, u :: v in L && u in L1[v] ==> u in L[v] && L1[v][u] == L[v][u]
    requires KeepsEntries(L1, L2) && NewEntriesSound(G, L1, L2)
    requires WritesBetween(L1, L2, SearchSide(AX, AY), TargetSide(AX, AY))
    ensures L2.Keys == L.Keys
    ensures forall u, h :: u in L && h in L[u] && !Cross(AX, AY, u, h) ==> h in L2[u] && L2[u][h] == L[u][h]
    ensures forall u, h :: u in L && h in L2[u] && !Cross(AX, AY, u, h) ==> h in L[u] && L2[u][h] == L[u][h]
    ensures forall u, h :: u in L && h in L2[u] && Cross(AX, AY, u, h) ==> h <= u && HasWalk(G, h, u, L2[u][h])
    ensures (forall u, h :: u in L && h in L[u] && !Cross(AX, AY, u, h) ==> HasWalk(G, h, u, L[u][h])) ==>
      LabelsSound(G, L2)
  {
    var S, T := SearchSide(AX, AY), TargetSide(AX, AY);
    forall u, h | u in L && h in L2[u]
      ensures !Cross(AX, AY, u, h) ==> h in L[u] && L2[u][h] == L[u][h]
      ensures Cross(AX, AY, u, h) ==> h <= u && HasWalk(G, h, u, L2[u][h])
    {
      if NewEntry(L1, L2, u, h) {
        assert h <= u && Cross(S, T, u, h);
      } else {
        assert !Cross(AX, AY, u, h);
      }
    }
    forall u, h | u in L && h in L[u] && !Cross(AX, AY, u, h)
      ensures h in L2[u] && L2[u][h] == L[u][h]
    {
      CrossSides(AX, AY, u, h);
      assert h in L1[u] && h in L2[u];
      assert !NewEntry(L1, L2, u, h);
    }
  }
}
