// general_floyd2 of heat_degree_matrix.py: all-pairs distances by Floyd and
// Warshall's triple loop over a dictionary of dictionaries whose missing
// entries read as inf.

module Floyd {
  import opened Common
  import opened Walks

  type DistTable = map<int, map<int, Dist>>

  /** Every neighbour of a node is a node, as in any networkx graph. */
  predicate WellFormed(g: Graph)
  {
    forall u, v :: u in g && v in g[u] ==> v in g
  }

  /** The table has a row for every node and, in it, a column for every node. */
  predicate Full(g: Graph, dist: DistTable)
  {
    dist.Keys == g.Keys && forall u :: u in dist ==> dist[u].Keys == g.Keys
  }

  /** Every finite entry bounds the weight of a walk. */
  ghost predicate TableSound(g: Graph, dist: DistTable)
  {
    forall u, v :: u in dist && v in dist[u] && dist[u][v].Fin? ==> HasWalk(g, u, v, dist[u][v].n)
  }

  /** No entry exceeds 0 on the diagonal or the edge weight on an edge. */
  predicate TableBounded(g: Graph, dist: DistTable)
    requires Full(g, dist)
  {
    (forall u :: u in g ==> Le(dist[u][u], Fin(0))) &&
    (forall u, v :: u in g && v in g[u] && v in g ==> Le(dist[u][v], Fin(g[u][v])))
  }

  lemma WalkSlack(g: Graph, a: int, b: int, k: int, k': int)
    requires HasWalk(g, a, b, k) && k <= k'
    ensures HasWalk(g, a, b, k')
  {
    var p :| IsWalk(g, p) && p[0] == a && p[|p| - 1] == b && Weight(g, p) <= k;
    assert Weight(g, p) <= k';
  }

  lemma EdgeWalk(g: Graph, u: int, v: int)
    requires WellFormed(g) && u in g && v in g[u]
    ensures HasWalk(g, u, v, g[u][v])
  {
    TrivialWalk(g, u);
    ExtendWalk(g, u, u, 0, v);
  }

  /** The table with entry (u, v) replaced by d. */
  function Lower(dist: DistTable, u: int, v: int, d: Dist): DistTable
    requires u in dist
  {
    dist[u := dist[u][v := d]]
  }

  /** Lowering one entry to a walk bound keeps the table full, sound and no higher anywhere. */
  lemma LowerKeeps(g: Graph, dist: DistTable, u: int, v: int, d: Dist)
    requires Full(g, dist) && TableSound(g, dist) && u in g && v in g
    requires Le(d, dist[u][v]) && (d.Fin? ==> HasWalk(g, u, v, d.n))
    ensures Full(g, Lower(dist, u, v, d)) && TableSound(g, Lower(dist, u, v, d))
    ensures forall a, b :: a in dist && b in dist[a] ==> Le(Lower(dist, u, v, d)[a][b], dist[a][b])
  {
    LowerFull(g, dist, u, v, d);
    LowerSound(g, dist, u, v, d);
    LowerNoHigher(dist, u, v, d);
  }

  lemma LowerFull(g: Graph, dist: DistTable, u: int, v: int, d: Dist)
    requires Full(g, dist) && u in g && v in g
    ensures Full(g, Lower(dist, u, v, d))
  {
    var dist': DistTable := Lower(dist, u, v, d);
    assert dist'[u] == dist[u][v := d];
  }

  lemma LowerSound(g: Graph, dist: DistTable, u: int, v: int, d: Dist)
    requires u in dist && TableSound(g, dist) && (d.Fin? ==> HasWalk(g, u, v, d.n))
    ensures TableSound(g, Lower(dist, u, v, d))
  {
    var dist': DistTable := Lower(dist, u, v, d);
    forall a: int, b: int | a in dist' && b in dist'[a] && dist'[a][b].Fin?
      ensures HasWalk(g, a, b, dist'[a][b].n)
    {
      if a != u || b != v {
        assert dist'[a][b] == dist[a][b];
      }
    }
  }

  lemma LowerNoHigher(dist: DistTable, u: int, v: int, d: Dist)
    requires u in dist && v in dist[u] && Le(d, dist[u][v])
    ensures forall a, b :: a in dist && b in dist[a] ==> Le(Lower(dist, u, v, d)[a][b], dist[a][b])
  {
  }

  /** `dist[u][v] = min(w, dist[u][v])` for an edge (u, v) of weight w. */
  method LowerToEdge(g: Graph, dist: DistTable, u: int, v: int) returns (dist': DistTable)
    requires WellFormed(g) && u in g && v in g[u]
    requires Full(g, dist) && TableSound(g, dist)
    ensures dist' == Lower(dist, u, v, Min(Fin(g[u][v]), dist[u][v]))
    ensures Full(g, dist') && TableSound(g, dist')
  {
    var d := Min(Fin(g[u][v]), dist[u][v]);
    if Lt(Fin(g[u][v]), dist[u][v]) {
      EdgeWalk(g, u, v);
    }
    LowerKeeps(g, dist, u, v, d);
    dist' := Lower(dist, u, v, d);
  }

  /**
   * general_floyd2(G): start from 0 on the diagonal and the lighter of the
   * parallel edge weights elsewhere (both directions for an undirected
   * graph), then for every w, u, v lower dist[u][v] to dist[u][w] +
   * dist[w][v] when that is smaller. Every pair of nodes has an entry; a
   * finite one bounds a real walk; the diagonal is at most 0 and an edge
   * entry at most the edge weight.
   */
  method GeneralFloyd2(g: Graph, undirected: bool) returns (dist: DistTable)
    requires WellFormed(g)
    requires undirected ==> Undirected(g)
    ensures Full(g, dist) && TableSound(g, dist) && TableBounded(g, dist)
  {
    dist := map u | u in g :: map v | v in g :: if u == v then Fin(0) else Inf;
    forall u | u in g ensures HasWalk(g, u, u, 0) {
      TrivialWalk(g, u);
    }
    dist := LowerToEdges(g, dist, undirected);
    var ws := g.Keys;
    while ws != {}
      invariant Full(g, dist) && TableSound(g, dist) && TableBounded(g, dist)
      decreases ws
    {
      var w := Pick(ws);
      ws := ws - {w};
      dist := RelaxThrough(g, dist, w);
    }
  }

  /** Every edge in `done` has an entry no larger than its weight. */
  predicate EdgesLowered(g: Graph, dist: DistTable, done: set<(int, int)>)
  {
    forall e :: e in done ==>
      e.0 in g && e.1 in g[e.0] && e.0 in dist && e.1 in dist[e.0] && Le(dist[e.0][e.1], Fin(g[e.0][e.1]))
  }

  /** The edge loop of general_floyd2: `dist[u][v] = min(w, dist[u][v])`, and the reverse when undirected. */
  method LowerToEdges(g: Graph, dist: DistTable, undirected: bool) returns (dist': DistTable)
    requires WellFormed(g)
    requires undirected ==> Undirected(g)
    requires Full(g, dist) && TableSound(g, dist)
    requires forall u :: u in g ==> Le(dist[u][u], Fin(0))
    ensures Full(g, dist') && TableSound(g, dist') && TableBounded(g, dist')
  {
    dist' := dist;
    var edges := set u, v | u in g && v in g[u] :: (u, v);
    ghost var doneEdges: set<(int, int)> := {};
    while edges != {}
      invariant Full(g, dist') && TableSound(g, dist')
      invariant forall u :: u in g ==> Le(dist'[u][u], Fin(0))
      invariant EdgesLowered(g, dist', doneEdges)
      invariant forall u, v :: u in g && v in g[u] ==> (u, v) in edges || (u, v) in doneEdges
      decreases edges
    {
      var e := Pick(edges);
      edges := edges - {e};
      dist' := LowerEdgeStep(g, dist', e.0, e.1, undirected, doneEdges);
      doneEdges := doneEdges + {e};
    }
    forall u, v | u in g && v in g[u] && v in g ensures Le(dist'[u][v], Fin(g[u][v])) {
      assert (u, v) in doneEdges;
    }
  }

  method LowerEdgeStep(g: Graph, dist: DistTable, u: int, v: int, undirected: bool, ghost done: set<(int, int)>)
    returns (dist': DistTable)
    requires WellFormed(g) && u in g && v in g[u]
    requires undirected ==> Undirected(g)
    requires Full(g, dist) && TableSound(g, dist)
    requires forall x :: x in g ==> Le(dist[x][x], Fin(0))
    requires EdgesLowered(g, dist, done)
    ensures Full(g, dist') && TableSound(g, dist')
    ensures forall x :: x in g ==> Le(dist'[x][x], Fin(0))
    ensures EdgesLowered(g, dist', done + {(u, v)})
  {
    dist' := LowerToEdge(g, dist, u, v);
    LowerKeepsLowered(g, dist, u, v, Min(Fin(g[u][v]), dist[u][v]), done);
    if undirected {
      var mid := dist';
      dist' := LowerToEdge(g, dist', v, u);
      LowerKeepsLowered(g, mid, v, u, Min(Fin(g[v][u]), mid[v][u]), done + {(u, v)});
    }
  }

  lemma LowerKeepsLowered(g: Graph, dist: DistTable, u: int, v: int, d: Dist, done: set<(int, int)>)
    requires Full(g, dist) && u in g && v in g
    requires Le(d, dist[u][v])
    requires forall x :: x in g ==> Le(dist[x][x], Fin(0))
    requires EdgesLowered(g, dist, done)
    ensures forall x :: x in g ==> Le(Lower(dist, u, v, d)[x][x], Fin(0))
    ensures EdgesLowered(g, Lower(dist, u, v, d), done)
    ensures v in g[u] && Le(d, Fin(g[u][v])) ==> EdgesLowered(g, Lower(dist, u, v, d), done + {(u, v)})
  {
  }

  /** The two inner loops of general_floyd2 for one intermediate node w. */
  method RelaxThrough(g: Graph, dist: DistTable, w: int) returns (dist': DistTable)
    requires w in g
    requires Full(g, dist) && TableSound(g, dist) && TableBounded(g, dist)
    ensures Full(g, dist') && TableSound(g, dist') && TableBounded(g, dist')
  {
    dist' := dist;
    var us := g.Keys;
    while us != {}
      invariant Full(g, dist') && TableSound(g, dist') && TableBounded(g, dist')
      decreases us
    {
      var u := Pick(us);
      us := us - {u};
      var vs := g.Keys;
      while vs != {}
        invariant Full(g, dist') && TableSound(g, dist') && TableBounded(g, dist')
        decreases vs
      {
        var v := Pick(vs);
        vs := vs - {v};
        dist' := RelaxPair(g, dist', u, w, v);
      }
    }
  }

  /** `if dist_u[v] > dist_u[w] + dist_w[v]: dist_u[v] = dist_u[w] + dist_w[v]`. */
  method RelaxPair(g: Graph, dist: DistTable, u: int, w: int, v: int) returns (dist': DistTable)
    requires u in g && w in g && v in g
    requires Full(g, dist) && TableSound(g, dist) && TableBounded(g, dist)
    ensures Full(g, dist') && TableSound(g, dist') && TableBounded(g, dist')
    ensures Le(dist'[u][v], Add(dist[u][w], dist[w][v]))
    ensures forall a, b :: a in dist && b in dist[a] ==> Le(dist'[a][b], dist[a][b])
  {
    var d := Add(dist[u][w], dist[w][v]);
    dist' := dist;
    if Lt(d, dist[u][v]) {
      ConcatWalks(g, u, w, dist[u][w].n, v, dist[w][v].n);
      LowerKeeps(g, dist, u, v, d);
      dist' := Lower(dist, u, v, d);
      LowerKeepsBounded(g, dist, dist');
    }
  }

  lemma LowerKeepsBounded(g: Graph, dist: DistTable, dist': DistTable)
    requires Full(g, dist) && Full(g, dist') && TableBounded(g, dist)
    requires forall a, b :: a in dist && b in dist[a] ==> Le(dist'[a][b], dist[a][b])
    ensures TableBounded(g, dist')
  {
    forall u, v | u in g && v in g[u] && v in g ensures Le(dist'[u][v], Fin(g[u][v])) {
      assert Le(dist'[u][v], dist[u][v]);
    }
    forall u | u in g ensures Le(dist'[u][u], Fin(0)) {
      assert Le(dist'[u][u], dist[u][u]);
    }
  }
}
