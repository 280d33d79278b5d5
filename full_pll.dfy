// full_pll.py: a fully dynamic distance oracle over one weighted undirected
// graph. It keeps the graph, a version stamp, the labelling and a memo of
// answered queries, and repairs the labelling after every edge change.

module FullPll {
  import opened Common
  import opened Walks
  import opened PllWeighted
  import opened IncPll
  import opened DecPll

  /** `g.add_edge(u, v, weight=w)`, also `g[u][v]['weight'] = w`: both directions carry weight w. */
  function WithEdge(g: Graph, u: int, v: int, w: int): (h: Graph)
    requires u in g && v in g
    ensures h.Keys == g.Keys
    ensures v in h[u] && u in h[v] && h[u][v] == w && h[v][u] == w
    ensures forall a, b :: a in g && !((a == u && b == v) || (a == v && b == u)) ==>
      (b in h[a] <==> b in g[a]) && (b in g[a] ==> h[a][b] == g[a][b])
  {
    var g1 := g[u := g[u][v := w]];
    g1[v := g1[v][u := w]]
  }

  /** `g.remove_edge(u, v)`: neither direction remains. */
  function WithoutEdge(g: Graph, u: int, v: int): (h: Graph)
    requires u in g && v in g
    ensures h.Keys == g.Keys
    ensures v !in h[u] && u !in h[v]
    ensures forall a, b :: a in g && !((a == u && b == v) || (a == v && b == u)) ==>
      (b in h[a] <==> b in g[a]) && (b in g[a] ==> h[a][b] == g[a][b])
  {
    var g1 := g[u := g[u] - {v}];
    g1[v := g1[v] - {u}]
  }

  lemma WithEdgeUndirected(g: Graph, u: int, v: int, w: int)
    requires Undirected(g) && u in g && v in g
    ensures Undirected(WithEdge(g, u, v, w))
  {
  }

  lemma WithoutEdgeUndirected(g: Graph, u: int, v: int)
    requires Undirected(g) && u in g && v in g
    ensures Undirected(WithoutEdge(g, u, v))
  {
  }

  /** A new edge, or a lighter one, leaves every old walk in place and no heavier. */
  lemma WithEdgeCovers(g: Graph, u: int, v: int, w: int)
    requires Undirected(g) && u in g && v in g
    requires v in g[u] ==> w <= g[u][v]
    ensures Covers(WithEdge(g, u, v, w), g)
  {
  }

  lemma SoundUnderCover(h: Graph, g: Graph, L: Labels)
    requires Covers(h, g) && LabelsSound(g, L)
    ensures LabelsSound(h, L)
  {
    forall u, x | u in L && x in L[u] ensures HasWalk(h, x, u, L[u][x]) {
      CoveredWalk(h, g, x, u, L[u][x]);
    }
  }

  /** Every cached answer is the current query answer; the labelling covers the graph. */
  ghost predicate ValidState(g: Graph, labels: Labels, cache: map<(int, int), Dist>)
  {
    Undirected(g) && (forall v :: v in g ==> v in labels) && HubsLabelled(labels) &&
    forall k :: k in cache ==> cache[k] == QueryDistance(labels, k.0, k.1)
  }

  /** A repaired labelling over the same vertices with an empty memo is a valid state. */
  lemma FreshCacheValid(g: Graph, g1: Graph, labels: Labels, L1: Labels)
    requires ValidState(g, labels, map[]) && Undirected(g1) && g1.Keys == g.Keys
    requires L1.Keys == labels.Keys && HubsLabelled(L1)
    ensures ValidState(g1, L1, map[])
  {
  }

  class FullPLL {
    var g: Graph
    var stamp: int
    var labels: Labels
    var cache: map<(int, int), Dist>

    /** Every cached answer is the current query answer; the labelling covers the graph. */
    ghost predicate Valid()
      reads this
    {
      ValidState(g, labels, cache)
    }

    /** FullPLL(g): stamp 0, labels from weighted_pll, an empty memo. */
    constructor (g0: Graph)
      requires Undirected(g0)
      ensures Valid()
      ensures g == g0 && stamp == 0 && cache == map[]
      ensures labels.Keys == g0.Keys && LabelsSound(g, labels)
    {
      g := g0;
      stamp := 0;
      var L := WeightedPll(g0);
      SoundLabelsHubsLabelled(g0, L);
      labels := L;
      cache := map[];
    }

    /** __next_stamp__: a new version of the graph, so every memoised answer is dropped. */
    method NextStamp()
      modifies this
      requires Valid()
      ensures Valid()
      ensures stamp == old(stamp) + 1 && cache == map[]
      ensures g == old(g) && labels == old(labels)
    {
      stamp := stamp + 1;
      cache := map[];
    }

    /** query(u, v): the memoised answer of the labelling; a miss records it. */
    method Query(u: int, v: int) returns (d: Dist)
      modifies this
      requires Valid()
      ensures Valid()
      ensures d == QueryDistance(labels, u, v)
      ensures (u, v) in cache && cache[(u, v)] == d
      ensures cache == old(cache)[(u, v) := d]
      ensures g == old(g) && labels == old(labels) && stamp == old(stamp)
    {
      if (u, v) !in cache {
        cache := cache[(u, v) := QueryDistance(labels, u, v)];
      }
      d := cache[(u, v)];
    }

    /**
     * add_edge(u, v, val): nothing happens unless both endpoints exist and
     * are not yet adjacent; otherwise a new stamp, the new edge, and the
     * incremental repair, whose searches run for at most `fuel` pops each.
     * Sound labels stay sound.
     */
    method AddEdge(u: int, v: int, val: int, fuel: nat)
      modifies this
      requires Valid()
      ensures Valid()
      ensures (u !in old(g) || v !in old(g) || v in old(g)[u]) ==>
        g == old(g) && stamp == old(stamp) && labels == old(labels) && cache == old(cache)
      ensures (u in old(g) && v in old(g) && v !in old(g)[u]) ==>
        g == WithEdge(old(g), u, v, val) && stamp == old(stamp) + 1 && cache == map[] &&
        labels.Keys == old(labels).Keys
      ensures old(LabelsSound(g, labels)) ==> LabelsSound(g, labels)
    {
      if u !in g || v !in g {
        return;
      }
      if v in g[u] {
        return;
      }
      ghost var L0 := labels;
      NextStamp();
      LighterEdgeKeepsSound(g, labels, u, v, val);
      var g1 := WithEdge(g, u, v, val);
      var L1 := IncPllW(g1, labels, u, v, fuel);
      IncKeepsHubs(L1, L0, u, v);
      FreshCacheValid(g, g1, labels, L1);
      g, labels := g1, L1;
    }

    /**
     * remove_edge(u, v): nothing happens without the edge; otherwise a new
     * stamp, the edge is gone, and the decremental repair runs with its old
     * weight. Every entry of the result is an old one or a walk bound in the
     * new graph.
     */
    method RemoveEdge(u: int, v: int)
      modifies this
      requires Valid()
      ensures Valid()
      ensures !(u in old(g) && v in old(g)[u]) ==>
        g == old(g) && stamp == old(stamp) && labels == old(labels) && cache == old(cache)
      ensures (u in old(g) && v in old(g)[u]) ==>
        g == WithoutEdge(old(g), u, v) && stamp == old(stamp) + 1 && cache == map[] &&
        labels.Keys == old(labels).Keys
      ensures forall w, h :: w in labels && h in labels[w] ==>
        (w in old(labels) && h in old(labels)[w] && labels[w][h] == old(labels)[w][h]) || HasWalk(g, h, w, labels[w][h])
    {
      if !(u in g && v in g[u]) {
        return;
      }
      NextStamp();
      var raw := g[u][v];
      WithoutEdgeUndirected(g, u, v);
      var g1 := WithoutEdge(g, u, v);
      var L1, ax, ay := DecPllW(g1, raw, u, v, labels);
      FreshCacheValid(g, g1, labels, L1);
      g, labels := g1, L1;
    }

    /**
     * change_edge_weight(u, v, new_val): nothing happens without the edge;
     * otherwise a new stamp and the new weight, then the decremental repair
     * when the weight grew and the incremental one otherwise. A weight that
     * did not grow keeps sound labels sound.
     */
    method ChangeEdgeWeight(u: int, v: int, newVal: int, fuel: nat)
      modifies this
      requires Valid()
      ensures Valid()
      ensures !(u in old(g) && v in old(g)[u]) ==>
        g == old(g) && stamp == old(stamp) && labels == old(labels) && cache == old(cache)
      ensures (u in old(g) && v in old(g)[u]) ==>
        g == WithEdge(old(g), u, v, newVal) && stamp == old(stamp) + 1 && cache == map[] &&
        labels.Keys == old(labels).Keys
      ensures (u in old(g) && v in old(g)[u] && newVal <= old(g)[u][v] && old(LabelsSound(g, labels))) ==>
        LabelsSound(g, labels)
      ensures (u in old(g) && v in old(g)[u] && newVal > old(g)[u][v]) ==>
        forall w, h :: w in labels && h in labels[w] ==>
          (w in old(labels) && h in old(labels)[w] && labels[w][h] == old(labels)[w][h]) || HasWalk(g, h, w, labels[w][h])
    {
      if !(u in g && v in g[u]) {
        return;
      }
      NextStamp();
      var raw := g[u][v];
      ghost var L0 := labels;
      assert v in g;
      WithEdgeUndirected(g, u, v, newVal);
      var g1 := WithEdge(g, u, v, newVal);
      if newVal > raw {
        var L1, ax, ay := DecPllW(g1, raw, u, v, labels);
        FreshCacheValid(g, g1, labels, L1);
        g, labels := g1, L1;
      } else {
        LighterEdgeKeepsSound(g, labels, u, v, newVal);
        var L1 := IncPllW(g1, labels, u, v, fuel);
        IncKeepsHubs(L1, L0, u, v);
        FreshCacheValid(g, g1, labels, L1);
        g, labels := g1, L1;
      }
    }
  }

  /** Adding an edge, or making one lighter, keeps sound labels sound. */
  lemma LighterEdgeKeepsSound(g: Graph, L: Labels, u: int, v: int, w: int)
    requires Undirected(g) && u in g && v in g
    requires v in g[u] ==> w <= g[u][v]
    ensures Undirected(WithEdge(g, u, v, w))
    ensures LabelsSound(g, L) ==> LabelsSound(WithEdge(g, u, v, w), L)
  {
    WithEdgeUndirected(g, u, v, w);
    WithEdgeCovers(g, u, v, w);
    if LabelsSound(g, L) {
      SoundUnderCover(WithEdge(g, u, v, w), g, L);
    }
  }

  lemma IncKeepsHubs(L: Labels, L0: Labels, u: int, v: int)
    requires HubsLabelled(L0) && L.Keys == L0.Keys
    requires u in L0 && v in L0
    requires forall w, x :: w in L0 && x !in L0[u] && x !in L0[v] ==>
      (x in L[w] <==> x in L0[w]) && (x in L0[w] ==> L[w][x] == L0[w][x])
    ensures HubsLabelled(L)
  {
    forall w, x | w in L && x in L[w] ensures x in L {
      if x !in L0[u] && x !in L0[v] {
        assert x in L0[w];
      }
    }
  }
}
