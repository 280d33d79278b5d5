// relavence_matrix.py: the Kou-Markowsky-Berman Steiner tree heuristic.
// Shortest paths, minimum spanning trees and the recovery of the tree from
// paths are library calls; modelled here are the edge-weight lookup, the
// complete terminal graph G1 of step 1 and the leaf pruning of step 5.

module Kmb {
  import opened Common
  import opened Walks

  type Attrs = map<string, int>

  /** A networkx graph with edge attribute dictionaries. */
  type AttrGraph = map<int, map<int, Attrs>>

  /** The `weight` argument: a callable, or the name of an edge attribute. */
  datatype WeightSpec = ByFunction(f: (int, int, Attrs) -> int) | ByName(name: string)

  /**
   * weight_function(G, u, v, weight): call `weight(u, v, G[u][v])` when it is
   * callable, otherwise read the named attribute; a missing attribute is a
   * KeyError, modelled as None.
   */
  function WeightFunction(G: AttrGraph, u: int, v: int, weight: WeightSpec): (r: Option<int>)
    requires u in G && v in G[u]
    ensures weight.ByFunction? ==> r == Some(weight.f(u, v, G[u][v]))
    ensures weight.ByName? ==> (r.Some? <==> weight.name in G[u][v])
    ensures weight.ByName? && r.Some? ==> r.value == G[u][v][weight.name]
  {
    match weight
    case ByFunction(f) => Some(f(u, v, G[u][v]))
    case ByName(name) => if name in G[u][v] then Some(G[u][v][name]) else None
  }

  /** Naming an attribute is the same as passing the callable that reads it. */
  lemma ByNameIsReader(G: AttrGraph, u: int, v: int, name: string)
    requires u in G && v in G[u] && name in G[u][v]
    ensures WeightFunction(G, u, v, ByName(name)) ==
      WeightFunction(G, u, v, ByFunction((a: int, b: int, d: Attrs) => if name in d then d[name] else 0))
  {
  }

  // ---------------------------------------------------------------------
  // Step 1: the complete graph on the terminals

  /** Terminals i < j of the list are the ends u and v, in either order. */
  predicate PairAt(ts: seq<int>, i: int, j: int, u: int, v: int)
  {
    0 <= i < j < |ts| && ((ts[i], ts[j]) == (u, v) || (ts[j], ts[i]) == (u, v))
  }

  /** `G1.add_edge(a, b, weight=w)` on an undirected graph. */
  function AddEdge(g: Graph, a: int, b: int, w: int): (h: Graph)
    ensures h.Keys == g.Keys + {a, b}
    ensures b in h[a] && a in h[b] && h[a][b] == w && h[b][a] == w
    ensures forall x, y :: x in g && y in g[x] && !((x, y) == (a, b) || (x, y) == (b, a)) ==>
      y in h[x] && h[x][y] == g[x][y]
    ensures forall x, y :: x in h && y in h[x] && !((x, y) == (a, b) || (x, y) == (b, a)) ==>
      x in g && y in g[x]
  {
    var g1 := g[a := (if a in g then g[a] else map[])[b := w]];
    g1[b := (if b in g1 then g1[b] else map[])[a := w]]
  }

  /** Pair (a, b) comes no later than pair (i, j) in the order of the two loops. */
  predicate NoLater(a: int, b: int, i: int, j: int)
  {
    a < i || (a == i && b <= j)
  }

  /** (i, j) is the last pair of terminal positions, in loop order, whose terminals are u and v. */
  ghost predicate LastPair(ts: seq<int>, i: int, j: int, u: int, v: int)
  {
    PairAt(ts, i, j, u, v) && forall a, b :: PairAt(ts, a, b, u, v) ==> NoLater(a, b, i, j)
  }

  /**
   * Step 1 of KMB: for terminals i < j, an edge {t_i, t_j} of G1 weighing
   * the shortest-path distance; `dist` stands for the distances that
   * single_source_dijkstra returns. G1 is undirected and holds exactly the
   * edges between listed terminals; each edge weighs the distance of the last
   * pair that wrote it, which for distinct terminals is its only pair.
   */
  method BuildG1(ts: seq<int>, dist: (int, int) -> int) returns (g1: Graph)
    ensures Undirected(g1)
    ensures forall i, j :: 0 <= i < j < |ts| ==> PairEdge(ts, dist, g1, i, j)
    ensures forall u, v :: u in g1 && v in g1[u] ==>
      exists i, j :: LastPair(ts, i, j, u, v) && g1[u][v] == dist(ts[i], ts[j])
  {
    g1 := map[];
    ghost var wit: map<(int, int), (int, int)> := map[];
    for i := 0 to |ts|
      invariant Undirected(g1) && Covered(ts, dist, g1, i, i + 1) && Witnessed(ts, dist, g1, wit, i, i + 1)
    {
      for j := i + 1 to |ts|
        invariant Undirected(g1) && Covered(ts, dist, g1, i, j) && Witnessed(ts, dist, g1, wit, i, j)
      {
        g1, wit := AddPairStep(ts, dist, g1, wit, i, j);
      }
      CoveredNext(ts, dist, g1, i);
      WitnessedNext(ts, dist, g1, wit, i);
    }
    forall u, v | u in g1 && v in g1[u]
      ensures exists i, j :: LastPair(ts, i, j, u, v) && g1[u][v] == dist(ts[i], ts[j])
    {
      var p := wit[(u, v)];
      assert WitnessOf(ts, dist, g1, p, u, v, |ts|, |ts| + 1);
      assert LastPair(ts, p.0, p.1, u, v);
    }
  }

  /**
   * Every pair a < b that the loops have done before pair (i, j) has its edge
   * in g1, weighing its distance when the terminals are distinct.
   */
  ghost predicate Covered(ts: seq<int>, dist: (int, int) -> int, g1: Graph, i: int, j: int)
  {
    forall a, b :: 0 <= a < b < |ts| && (a < i || (a == i && b < j)) ==> PairEdge(ts, dist, g1, a, b)
  }

  /** The pair a < b has its edge in g1, weighing its distance when the terminals are distinct. */
  predicate PairEdge(ts: seq<int>, dist: (int, int) -> int, g1: Graph, a: int, b: int)
  {
    0 <= a < b < |ts| && ts[a] in g1 && ts[b] in g1[ts[a]] &&
    (Distinct(ts) ==> g1[ts[a]][ts[b]] == dist(ts[a], ts[b]))
  }

  /**
   * The edge u-v of g1 was written by pair p, weighs p's distance, and p is
   * the latest of its pairs that the loops have done before pair (i, j).
   */
  ghost predicate WitnessOf(ts: seq<int>, dist: (int, int) -> int, g1: Graph, p: (int, int), u: int, v: int, i: int, j: int)
  {
    u in g1 && v in g1[u] && PairAt(ts, p.0, p.1, u, v) && g1[u][v] == dist(ts[p.0], ts[p.1]) &&
    forall a, b :: PairAt(ts, a, b, u, v) && (a < i || (a == i && b < j)) ==> NoLater(a, b, p.0, p.1)
  }

  /** Every edge of g1 has its writing pair in `wit`. */
  ghost predicate Witnessed(ts: seq<int>, dist: (int, int) -> int, g1: Graph, wit: map<(int, int), (int, int)>, i: int, j: int)
  {
    forall u, v :: u in g1 && v in g1[u] ==> (u, v) in wit && WitnessOf(ts, dist, g1, wit[(u, v)], u, v, i, j)
  }

  lemma CoveredNext(ts: seq<int>, dist: (int, int) -> int, g1: Graph, i: int)
    requires Covered(ts, dist, g1, i, |ts|)
    ensures Covered(ts, dist, g1, i + 1, i + 2)
  {
    forall a, b | 0 <= a < b < |ts| && (a < i + 1 || (a == i + 1 && b < i + 2))
      ensures PairEdge(ts, dist, g1, a, b)
    {
      assert a < i || (a == i && b < |ts|);
    }
  }

  lemma WitnessedNext(ts: seq<int>, dist: (int, int) -> int, g1: Graph, wit: map<(int, int), (int, int)>, i: int)
    requires Witnessed(ts, dist, g1, wit, i, |ts|)
    ensures Witnessed(ts, dist, g1, wit, i + 1, i + 2)
  {
    forall u, v | u in g1 && v in g1[u] ensures WitnessOf(ts, dist, g1, wit[(u, v)], u, v, i + 1, i + 2) {
      var p := wit[(u, v)];
      assert WitnessOf(ts, dist, g1, p, u, v, i, |ts|);
      forall a, b | PairAt(ts, a, b, u, v) && (a < i + 1 || (a == i + 1 && b < i + 2))
        ensures NoLater(a, b, p.0, p.1)
      {
        assert a < i || (a == i && b < |ts|);
      }
    }
  }

  /** `G1.add_edge(t_i, t_j, weight=dist)` for one pair. */
  method AddPairStep(ts: seq<int>, dist: (int, int) -> int, g1: Graph, ghost wit: map<(int, int), (int, int)>, i: int, j: int)
    returns (g1': Graph, ghost wit': map<(int, int), (int, int)>)
    requires 0 <= i < j < |ts|
    requires Undirected(g1) && Covered(ts, dist, g1, i, j) && Witnessed(ts, dist, g1, wit, i, j)
    ensures g1' == AddEdge(g1, ts[i], ts[j], dist(ts[i], ts[j]))
    ensures Undirected(g1') && Covered(ts, dist, g1', i, j + 1) && Witnessed(ts, dist, g1', wit', i, j + 1)
  {
    var u, v := ts[i], ts[j];
    g1' := AddEdge(g1, u, v, dist(u, v));
    wit' := wit[(u, v) := (i, j)][(v, u) := (i, j)];
    CoveredAdd(ts, dist, g1, i, j);
    WitnessedAdd(ts, dist, g1, wit, i, j);
  }

  lemma CoveredAdd(ts: seq<int>, dist: (int, int) -> int, g1: Graph, i: int, j: int)
    requires 0 <= i < j < |ts| && Covered(ts, dist, g1, i, j)
    ensures Covered(ts, dist, AddEdge(g1, ts[i], ts[j], dist(ts[i], ts[j])), i, j + 1)
  {
    var u, v := ts[i], ts[j];
    var g1' := AddEdge(g1, u, v, dist(u, v));
    forall a, b | 0 <= a < b < |ts| && (a < i || (a == i && b < j + 1))
      ensures PairEdge(ts, dist, g1', a, b)
    {
      if (a, b) != (i, j) {
        assert PairEdge(ts, dist, g1, a, b);
        if Distinct(ts) {
          assert (ts[a], ts[b]) != (u, v) && (ts[a], ts[b]) != (v, u);
        }
      }
    }
  }

  lemma WitnessedAdd(ts: seq<int>, dist: (int, int) -> int, g1: Graph, wit: map<(int, int), (int, int)>, i: int, j: int)
    requires 0 <= i < j < |ts| && Undirected(g1) && Witnessed(ts, dist, g1, wit, i, j)
    ensures var u, v := ts[i], ts[j];
      Undirected(AddEdge(g1, u, v, dist(u, v))) &&
      Witnessed(ts, dist, AddEdge(g1, u, v, dist(u, v)), wit[(u, v) := (i, j)][(v, u) := (i, j)], i, j + 1)
  {
    var u, v := ts[i], ts[j];
    var g1' := AddEdge(g1, u, v, dist(u, v));
    var wit' := wit[(u, v) := (i, j)][(v, u) := (i, j)];
    forall x, y | x in g1' && y in g1'[x] ensures (x, y) in wit' && WitnessOf(ts, dist, g1', wit'[(x, y)], x, y, i, j + 1) {
      if (x, y) == (u, v) || (x, y) == (v, u) {
        assert wit'[(x, y)] == (i, j);
        WitnessNew(ts, dist, g1, i, j, x, y);
      } else {
        assert wit'[(x, y)] == wit[(x, y)];
        WitnessKept(ts, dist, g1, wit[(x, y)], i, j, x, y);
      }
    }
  }

  /** The pair just added is the witness of its own edge. */
  lemma WitnessNew(ts: seq<int>, dist: (int, int) -> int, g1: Graph, i: int, j: int, x: int, y: int)
    requires 0 <= i < j < |ts| && ((x, y) == (ts[i], ts[j]) || (x, y) == (ts[j], ts[i]))
    ensures WitnessOf(ts, dist, AddEdge(g1, ts[i], ts[j], dist(ts[i], ts[j])), (i, j), x, y, i, j + 1)
  {
  }

  /** Adding another pair's edge keeps the witness of an edge it does not touch. */
  lemma WitnessKept(ts: seq<int>, dist: (int, int) -> int, g1: Graph, p: (int, int), i: int, j: int, x: int, y: int)
    requires 0 <= i < j < |ts| && WitnessOf(ts, dist, g1, p, x, y, i, j)
    requires (x, y) != (ts[i], ts[j]) && (x, y) != (ts[j], ts[i])
    ensures WitnessOf(ts, dist, AddEdge(g1, ts[i], ts[j], dist(ts[i], ts[j])), p, x, y, i, j + 1)
  {
    forall a, b | PairAt(ts, a, b, x, y) && (a < i || (a == i && b < j + 1))
      ensures NoLater(a, b, p.0, p.1)
    {
      assert (a, b) != (i, j);
    }
  }

  // ---------------------------------------------------------------------
  // Step 5: pruning leaves that are not terminals

  /** `Graph.degree(n)`: a self-loop counts twice. */
  function Degree(t: Adj, n: int): nat
    requires n in t
  {
    |t[n]| + (if n in t[n] then 1 else 0)
  }

  /** `Graph.remove_node(n)`. */
  function RemoveNode(t: Adj, n: int): Adj
  {
    map m | m in t.Keys - {n} :: t[m] - {n}
  }

  lemma RemoveNodeShrinks(t: Adj, n: int)
    requires n in t
    ensures |RemoveNode(t, n).Keys| < |t.Keys|
  {
    assert RemoveNode(t, n).Keys == t.Keys - {n};
  }

  /** Step 5.1: the nodes of degree 1 that are not terminals. */
  function Leaves(t: Adj, target: set<int>): (ls: set<int>)
    ensures forall n :: n in ls <==> n in t && Degree(t, n) == 1 && n !in target
  {
    (set n | n in t && Degree(t, n) == 1) - target
  }

  /** A walk of step 5.2 ends with the pruned graph, or with networkx's error for a node already gone. */
  datatype Walked = Walked(t: Adj) | NodeGone

  /**
   * One walk of step 5.2 as written: from `next`, remove the node and move on
   * to its neighbour when it had exactly one; `while _next` also stops at
   * node 0. The node reached is removed whatever it is.
   */
  function WalkAsWritten(t: Adj, next: int): (r: Walked)
    decreases |t.Keys|
  {
    if next == 0 then Walked(t)
    else if next !in t then NodeGone
    else
      var nb := t[next];
      RemoveNodeShrinks(t, next);
      if |nb| == 1 then WalkAsWritten(RemoveNode(t, next), SetMin(nb))
      else Walked(RemoveNode(t, next))
  }

  /**
   * The walk as intended by "remove any leaf that is not a terminal": stop,
   * keeping the node, at node 0, at a node no longer there, at a terminal,
   * or at a node that still has two or more neighbours.
   */
  function WalkIntended(t: Adj, next: int, target: set<int>): (r: Walked)
    ensures r.Walked?
    decreases |t.Keys|
  {
    if next == 0 || next !in t || next in target || Degree(t, next) > 1 then Walked(t)
    else
      var nb := t[next];
      RemoveNodeShrinks(t, next);
      if |nb| == 1 then WalkIntended(RemoveNode(t, next), SetMin(nb), target)
      else Walked(RemoveNode(t, next))
  }

  /** Step 5.2 over the leaves in the order given. */
  function PruneAll(t: Adj, leaves: seq<int>, target: set<int>, intended: bool): (r: Walked)
    decreases |leaves|
  {
    if leaves == [] then Walked(t)
    else
      var w := if intended then WalkIntended(t, leaves[0], target) else WalkAsWritten(t, leaves[0]);
      if w.NodeGone? then NodeGone else PruneAll(w.t, leaves[1..], target, intended)
  }

  /** `t'` is t with some nodes removed, each with every edge at it. */
  predicate RemovedOnly(t: Adj, t': Adj)
  {
    t'.Keys <= t.Keys && forall m :: m in t' ==> t'[m] == t[m] - (t.Keys - t'.Keys)
  }

  lemma RemovedOnlyTrans(t1: Adj, t2: Adj, t3: Adj)
    requires RemovedOnly(t1, t2) && RemovedOnly(t2, t3)
    ensures RemovedOnly(t1, t3)
  {
    forall m | m in t3 ensures t3[m] == t1[m] - (t1.Keys - t3.Keys) {
      assert t1.Keys - t3.Keys == (t1.Keys - t2.Keys) + (t2.Keys - t3.Keys);
    }
  }

  lemma RemoveNodeRemovesOnly(t: Adj, n: int)
    requires n in t
    ensures RemovedOnly(t, RemoveNode(t, n))
  {
    assert t.Keys - RemoveNode(t, n).Keys == {n};
  }

  /** The intended walk removes nodes only, and never a terminal. */
  lemma {:induction false} WalkIntendedKeepsTerminals(t: Adj, next: int, target: set<int>)
    ensures RemovedOnly(t, WalkIntended(t, next, target).t)
    ensures forall x :: x in t && x in target ==> x in WalkIntended(t, next, target).t
    decreases |t.Keys|
  {
    if !(next == 0 || next !in t || next in target || Degree(t, next) > 1) {
      var nb := t[next];
      var t1 := RemoveNode(t, next);
      RemoveNodeShrinks(t, next);
      RemoveNodeRemovesOnly(t, next);
      if |nb| == 1 {
        WalkIntendedKeepsTerminals(t1, SetMin(nb), target);
        RemovedOnlyTrans(t, t1, WalkIntended(t1, SetMin(nb), target).t);
      }
    }
  }

  /** Step 5 as intended keeps every terminal and removes whole nodes only. */
  lemma {:induction false} PruneIntendedKeepsTerminals(t: Adj, leaves: seq<int>, target: set<int>)
    ensures PruneAll(t, leaves, target, true).Walked?
    ensures RemovedOnly(t, PruneAll(t, leaves, target, true).t)
    ensures forall x :: x in t && x in target ==> x in PruneAll(t, leaves, target, true).t
    decreases |leaves|
  {
    if leaves != [] {
      var w := WalkIntended(t, leaves[0], target);
      WalkIntendedKeepsTerminals(t, leaves[0], target);
      PruneIntendedKeepsTerminals(w.t, leaves[1..], target);
      RemovedOnlyTrans(t, w.t, PruneAll(w.t, leaves[1..], target, true).t);
    }
  }

  /**
   * The path 1 - 2 - 3 with terminals 2 and 3 has the one leaf 1. The walk as
   * written removes 1, then terminal 2, then terminal 3; the intended walk
   * removes 1 only.
   */
  lemma PruneRemovesTerminalsExample(a: int, b: int, c: int)
    requires a != 0 && b != 0 && c != 0 && a != b && b != c && a != c
    ensures Leaves(map[a := {b}, b := {a, c}, c := {b}], {b, c}) == {a}
    ensures PruneAll(map[a := {b}, b := {a, c}, c := {b}], [a], {b, c}, false) == Walked(map[])
    ensures PruneAll(map[a := {b}, b := {a, c}, c := {b}], [a], {b, c}, true) == Walked(map[b := {c}, c := {b}])
  {
    PathLeaves(a, b, c);
    PathAsWritten(a, b, c);
    PathIntended(a, b, c);
  }

  lemma PathLeaves(a: int, b: int, c: int)
    requires a != b && b != c && a != c
    ensures Leaves(map[a := {b}, b := {a, c}, c := {b}], {b, c}) == {a}
  {
    var t: Adj := map[a := {b}, b := {a, c}, c := {b}];
    assert |t[b]| == 2;
  }

  /** Removing the end a of the path a - b - c leaves the edge b - c. */
  lemma PathRemoveEnd(a: int, b: int, c: int)
    requires a != b && b != c && a != c
    ensures RemoveNode(map[a := {b}, b := {a, c}, c := {b}], a) == map[b := {c}, c := {b}]
  {
    var t: Adj := map[a := {b}, b := {a, c}, c := {b}];
    var t1: Adj := map[b := {c}, c := {b}];
    assert RemoveNode(t, a).Keys == t1.Keys;
    assert RemoveNode(t, a)[b] == t[b] - {a} == {c};
    assert RemoveNode(t, a)[c] == t[c] - {a} == {b};
  }

  lemma PathAsWritten(a: int, b: int, c: int)
    requires a != 0 && b != 0 && c != 0 && a != b && b != c && a != c
    ensures PruneAll(map[a := {b}, b := {a, c}, c := {b}], [a], {b, c}, false) == Walked(map[])
  {
    var t: Adj := map[a := {b}, b := {a, c}, c := {b}];
    PathRemoveEnd(a, b, c);
    EdgeAsWritten(b, c);
    assert WalkAsWritten(t, a) == Walked(map[]);
  }

  /** On the edge b - c the walk as written from b removes b and then c. */
  lemma EdgeAsWritten(b: int, c: int)
    requires b != 0 && c != 0 && b != c
    ensures WalkAsWritten(map[b := {c}, c := {b}], b) == Walked(map[])
  {
    var t1: Adj := map[b := {c}, c := {b}];
    var t2: Adj := map[c := {}];
    assert RemoveNode(t1, b) == t2 by {
      assert RemoveNode(t1, b).Keys == t2.Keys;
      assert RemoveNode(t1, b)[c] == t1[c] - {b} == {};
    }
    assert RemoveNode(t2, c) == map[] by {
      assert RemoveNode(t2, c).Keys == {};
    }
    assert WalkAsWritten(t2, c) == Walked(map[]);
  }

  lemma PathIntended(a: int, b: int, c: int)
    requires a != 0 && b != 0 && c != 0 && a != b && b != c && a != c
    ensures PruneAll(map[a := {b}, b := {a, c}, c := {b}], [a], {b, c}, true) == Walked(map[b := {c}, c := {b}])
  {
    var t: Adj := map[a := {b}, b := {a, c}, c := {b}];
    var t1: Adj := map[b := {c}, c := {b}];
    PathRemoveEnd(a, b, c);
    assert Degree(t1, b) == 1;
    assert WalkIntended(t1, b, {b, c}) == Walked(t1);
    assert WalkIntended(t, a, {b, c}) == Walked(t1);
  }

  /**
   * Step 5: collect the non-terminal leaves, then walk from each (taken in
   * ascending order) the intended way, stopping at a terminal or a branching
   * node (WalkAsWritten is the walk as written). The result is the intended
   * PruneAll of the sorted leaves, which keeps every terminal.
   */
  method PruneLeaves(ts: Adj, target: set<int>) returns (r: Walked)
    ensures r == PruneAll(ts, SortedSet(Leaves(ts, target)), target, true)
    ensures r.Walked? && RemovedOnly(ts, r.t)
    ensures forall x :: x in ts && x in target ==> x in r.t
  {
    var leafs := SortedSet(Leaves(ts, target));
    PruneIntendedKeepsTerminals(ts, leafs, target);
    var t := ts;
    var k := 0;
    while k < |leafs|
      invariant 0 <= k <= |leafs|
      invariant PruneAll(t, leafs[k..], target, true) == PruneAll(ts, leafs, target, true)
      decreases |leafs| - k
    {
      var next := leafs[k];
      assert leafs[k..][1..] == leafs[k + 1..];
      ghost var tk := t;
      while next != 0 && next in t && next !in target && Degree(t, next) <= 1
        invariant WalkIntended(t, next, target) == WalkIntended(tk, leafs[k], target)
        decreases |t.Keys|
      {
        var neighbors := t[next];
        RemoveNodeShrinks(t, next);
        t := RemoveNode(t, next);
        next := if |neighbors| == 1 then SetMin(neighbors) else 0;
      }
      k := k + 1;
    }
    assert leafs[k..] == [];
    r := Walked(t);
  }
}
