// heat_degree_matrix.py: the bookkeeping of heat-degree multicast routing.
// Per edge (i, j) with i < j it keeps, for every source s, how many of s's
// receivers could use the edge within s's delay limit (the relevance
// counters), whether the sources relevant to the edge fit its bandwidth,
// and the routing tree of every source. The heat values themselves are
// floating-point formulas and appear here only as given numbers.

module HeatDegree {
  import opened Common
  import opened Walks
  import opened PllWeighted

  // ---------------------------------------------------------------------
  // Directed routing trees (networkx DiGraph: node -> successors)

  type DiGraph = map<int, set<int>>

  predicate HasArc(t: DiGraph, a: int, b: int)
  {
    a in t && b in t[a]
  }

  function Preds(t: DiGraph, n: int): set<int>
  {
    set m | m in t && n in t[m]
  }

  /** `DiGraph.degree(n)`: out-degree plus in-degree, a self-loop counting twice. */
  function DiDegree(t: DiGraph, n: int): nat
    requires n in t
  {
    |t[n]| + |Preds(t, n)|
  }

  /** `DiGraph.remove_node(n)`: the node and every arc at it disappear. */
  function RemoveNode(t: DiGraph, n: int): (t': DiGraph)
    ensures t'.Keys == t.Keys - {n}
    ensures forall m :: m in t' ==> t'[m] == t[m] - {n}
  {
    map m | m in t && m != n :: t[m] - {n}
  }

  lemma RemoveNodeShrinks(t: DiGraph, n: int)
    requires n in t
    ensures |RemoveNode(t, n).Keys| < |t.Keys|
  {
    assert RemoveNode(t, n).Keys == t.Keys - {n};
  }

  /** A routing tree is a networkx graph, or a map from receiver to path. */
  datatype RoutingTree = TreeGraph(t: DiGraph) | TreePaths(paths: map<int, seq<int>>)

  predicate SameEdge(a: int, b: int, u: int, v: int)
  {
    (a, b) == (u, v) || (b, a) == (u, v)
  }

  /** The scan over consecutive pairs of one path. */
  function PathHasEdge(p: seq<int>, u: int, v: int): (b: bool)
    ensures b <==> exists i :: 1 <= i < |p| && SameEdge(p[i - 1], p[i], u, v)
  {
    if |p| < 2 then false
    else if SameEdge(p[0], p[1], u, v) then true
    else
      PathShift(p, u, v);
      PathHasEdge(p[1..], u, v)
  }

  lemma PathShift(p: seq<int>, u: int, v: int)
    requires |p| >= 2 && !SameEdge(p[0], p[1], u, v)
    ensures (exists i :: 1 <= i < |p| && SameEdge(p[i - 1], p[i], u, v)) <==>
      (exists i :: 1 <= i < |p[1..]| && SameEdge(p[1..][i - 1], p[1..][i], u, v))
  {
    var q := p[1..];
    if exists i :: 1 <= i < |p| && SameEdge(p[i - 1], p[i], u, v) {
      var i :| 1 <= i < |p| && SameEdge(p[i - 1], p[i], u, v);
      assert i >= 2;
      assert q[i - 2] == p[i - 1] && q[i - 1] == p[i];
    }
    if exists i :: 1 <= i < |q| && SameEdge(q[i - 1], q[i], u, v) {
      var i :| 1 <= i < |q| && SameEdge(q[i - 1], q[i], u, v);
      assert q[i - 1] == p[i] && q[i] == p[i + 1];
    }
  }

  /**
   * is_routing_contains_edge(s, u, v): false without a tree for s; for a
   * graph, an arc u -> v or v -> u; for paths, two consecutive nodes of
   * some path forming {u, v}.
   */
  function IsRoutingContainsEdge(trees: map<int, RoutingTree>, s: int, u: int, v: int): (b: bool)
    ensures s !in trees ==> !b
    ensures s in trees && trees[s].TreeGraph? ==> (b <==> HasArc(trees[s].t, u, v) || HasArc(trees[s].t, v, u))
    ensures s in trees && trees[s].TreePaths? ==>
      (b <==> exists r, i :: (r in trees[s].paths && 1 <= i < |trees[s].paths[r]| &&
        SameEdge(trees[s].paths[r][i - 1], trees[s].paths[r][i], u, v)))
  {
    if s !in trees then false
    else match trees[s]
      case TreeGraph(t) => HasArc(t, u, v) || HasArc(t, v, u)
      case TreePaths(paths) => exists r :: r in paths && PathHasEdge(paths[r], u, v)
  }

  /** The edge test does not depend on the orientation asked for. */
  lemma IsRoutingContainsEdgeSymmetric(trees: map<int, RoutingTree>, s: int, u: int, v: int)
    ensures IsRoutingContainsEdge(trees, s, u, v) == IsRoutingContainsEdge(trees, s, v, u)
  {
    if s in trees && trees[s].TreePaths? {
      var paths := trees[s].paths;
      if IsRoutingContainsEdge(trees, s, u, v) {
        var r, i :| r in paths && 1 <= i < |paths[r]| && SameEdge(paths[r][i - 1], paths[r][i], u, v);
        assert SameEdge(paths[r][i - 1], paths[r][i], v, u);
      }
      if IsRoutingContainsEdge(trees, s, v, u) {
        var r, i :| r in paths && 1 <= i < |paths[r]| && SameEdge(paths[r][i - 1], paths[r][i], v, u);
        assert SameEdge(paths[r][i - 1], paths[r][i], u, v);
      }
    }
  }

  // ---------------------------------------------------------------------
  // Delay estimates

  /**
   * get_estimate(s, r, i, j): the delay of the best s-to-r route through edge
   * {i, j} that the distance queries suggest: the edge weight plus the nearer
   * endpoint's distance to the other terminal when s or r is an endpoint,
   * otherwise d(s, i) + w(i, j) + d(j, r).
   */
  function GetEstimate(g: Graph, L: Labels, s: int, r: int, i: int, j: int): (e: Dist)
    requires i in g && j in g[i]
    ensures (s == i || s == j) ==> e == Add(Fin(g[i][j]), Min(QueryDistance(L, i, r), QueryDistance(L, j, r)))
    ensures !(s == i || s == j) && (r == i || r == j) ==>
      e == Add(Fin(g[i][j]), Min(QueryDistance(L, i, s), QueryDistance(L, j, s)))
    ensures !(s == i || s == j || r == i || r == j) ==>
      e == Add(Add(QueryDistance(L, s, i), Fin(g[i][j])), QueryDistance(L, j, r))
  {
    if s == i || s == j then
      Add(Fin(g[i][j]), Min(QueryDistance(L, i, r), QueryDistance(L, j, r)))
    else if r == i || r == j then
      Add(Fin(g[i][j]), Min(QueryDistance(L, i, s), QueryDistance(L, j, s)))
    else
      Add(Add(QueryDistance(L, s, i), Fin(g[i][j])), QueryDistance(L, j, r))
  }

  lemma SoundQuery(G: Graph, L: Labels, u: int, v: int)
    requires Undirected(G) && LabelsSound(G, L)
    ensures QueryDistance(L, u, v).Fin? ==> HasWalk(G, u, v, QueryDistance(L, u, v).n)
  {
    if QueryDistance(L, u, v).Fin? {
      QueryDistanceSound(G, L, u, v);
    }
  }

  lemma Slack(g: Graph, a: int, b: int, k: int, k': int)
    requires HasWalk(g, a, b, k) && k <= k'
    ensures HasWalk(g, a, b, k')
  {
    var p :| IsWalk(g, p) && p[0] == a && p[|p| - 1] == b && Weight(g, p) <= k;
    assert Weight(g, p) <= k';
  }

  /**
   * With sound labels and non-negative delays, a finite estimate is
   * achievable: some walk from s to r has at most that delay.
   */
  lemma EstimateIsAchievable(g: Graph, L: Labels, s: int, r: int, i: int, j: int)
    requires Undirected(g) && NonNegative(g) && LabelsSound(g, L)
    requires i in g && j in g[i]
    ensures GetEstimate(g, L, s, r, i, j).Fin? ==> HasWalk(g, s, r, GetEstimate(g, L, s, r, i, j).n)
  {
    var e := GetEstimate(g, L, s, r, i, j);
    var w := g[i][j];
    assert j in g && i in g[j] && g[j][i] == w;
    if e.Fin? {
      if s == i || s == j {
        var o := if s == i then j else i;
        var qs, qo := QueryDistance(L, s, r), QueryDistance(L, o, r);
        assert o in g[s] && g[s][o] == w;
        var m := Min(QueryDistance(L, i, r), QueryDistance(L, j, r));
        if m == qs {
          SoundQuery(g, L, s, r);
          Slack(g, s, r, qs.n, w + qs.n);
        } else {
          assert m == qo;
          SoundQuery(g, L, o, r);
          TrivialWalk(g, s);
          ExtendWalk(g, s, s, 0, o);
          ConcatWalks(g, s, o, w, r, qo.n);
        }
      } else if r == i || r == j {
        var o := if r == i then j else i;
        var qr, qo := QueryDistance(L, r, s), QueryDistance(L, o, s);
        assert r in g[o] && g[o][r] == w;
        var m := Min(QueryDistance(L, i, s), QueryDistance(L, j, s));
        if m == qr {
          SoundQuery(g, L, r, s);
          ReverseWalk(g, r, s, qr.n);
          Slack(g, s, r, qr.n, w + qr.n);
        } else {
          assert m == qo;
          SoundQuery(g, L, o, s);
          ReverseWalk(g, o, s, qo.n);
          ExtendWalk(g, s, o, qo.n, r);
        }
      } else {
        var q1, q2 := QueryDistance(L, s, i), QueryDistance(L, j, r);
        SoundQuery(g, L, s, i);
        SoundQuery(g, L, j, r);
        ExtendWalk(g, s, i, q1.n, j);
        ConcatWalks(g, s, j, q1.n + w, r, q2.n);
      }
    }
  }

  // ---------------------------------------------------------------------
  // Relevance counters

  /** inc_relevance on one dictionary: a new source starts at 1. */
  function IncCount(d: map<int, int>, s: int): (d': map<int, int>)
    ensures d'.Keys == d.Keys + {s}
    ensures d'[s] == (if s in d then d[s] + 1 else 1)
    ensures forall x :: x in d && x != s ==> d'[x] == d[x]
  {
    if s !in d then d[s := 1] else d[s := d[s] + 1]
  }

  /** dec_relevance on one dictionary: an absent source is ignored, a present one is never deleted. */
  function DecCount(d: map<int, int>, s: int): (d': map<int, int>)
    ensures d'.Keys == d.Keys
    ensures s in d ==> d'[s] == d[s] - 1
    ensures forall x :: x in d && x != s ==> d'[x] == d[x]
  {
    if s !in d then d else d[s := d[s] - 1]
  }

  /** A decrement undoes an increment, except that a fresh source stays behind with count 0. */
  lemma DecUndoesInc(d: map<int, int>, s: int)
    ensures DecCount(IncCount(d, s), s) == (if s in d then d else d[s := 0])
  {
  }

  /** An unordered pair as the relevance matrix indexes it: smaller node first. */
  function Ordered(i: int, j: int): (p: (int, int))
    ensures p.0 <= p.1 && ((p.0, p.1) == (i, j) || (p.0, p.1) == (j, i))
  {
    if i < j then (i, j) else (j, i)
  }

  /** heat[i][j]: the value without congestion, the value under congestion, and whether the edge has room. */
  datatype Heat = HeatOf(x: real) | HeatInf
  datatype HeatEntry = HeatEntry(a: Heat, b: Heat, available: bool)

  /** The sum of the bandwidth requirements of a set of sources. */
  function SumRequire(ss: set<int>, req: map<int, int>): int
    requires ss <= req.Keys
    decreases ss
  {
    if ss == {} then 0
    else
      var m := SetMin(ss);
      req[m] + SumRequire(ss - {m}, req)
  }

  /** The sum does not depend on which source is taken first. */
  lemma {:induction false} SumRequireRemove(ss: set<int>, req: map<int, int>, x: int)
    requires ss <= req.Keys && x in ss
    ensures SumRequire(ss, req) == req[x] + SumRequire(ss - {x}, req)
    decreases ss
  {
    var m := SetMin(ss);
    if m != x {
      SumRequireRemove(ss - {m}, req, x);
      SumRequireRemove(ss - {x}, req, m);
      assert ss - {m} - {x} == ss - {x} - {m};
    }
  }

  class HeatDegreeBase {
    /** Edge delays (the `weight` attribute). */
    var g: Graph
    /** The `bandwidth` attribute of edge {u, v}, keyed by the ordered pair. */
    var bandwidth: map<(int, int), int>
    var bandwidthRequire: map<int, int>
    /** relevance[i][j][s] for i <= j. */
    var relevance: map<(int, int), map<int, int>>
    var heat: map<(int, int), HeatEntry>
    /** The routing trees, shared with the model that owns this base. */
    var routingTrees: map<int, RoutingTree>
    /** The labels of the PLL oracle that answers the distance queries. */
    var labels: Labels

    constructor (g0: Graph, bw: map<(int, int), int>, req: map<int, int>, rel: map<(int, int), map<int, int>>,
                 h: map<(int, int), HeatEntry>, trees: map<int, RoutingTree>, L: Labels)
      ensures g == g0 && bandwidth == bw && bandwidthRequire == req && relevance == rel
      ensures heat == h && routingTrees == trees && labels == L
    {
      g, bandwidth, bandwidthRequire, relevance := g0, bw, req, rel;
      heat, routingTrees, labels := h, trees, L;
    }

    /** inc_relevance(s, i, j). */
    method IncRelevance(s: int, i: int, j: int)
      modifies this
      requires (i, j) in relevance
      ensures relevance == old(relevance)[(i, j) := IncCount(old(relevance)[(i, j)], s)]
      ensures g == old(g) && bandwidth == old(bandwidth) && bandwidthRequire == old(bandwidthRequire)
      ensures heat == old(heat) && routingTrees == old(routingTrees) && labels == old(labels)
    {
      var d := relevance[(i, j)];
      if s !in d {
        relevance := relevance[(i, j) := d[s := 1]];
      } else {
        relevance := relevance[(i, j) := d[s := d[s] + 1]];
      }
    }

    /** dec_relevance(s, i, j). */
    method DecRelevance(s: int, i: int, j: int)
      modifies this
      requires (i, j) in relevance
      ensures relevance == old(relevance)[(i, j) := DecCount(old(relevance)[(i, j)], s)]
      ensures g == old(g) && bandwidth == old(bandwidth) && bandwidthRequire == old(bandwidthRequire)
      ensures heat == old(heat) && routingTrees == old(routingTrees) && labels == old(labels)
    {
      var d := relevance[(i, j)];
      if s !in d {
        return;
      }
      relevance := relevance[(i, j) := d[s := d[s] - 1]];
    }

    /**
     * check_bandwidth_limit(u, v): the bandwidth the sources relevant to
     * edge {u, v} require together, and whether the edge carries it.
     */
    method CheckBandwidthLimit(u: int, v: int) returns (sum: int, available: bool)
      requires Ordered(u, v) in relevance && Ordered(u, v) in bandwidth
      requires relevance[Ordered(u, v)].Keys <= bandwidthRequire.Keys
      ensures sum == SumRequire(relevance[Ordered(u, v)].Keys, bandwidthRequire)
      ensures available <==> sum <= bandwidth[Ordered(u, v)]
    {
      var p := Ordered(u, v);
      var todo := relevance[p].Keys;
      sum := 0;
      while todo != {}
        invariant todo <= relevance[p].Keys
        invariant sum + SumRequire(todo, bandwidthRequire) == SumRequire(relevance[p].Keys, bandwidthRequire)
        decreases todo
      {
        var s := Pick(todo);
        SumRequireRemove(todo, bandwidthRequire, s);
        sum := sum + bandwidthRequire[s];
        todo := todo - {s};
      }
      available := sum <= bandwidth[p];
    }

    /**
     * get_heat_degree_ij(s, i, j): inf when s is not relevant to the edge;
     * otherwise the uncongested value when the edge is already in s's
     * tree or has room for all its relevant sources, and the congested one
     * when not.
     */
    function GetHeatDegreeIJ(s: int, i: int, j: int): (h: Heat)
      reads this
      requires Ordered(i, j) in relevance && Ordered(i, j) in heat
      ensures s !in relevance[Ordered(i, j)] ==> h == HeatInf
      ensures s in relevance[Ordered(i, j)] ==>
        h == (if IsRoutingContainsEdge(routingTrees, s, Ordered(i, j).0, Ordered(i, j).1) || heat[Ordered(i, j)].available
              then heat[Ordered(i, j)].a else heat[Ordered(i, j)].b)
    {
      var p := if i < j then (i, j) else (j, i);
      if s in relevance[p] then
        if IsRoutingContainsEdge(routingTrees, s, p.0, p.1) || heat[p].available then heat[p].a else heat[p].b
      else HeatInf
    }

    /** The heat of an edge is the same whichever end is named first. */
    lemma GetHeatDegreeSymmetric(s: int, i: int, j: int)
      requires Ordered(i, j) in relevance && Ordered(i, j) in heat
      ensures Ordered(j, i) == Ordered(i, j)
      ensures GetHeatDegreeIJ(s, i, j) == GetHeatDegreeIJ(s, j, i)
    {
    }
  }

  // ---------------------------------------------------------------------
  // Pruning a receiver's branch

  /**
   * The while loop of _remove_recv_from_routing_trees from `node`: while the
   * node is in the tree, has degree 1 and is not a terminal, move to its
   * neighbour and remove it. With `successorsOnly` the neighbour is taken
   * from `neighbors`, which on a DiGraph yields successors only, and an
   * empty iterator raises StopIteration, leaving the tree pruned so far.
   * Without it the neighbour is the node's one adjacent node in either
   * direction.
   */
  function PruneChain(t: DiGraph, node: int, terms: set<int>, successorsOnly: bool): (r: Pruned)
    decreases |t.Keys|
  {
    if node in t && DiDegree(t, node) == 1 && node !in terms then
      var nbrs := if successorsOnly then t[node] else t[node] + Preds(t, node);
      if nbrs == {} then StopIteration(t)
      else
        RemoveNodeShrinks(t, node);
        PruneChain(RemoveNode(t, node), SetMin(nbrs), terms, successorsOnly)
    else Pruned(t)
  }

  datatype Pruned = Pruned(tree: DiGraph) | StopIteration(tree: DiGraph)

  /** The tree left after removing the nodes of `t` that `t'` lacks. */
  predicate RemovedOnly(t: DiGraph, t': DiGraph)
  {
    t'.Keys <= t.Keys && forall m :: m in t' ==> t'[m] == t[m] - (t.Keys - t'.Keys)
  }

  /** Pruning removes nodes and the arcs at them and nothing else, and never a terminal. */
  lemma {:induction false} PruneChainRemovesNonTerminals(t: DiGraph, node: int, terms: set<int>, successorsOnly: bool)
    ensures RemovedOnly(t, PruneChain(t, node, terms, successorsOnly).tree)
    ensures forall x :: x in t && x in terms ==> x in PruneChain(t, node, terms, successorsOnly).tree
    decreases |t.Keys|
  {
    if node in t && DiDegree(t, node) == 1 && node !in terms {
      var nbrs := if successorsOnly then t[node] else t[node] + Preds(t, node);
      if nbrs != {} {
        var t1 := RemoveNode(t, node);
        RemoveNodeShrinks(t, node);
        PruneChainRemovesNonTerminals(t1, SetMin(nbrs), terms, successorsOnly);
        var t2 := PruneChain(t1, SetMin(nbrs), terms, successorsOnly).tree;
        assert t2 == PruneChain(t, node, terms, successorsOnly).tree;
        RemovedOnlyAfterRemove(t, node, t2);
      }
    }
  }

  /** Removing one node and then some more is removing those nodes. */
  lemma RemovedOnlyAfterRemove(t: DiGraph, node: int, t2: DiGraph)
    requires node in t && RemovedOnly(RemoveNode(t, node), t2)
    ensures RemovedOnly(t, t2)
  {
    var t1 := RemoveNode(t, node);
    forall m | m in t2 ensures t2[m] == t[m] - (t.Keys - t2.Keys) {
      assert t.Keys - t2.Keys == (t1.Keys - t2.Keys) + {node};
    }
  }

  /** Following neighbours in both directions never runs out of neighbours. */
  lemma {:induction false} PruneChainBothWaysCompletes(t: DiGraph, node: int, terms: set<int>)
    ensures PruneChain(t, node, terms, false).Pruned?
    decreases |t.Keys|
  {
    if node in t && DiDegree(t, node) == 1 && node !in terms {
      var nbrs := t[node] + Preds(t, node);
      assert |t[node]| == 1 || |Preds(t, node)| == 1;
      assert nbrs != {} by {
        if |t[node]| == 1 {
          var x := PickElement(t[node]);
          assert x in nbrs;
        } else {
          var x := PickElement(Preds(t, node));
          assert x in nbrs;
        }
      }
      RemoveNodeShrinks(t, node);
      PruneChainBothWaysCompletes(RemoveNode(t, node), SetMin(nbrs), terms);
    }
  }

  /**
   * Taking successors only fails at the first step for a leaf receiver of a
   * tree directed away from its source: it has one predecessor and no
   * successor.
   */
  lemma LeafReceiverRaises(t: DiGraph, r: int, terms: set<int>)
    requires r in t && t[r] == {} && |Preds(t, r)| == 1 && r !in terms
    ensures PruneChain(t, r, terms, true) == StopIteration(t)
  {
  }

  /** Source 1 with one receiver 2: removing the receiver raises. */
  lemma LeafReceiverExample()
    ensures PruneChain(map[1 := {2}, 2 := {}], 2, {1}, true).StopIteration?
    ensures PruneChain(map[1 := {2}, 2 := {}], 2, {1}, false) == Pruned(map[1 := {}])
  {
    var t: DiGraph := map[1 := {2}, 2 := {}];
    assert Preds(t, 2) == {1};
    LeafReceiverRaises(t, 2, {1});
    var t1 := RemoveNode(t, 2);
    assert t1.Keys == {1} && t1[1] == {};
    assert t1 == map[1 := {}];
    assert SetMin(t[2] + Preds(t, 2)) == 1;
    assert Preds(t1, 1) == {};
  }

  /** The edges {u, v} of a graph, named by their ordered pair. */
  function Edges(g: Graph): set<(int, int)>
  {
    set u, v | u in g && v in g[u] :: Ordered(u, v)
  }

  class HeatDegreeModel {
    var src2recv: map<int, set<int>>
    var delayLimit: map<int, int>
    const base: HeatDegreeBase

    constructor (b: HeatDegreeBase, s2r: map<int, set<int>>, limits: map<int, int>)
      ensures base == b && src2recv == s2r && delayLimit == limits
    {
      base := b;
      src2recv := s2r;
      delayLimit := limits;
    }

    /**
     * _remove_recv_from_routing_trees(s, r): r stops being a receiver of s,
     * and from r the chain of degree-1 nodes that are not terminals is
     * removed from s's tree, each step moving to the removed node's
     * neighbour. The neighbour is looked up in both directions here; the
     * successor-only lookup as written is PruneChain with `successorsOnly`.
     */
    method RemoveRecvFromRoutingTrees(s: int, r: int)
      modifies this, base
      requires s in src2recv && r in src2recv[s]
      requires s in base.routingTrees && base.routingTrees[s].TreeGraph?
      ensures src2recv == old(src2recv)[s := old(src2recv)[s] - {r}] && delayLimit == old(delayLimit)
      ensures base.routingTrees == old(base.routingTrees)[s :=
        TreeGraph(PruneChain(old(base.routingTrees)[s].t, r, (old(src2recv)[s] - {r}) + {s}, false).tree)]
      ensures base.g == old(base.g) && base.bandwidth == old(base.bandwidth)
      ensures base.bandwidthRequire == old(base.bandwidthRequire) && base.labels == old(base.labels)
      ensures base.relevance == old(base.relevance) && base.heat == old(base.heat)
    {
      src2recv := src2recv[s := src2recv[s] - {r}];
      var terminals := src2recv[s] + {s};
      var t := base.routingTrees[s].t;
      ghost var t0 := t;
      var node := r;
      PruneChainBothWaysCompletes(t, node, terminals);
      while node in t && DiDegree(t, node) == 1 && node !in terminals
        modifies {}
        invariant PruneChain(t, node, terminals, false) == PruneChain(t0, r, terminals, false)
        invariant PruneChain(t, node, terminals, false).Pruned?
        decreases |t.Keys|
      {
        var nbrs := t[node] + Preds(t, node);
        var next := SetMin(nbrs);
        RemoveNodeShrinks(t, node);
        t := RemoveNode(t, node);
        node := next;
      }
      base.routingTrees := base.routingTrees[s := TreeGraph(t)];
    }

    /**
     * remove_recv(s, r): nothing for an unknown source or receiver;
     * otherwise prune r's branch, then lower s's relevance on every edge
     * whose estimate through it stays within s's delay limit. The refresh of
     * heat entries is guarded by comparing a dictionary with 0, which never
     * holds, so the heat entries stay as they were.
     */
    method RemoveRecv(s: int, r: int)
      modifies this, base
      requires Undirected(base.g)
      requires forall p :: p in Edges(base.g) ==> p in base.relevance
      requires s in src2recv ==> s in delayLimit && s in base.routingTrees && base.routingTrees[s].TreeGraph?
      ensures !(old(s in src2recv && r in src2recv[s])) ==>
        src2recv == old(src2recv) && base.routingTrees == old(base.routingTrees) && base.relevance == old(base.relevance)
      ensures old(s in src2recv && r in src2recv[s]) ==>
        src2recv == old(src2recv)[s := old(src2recv)[s] - {r}] &&
        base.routingTrees == old(base.routingTrees)[s :=
          TreeGraph(PruneChain(old(base.routingTrees)[s].t, r, (old(src2recv)[s] - {r}) + {s}, false).tree)] &&
        base.relevance == Lowered(old(base.relevance), base.g, base.labels, delayLimit, s, r, Edges(base.g))
      ensures base.heat == old(base.heat) && base.g == old(base.g) && base.labels == old(base.labels)
      ensures base.bandwidth == old(base.bandwidth) && base.bandwidthRequire == old(base.bandwidthRequire)
      ensures delayLimit == old(delayLimit)
    {
      if s !in src2recv || r !in src2recv[s] {
        return;
      }
      RemoveRecvFromRoutingTrees(s, r);
      LowerRelevance(s, r);
    }

    /** The edge loop of remove_recv: lower s's relevance on every edge whose estimate through it to r is within s's delay limit. */
    method LowerRelevance(s: int, r: int)
      modifies base
      requires Undirected(base.g) && s in delayLimit
      requires forall p :: p in Edges(base.g) ==> p in base.relevance
      ensures base.relevance == Lowered(old(base.relevance), base.g, base.labels, delayLimit, s, r, Edges(base.g))
      ensures base.heat == old(base.heat) && base.g == old(base.g) && base.labels == old(base.labels)
      ensures base.bandwidth == old(base.bandwidth) && base.bandwidthRequire == old(base.bandwidthRequire)
      ensures base.routingTrees == old(base.routingTrees)
    {
      ghost var rel0 := base.relevance;
      ghost var edges := Edges(base.g);
      ghost var done: set<(int, int)> := {};
      var todo := Edges(base.g);
      LoweredNone(rel0, base.g, base.labels, delayLimit, s, r);
      var updated: set<(int, int)> := {};
      while todo != {}
        modifies base
        invariant done + todo == edges && done !! todo
        invariant base.relevance == Lowered(rel0, base.g, base.labels, delayLimit, s, r, done)
        invariant updated == {}
        invariant base.heat == old(base.heat) && base.g == old(base.g) && base.labels == old(base.labels)
        invariant base.bandwidth == old(base.bandwidth) && base.bandwidthRequire == old(base.bandwidthRequire)
        invariant base.routingTrees == old(base.routingTrees)
        decreases todo
      {
        var p := Pick(todo);
        LoweredStep(base.relevance, rel0, base.g, base.labels, delayLimit, s, r, done, p);
        todo, done := todo - {p}, done + {p};
        EdgeOfEdges(base.g, p);
        var estimated := GetEstimate(base.g, base.labels, s, r, p.0, p.1);
        if Le(estimated, Fin(delayLimit[s])) {
          base.DecRelevance(s, p.0, p.1);
          if DictIsZero(base.relevance[p]) {
            updated := updated + {p};
          }
        }
      }
      assert done == edges;
    }
  }

  /** The relevance map after remove_recv has lowered s's count on the edges of `done` within s's limit. */
  function Lowered(rel0: map<(int, int), map<int, int>>, g: Graph, L: Labels, limit: map<int, int>,
                   s: int, r: int, done: set<(int, int)>): (rel: map<(int, int), map<int, int>>)
    ensures rel.Keys == rel0.Keys
  {
    map p | p in rel0 :: if p in done && Within(g, L, limit, s, r, p) then DecCount(rel0[p], s) else rel0[p]
  }

  lemma LoweredNone(rel0: map<(int, int), map<int, int>>, g: Graph, L: Labels, limit: map<int, int>, s: int, r: int)
    ensures Lowered(rel0, g, L, limit, s, r, {}) == rel0
  {
  }

  /** Handling one more edge p of rel0: lowered when p is within the limit, left alone otherwise. */
  lemma LoweredStep(rel: map<(int, int), map<int, int>>, rel0: map<(int, int), map<int, int>>, g: Graph, L: Labels,
                    limit: map<int, int>, s: int, r: int, done: set<(int, int)>, p: (int, int))
    requires rel == Lowered(rel0, g, L, limit, s, r, done) && p in rel0 && p !in done
    ensures Within(g, L, limit, s, r, p) ==> rel[p := DecCount(rel[p], s)] == Lowered(rel0, g, L, limit, s, r, done + {p})
    ensures !Within(g, L, limit, s, r, p) ==> rel == Lowered(rel0, g, L, limit, s, r, done + {p})
  {
  }

  /** Python's `d == 0` for a dictionary d: a dictionary never equals an integer. */
  predicate DictIsZero(d: map<int, int>)
  {
    false
  }

  lemma EdgeOfEdges(g: Graph, p: (int, int))
    requires Undirected(g) && p in Edges(g)
    ensures p.0 in g && p.1 in g[p.0]
  {
    var u, v :| u in g && v in g[u] && Ordered(u, v) == p;
  }

  /** The estimate of s to r through edge p is within s's delay limit. */
  predicate Within(g: Graph, L: Labels, limit: map<int, int>, s: int, r: int, p: (int, int))
  {
    s in limit && p.0 in g && p.1 in g[p.0] && Le(GetEstimate(g, L, s, r, p.0, p.1), Fin(limit[s]))
  }

  // ---------------------------------------------------------------------
  // Orienting a routing tree

  /** `Graph.degree(n)`: the number of neighbours, a self-loop counting twice. */
  function Degree(g: Graph, n: int): nat
    requires n in g
  {
    |g[n].Keys| + (if n in g[n] then 1 else 0)
  }

  /** `DiGraph.add_node(n)`. */
  function AddNode(t: DiGraph, n: int): DiGraph
  {
    if n in t then t else t[n := {}]
  }

  /** `DiGraph.add_edge(a, b)`. */
  function AddArc(t: DiGraph, a: int, b: int): DiGraph
  {
    var t1 := AddNode(AddNode(t, a), b);
    t1[a := t1[a] + {b}]
  }

  /** `t'` has every node and arc of t. */
  predicate Grows(t: DiGraph, t': DiGraph)
  {
    t.Keys <= t'.Keys && forall a :: a in t ==> t[a] <= t'[a]
  }

  /** Every node and arc of t' that t lacks is a node or an edge of ts, away from node 0. */
  predicate AddsFrom(ts: Graph, t: DiGraph, t': DiGraph)
  {
    (forall a :: a in t' && a !in t ==> a in ts && a != 0) &&
    (forall a, b :: a in t' && b in t'[a] && !HasArc(t, a, b) ==> a in ts && b in ts[a] && a != 0 && b != 0)
  }

  lemma GrowsTrans(t1: DiGraph, t2: DiGraph, t3: DiGraph)
    requires Grows(t1, t2) && Grows(t2, t3)
    ensures Grows(t1, t3)
  {
  }

  lemma AddsFromTrans(ts: Graph, t1: DiGraph, t2: DiGraph, t3: DiGraph)
    requires Grows(t1, t2) && AddsFrom(ts, t1, t2) && AddsFrom(ts, t2, t3)
    ensures AddsFrom(ts, t1, t3)
  {
  }

  /** An arc of t' that t lacks. */
  predicate NewArc(t: DiGraph, t': DiGraph, a: int, b: int)
  {
    HasArc(t', a, b) && !HasArc(t, a, b)
  }

  /**
   * parent and depth orient the undirected tree ts towards R: R has depth 0
   * and no parent, every other node's parent is a neighbour one level
   * nearer R, and every edge joins a node and its parent. Node 0, which the
   * walk reads as false, is not a node of ts.
   */
  ghost predicate RootedBy(ts: Graph, parent: map<int, int>, depth: map<int, nat>, R: int)
  {
    R in ts && R !in parent && 0 !in ts && ts.Keys <= depth.Keys && depth[R] == 0 &&
    (forall n :: n in ts && n != R ==> n in parent) &&
    (forall n :: n in parent ==>
      n in ts && parent[n] in ts[n] && n in depth && parent[n] in depth && depth[n] == depth[parent[n]] + 1) &&
    (forall n, m :: n in ts && m in ts[n] ==> (n in parent && parent[n] == m) || (m in parent && parent[m] == n))
  }

  /** The walk enters n as the orientation says: the root from nowhere, any other node from its parent. */
  ghost predicate EntersDown(parent: map<int, int>, R: int, n: int, pre: Option<int>)
  {
    (n == R && pre.None?) || (n in parent && pre == Some(parent[n]))
  }

  /** Every arc of t' that t lacks runs from a node's parent to the node. */
  ghost predicate ArcsDown(t: DiGraph, t': DiGraph, parent: map<int, int>)
  {
    forall a, b :: NewArc(t, t', a, b) ==> b in parent && parent[b] == a
  }

  lemma ArcsDownTrans(t1: DiGraph, t2: DiGraph, t3: DiGraph, parent: map<int, int>)
    requires Grows(t1, t2) && ArcsDown(t1, t2, parent) && ArcsDown(t2, t3, parent)
    ensures ArcsDown(t1, t3, parent)
  {
    forall a, b | NewArc(t1, t3, a, b)
      ensures b in parent && parent[b] == a
    {
      if HasArc(t2, a, b) {
        assert NewArc(t1, t2, a, b);
      } else {
        assert NewArc(t2, t3, a, b);
      }
    }
  }

  /**
   * What arcs pointing from parent to child mean for the tree: the root gets
   * no new in-arc, no node gets two, each new arc goes one level away from
   * the root, and no new arc is added in both directions.
   */
  lemma ArcsDownOriented(ts: Graph, parent: map<int, int>, depth: map<int, nat>, R: int, t: DiGraph, t': DiGraph)
    requires RootedBy(ts, parent, depth, R) && ArcsDown(t, t', parent)
    ensures forall a :: !NewArc(t, t', a, R)
    ensures forall a, b, c :: NewArc(t, t', a, b) && NewArc(t, t', c, b) ==> a == c
    ensures forall a, b :: NewArc(t, t', a, b) ==>
      b in ts && a in ts[b] && a in depth && b in depth && depth[b] == depth[a] + 1
    ensures forall a, b :: NewArc(t, t', a, b) ==> !NewArc(t, t', b, a)
  {
    forall a, b | NewArc(t, t', a, b)
      ensures b in ts && a in ts[b] && a in depth && b in depth && depth[b] == depth[a] + 1
    {
      assert b in parent && parent[b] == a;
    }
  }

  /** The path 1 - 2 - 3 oriented towards 1. */
  lemma PathRootedExample()
    ensures RootedBy(map[1 := map[2 := 5], 2 := map[1 := 5, 3 := 7], 3 := map[2 := 7]],
                     map[2 := 1, 3 := 2], map[1 := 0, 2 := 1, 3 := 2], 1)
  {
  }

  /** A step from a node entered as the orientation says, to a neighbour other than where it came from, enters that neighbour from its parent. */
  lemma StepDown(ts: Graph, parent: map<int, int>, depth: map<int, nat>, R: int, cur: int, prev: Option<int>, next: int)
    requires RootedBy(ts, parent, depth, R) && EntersDown(parent, R, cur, prev)
    requires cur in ts && next in ts[cur] && prev != Some(next)
    ensures EntersDown(parent, R, next, Some(cur))
  {
  }

  /**
   * convert_routing_tree_to_digraph(ts, tree, root, pre): walk from root
   * along the undirected tree ts, adding every node met and the arc
   * pre -> root for every step taken, so arcs point away from the first
   * root. A degree-1 node steps on to its neighbour unless that is where the
   * walk came from; any other node starts one walk per neighbour but pre.
   * `while root` and `if pre` are Python truth tests, so node 0 stops a walk
   * and is never the tail of an arc. `fuel` bounds the steps and calls.
   * The tree only grows, and only by nodes and edges of ts. When ts is a
   * tree oriented towards R (the ghost parent and depth) and the walk
   * enters root as that orientation says, every new arc runs from a node's
   * parent to the node (see ArcsDownOriented).
   */
  method ConvertRoutingTree(ts: Graph, tree: DiGraph, root: int, pre: Option<int>, fuel: nat,
                            ghost parent: map<int, int>, ghost depth: map<int, nat>, ghost R: int) returns (tree': DiGraph)
    requires Undirected(ts)
    requires root != 0 ==> root in ts
    requires root != 0 && pre.Some? && pre.value != 0 ==> pre.value in ts && root in ts[pre.value]
    ensures Grows(tree, tree') && AddsFrom(ts, tree, tree')
    ensures root == 0 ==> tree' == tree
    ensures root != 0 && fuel > 0 ==> root in tree'
    ensures RootedBy(ts, parent, depth, R) && EntersDown(parent, R, root, pre) ==> ArcsDown(tree, tree', parent)
    decreases fuel, 1
  {
    tree' := tree;
    if root == 0 {
      return;
    }
    var cur, prev, steps := root, pre, fuel;
    while cur != 0 && steps > 0
      invariant cur != 0 ==> cur in ts
      invariant cur != 0 && prev.Some? && prev.value != 0 ==> prev.value in ts && cur in ts[prev.value]
      invariant Grows(tree, tree') && AddsFrom(ts, tree, tree')
      invariant steps <= fuel
      invariant steps < fuel ==> root in tree'
      invariant steps == fuel ==> cur == root
      invariant RootedBy(ts, parent, depth, R) && EntersDown(parent, R, root, pre) ==>
        (cur != 0 ==> EntersDown(parent, R, cur, prev)) && ArcsDown(tree, tree', parent)
      decreases steps
    {
      ghost var first := steps == fuel;
      steps := steps - 1;
      var t1 := Visit(ts, tree', cur, prev, parent, R);
      AddsFromTrans(ts, tree, tree', t1);
      GrowsTrans(tree, tree', t1);
      if RootedBy(ts, parent, depth, R) && EntersDown(parent, R, root, pre) {
        ArcsDownTrans(tree, tree', t1, parent);
      }
      assert root in t1 by {
        if !first {
          assert root in tree';
        }
      }
      tree' := t1;
      if Degree(ts, cur) == 1 {
        var next := SetMin(ts[cur].Keys);
        if prev == Some(next) {
          break;
        }
        if RootedBy(ts, parent, depth, R) && EntersDown(parent, R, root, pre) {
          StepDown(ts, parent, depth, R, cur, prev, next);
        }
        prev, cur := Some(cur), next;
      } else {
        var t2 := ConvertNeighbours(ts, tree', cur, prev, steps, parent, depth, R);
        AddsFromTrans(ts, tree, tree', t2);
        GrowsTrans(tree, tree', t2);
        if RootedBy(ts, parent, depth, R) && EntersDown(parent, R, root, pre) {
          ArcsDownTrans(tree, tree', t2, parent);
        }
        tree' := t2;
        break;
      }
    }
  }

  /** `tree.add_node(root)`, then `tree.add_edge(pre, root)` when pre is truthy. */
  method Visit(ts: Graph, tree: DiGraph, cur: int, prev: Option<int>, ghost parent: map<int, int>, ghost R: int)
    returns (tree': DiGraph)
    requires cur != 0 && cur in ts
    requires prev.Some? && prev.value != 0 ==> prev.value in ts && cur in ts[prev.value]
    ensures Grows(tree, tree') && AddsFrom(ts, tree, tree') && cur in tree'
    ensures EntersDown(parent, R, cur, prev) ==> ArcsDown(tree, tree', parent)
  {
    tree' := AddNode(tree, cur);
    assert forall a, b :: !NewArc(tree, tree', a, b);
    if prev.Some? && prev.value != 0 {
      var t2 := AddArc(tree', prev.value, cur);
      assert Grows(tree', t2) && AddsFrom(ts, tree', t2);
      assert forall a, b :: NewArc(tree', t2, a, b) ==> a == prev.value && b == cur;
      AddsFromTrans(ts, tree, tree', t2);
      if EntersDown(parent, R, cur, prev) {
        assert ArcsDown(tree', t2, parent);
        ArcsDownTrans(tree, tree', t2, parent);
      }
      tree' := t2;
    }
  }

  /** The branching case: one walk from each neighbour of cur other than prev. */
  method ConvertNeighbours(ts: Graph, tree: DiGraph, cur: int, prev: Option<int>, steps: nat,
                           ghost parent: map<int, int>, ghost depth: map<int, nat>, ghost R: int) returns (tree': DiGraph)
    requires Undirected(ts) && cur != 0 && cur in ts
    ensures Grows(tree, tree') && AddsFrom(ts, tree, tree')
    ensures RootedBy(ts, parent, depth, R) && EntersDown(parent, R, cur, prev) ==> ArcsDown(tree, tree', parent)
    decreases steps, 2
  {
    tree' := tree;
    var todo := ts[cur].Keys;
    while todo != {}
      invariant todo <= ts[cur].Keys
      invariant Grows(tree, tree') && AddsFrom(ts, tree, tree')
      invariant RootedBy(ts, parent, depth, R) && EntersDown(parent, R, cur, prev) ==> ArcsDown(tree, tree', parent)
      decreases todo
    {
      var next := Pick(todo);
      todo := todo - {next};
      if prev != Some(next) {
        var t2 := ConvertRoutingTree(ts, tree', next, Some(cur), steps, parent, depth, R);
        AddsFromTrans(ts, tree, tree', t2);
        GrowsTrans(tree, tree', t2);
        if RootedBy(ts, parent, depth, R) && EntersDown(parent, R, cur, prev) {
          StepDown(ts, parent, depth, R, cur, prev, next);
          ArcsDownTrans(tree, tree', t2, parent);
        }
        tree' := t2;
      }
    }
  }
}
