// The experiment metadata of prepare1_graph_info.py. The distribution and the
// mobility copies share this code: group numbers and group addresses, the
// renumbering of the input graph, the assignment of switches to controllers,
// receiver churn, the bandwidth draws, and (mobility only) the one-shot
// "latest graph" flag of the metadata server. Random draws are parameters.

module ExperimentSetup {
  import opened Common

  /** `f'224.0.1.{no}'`: the multicast group address of group number `no`. */
  function GroupIp(no: int): string
  {
    "224.0.1." + IntToString(no)
  }

  /** Distinct group numbers give distinct group addresses. */
  lemma GroupIpInjective(a: int, b: int)
    requires GroupIp(a) == GroupIp(b)
    ensures a == b
  {
    assert IntToString(a) == GroupIp(a)[8..];
    assert IntToString(b) == GroupIp(b)[8..];
    IntToStringInjective(a, b);
  }

  // ---------------------------------------------------------------------
  // MulticastInfo

  /**
   * The group registry: `group_no` is the next number to hand out, and every
   * source has a number and the address spelling that number.
   */
  class MulticastInfo {
    var groupNo: int
    var srcToGroupNo: map<int, int>
    var srcToGroupIp: map<int, string>

    /** Numbers are below groupNo, distinct across sources, and each address spells its number. */
    predicate Valid()
      reads this
    {
      groupNo >= 1 && srcToGroupIp.Keys == srcToGroupNo.Keys &&
      (forall s :: s in srcToGroupNo ==> 1 <= srcToGroupNo[s] < groupNo && srcToGroupIp[s] == GroupIp(srcToGroupNo[s])) &&
      (forall s, t :: s in srcToGroupNo && t in srcToGroupNo && s != t ==> srcToGroupNo[s] != srcToGroupNo[t])
    }

    /**
     * `MulticastInfo(s2r)`: add_group for every source, in the dict's
     * iteration order `sources`, so the k-th source gets number k + 1.
     */
    constructor (sources: seq<int>)
      requires Distinct(sources)
      ensures Valid() && groupNo == |sources| + 1
      ensures srcToGroupNo.Keys == set s | s in sources
      ensures forall k :: 0 <= k < |sources| ==> srcToGroupNo[sources[k]] == k + 1
    {
      groupNo := 1;
      srcToGroupNo := map[];
      srcToGroupIp := map[];
      new;
      for k := 0 to |sources|
        invariant Valid() && groupNo == k + 1
        invariant srcToGroupNo.Keys == set s | s in sources[..k]
        invariant forall m :: 0 <= m < k ==> srcToGroupNo[sources[m]] == m + 1
      {
        AddGroup(sources[k]);
        assert sources[..k + 1] == sources[..k] + [sources[k]];
      }
      assert sources[..|sources|] == sources;
    }

    /** `add_group(src)`: the current number and its address go to src, then the counter moves on. */
    method AddGroup(src: int)
      modifies this
      ensures srcToGroupNo == old(srcToGroupNo)[src := old(groupNo)]
      ensures srcToGroupIp == old(srcToGroupIp)[src := GroupIp(old(groupNo))]
      ensures groupNo == old(groupNo) + 1
      ensures old(Valid()) ==> Valid()
    {
      srcToGroupNo := srcToGroupNo[src := groupNo];
      srcToGroupIp := srcToGroupIp[src := GroupIp(srcToGroupNo[src])];
      groupNo := groupNo + 1;
    }
  }

  /** A valid registry never gives two sources the same group address. */
  lemma GroupIpsDistinct(info: MulticastInfo, s: int, t: int)
    requires info.Valid() && s in info.srcToGroupIp && t in info.srcToGroupIp && s != t
    ensures info.srcToGroupIp[s] != info.srcToGroupIp[t]
  {
    if info.srcToGroupIp[s] == info.srcToGroupIp[t] {
      GroupIpInjective(info.srcToGroupNo[s], info.srcToGroupNo[t]);
    }
  }

  // ---------------------------------------------------------------------
  // GraphInfo: the graph and the controller assignment

  /** The edge list with both ends moved up by one. */
  function Shift(edges: seq<(int, int)>): (r: seq<(int, int)>)
    ensures |r| == |edges|
    ensures forall k :: 0 <= k < |edges| ==> r[k] == (edges[k].0 + 1, edges[k].1 + 1)
  {
    if edges == [] then [] else Shift(edges[..|edges| - 1]) + [(edges[|edges| - 1].0 + 1, edges[|edges| - 1].1 + 1)]
  }

  /** The graph that adds the edges of the list one after the other. */
  function FromEdges(edges: seq<(int, int)>): Adj
  {
    if edges == [] then map[]
    else AddUndirectedEdge(FromEdges(edges[..|edges| - 1]), edges[|edges| - 1].0, edges[|edges| - 1].1)
  }

  /** Some listed edge has u as one of its ends. */
  ghost predicate Touches(edges: seq<(int, int)>, u: int)
  {
    exists k :: 0 <= k < |edges| && (edges[k].0 == u || edges[k].1 == u)
  }

  /** Some listed edge joins u and v, in either direction. */
  ghost predicate Joins(edges: seq<(int, int)>, u: int, v: int)
  {
    exists k :: 0 <= k < |edges| && (edges[k] == (u, v) || edges[k] == (v, u))
  }

  lemma SplitLast(edges: seq<(int, int)>, u: int, v: int)
    requires edges != []
    ensures Touches(edges, u) <==> Touches(edges[..|edges| - 1], u) || edges[|edges| - 1].0 == u || edges[|edges| - 1].1 == u
    ensures Joins(edges, u, v) <==> Joins(edges[..|edges| - 1], u, v) || edges[|edges| - 1] == (u, v) || edges[|edges| - 1] == (v, u)
  {
    var init := edges[..|edges| - 1];
    if Touches(edges, u) {
      var k :| 0 <= k < |edges| && (edges[k].0 == u || edges[k].1 == u);
      if k < |init| { assert init[k] == edges[k]; }
    }
    if Touches(init, u) {
      var k :| 0 <= k < |init| && (init[k].0 == u || init[k].1 == u);
      assert edges[k] == init[k];
    }
    if Joins(edges, u, v) {
      var k :| 0 <= k < |edges| && (edges[k] == (u, v) || edges[k] == (v, u));
      if k < |init| { assert init[k] == edges[k]; }
    }
    if Joins(init, u, v) {
      var k :| 0 <= k < |init| && (init[k] == (u, v) || init[k] == (v, u));
      assert edges[k] == init[k];
    }
  }

  /** The nodes of FromEdges are the edge ends. */
  lemma {:induction false} FromEdgesNodes(edges: seq<(int, int)>, u: int)
    ensures u in FromEdges(edges) <==> Touches(edges, u)
  {
    if edges != [] {
      FromEdgesNodes(edges[..|edges| - 1], u);
      SplitLast(edges, u, u);
    }
  }

  /** u and v are neighbours in FromEdges iff some listed edge joins them. */
  lemma {:induction false} FromEdgesJoins(edges: seq<(int, int)>, u: int, v: int)
    ensures (u in FromEdges(edges) && v in FromEdges(edges)[u]) <==> Joins(edges, u, v)
  {
    if edges != [] {
      FromEdgesJoins(edges[..|edges| - 1], u, v);
      SplitLast(edges, u, v);
    }
  }

  /**
   * The distribution copy of `GraphInfo.__init__` renumbers nodes 0..n-1 to
   * 1..n by adding every edge with both ends moved up by one.
   */
  method Renumber(edges: seq<(int, int)>) returns (g: Adj)
    ensures g == FromEdges(Shift(edges))
  {
    g := map[];
    for i := 0 to |edges|
      invariant g == FromEdges(Shift(edges[..i]))
    {
      assert edges[..i + 1][..i] == edges[..i];
      g := AddUndirectedEdge(g, edges[i].0 + 1, edges[i].1 + 1);
    }
    assert edges[..|edges|] == edges;
  }

  lemma ShiftAt(edges: seq<(int, int)>, k: int)
    requires 0 <= k < |edges|
    ensures Shift(edges)[k].0 == edges[k].0 + 1 && Shift(edges)[k].1 == edges[k].1 + 1
  {
  }

  /** After renumbering, u is a node iff u - 1 ended an input edge. */
  lemma RenumberNodes(edges: seq<(int, int)>, u: int)
    ensures u in FromEdges(Shift(edges)) <==> Touches(edges, u - 1)
  {
    var s := Shift(edges);
    FromEdgesNodes(s, u);
    if Touches(edges, u - 1) {
      var k :| 0 <= k < |edges| && (edges[k].0 == u - 1 || edges[k].1 == u - 1);
      assert s[k].0 == u || s[k].1 == u;
    }
    if Touches(s, u) {
      var k :| 0 <= k < |s| && (s[k].0 == u || s[k].1 == u);
      assert edges[k].0 == u - 1 || edges[k].1 == u - 1;
    }
  }

  lemma JoinsShift(edges: seq<(int, int)>, u: int, v: int)
    ensures Joins(Shift(edges), u, v) <==> Joins(edges, u - 1, v - 1)
  {
    var s := Shift(edges);
    if Joins(edges, u - 1, v - 1) {
      var k :| 0 <= k < |edges| && (edges[k] == (u - 1, v - 1) || edges[k] == (v - 1, u - 1));
      ShiftAt(edges, k);
      assert s[k] == (u, v) || s[k] == (v, u);
    }
    if Joins(s, u, v) {
      var k :| 0 <= k < |s| && (s[k] == (u, v) || s[k] == (v, u));
      ShiftAt(edges, k);
      assert edges[k] == (u - 1, v - 1) || edges[k] == (v - 1, u - 1);
    }
  }

  /** After renumbering, u and v are neighbours iff an input edge joined u - 1 and v - 1. */
  lemma RenumberJoins(edges: seq<(int, int)>, u: int, v: int)
    ensures (u in FromEdges(Shift(edges)) && v in FromEdges(Shift(edges))[u]) <==> Joins(edges, u - 1, v - 1)
  {
    FromEdgesJoins(Shift(edges), u, v);
    JoinsShift(edges, u, v);
  }

  /** `controller_number`: every draw `random.randint(1, 1)` is controller 1. */
  const ControllerNumber := 1

  /** `sw_to_cid` after the assignment loop: the last draw for each node. */
  function SwToCid(nodes: seq<int>, draws: seq<int>): map<int, int>
    requires |draws| == |nodes|
  {
    if nodes == [] then map[]
    else SwToCid(nodes[..|nodes| - 1], draws[..|nodes| - 1])[nodes[|nodes| - 1] := draws[|nodes| - 1]]
  }

  /** `cid_to_swes` after the assignment loop: each controller's nodes in loop order. */
  function CidToSwes(nodes: seq<int>, draws: seq<int>): map<int, seq<int>>
    requires |draws| == |nodes|
  {
    if nodes == [] then map[]
    else
      var m := CidToSwes(nodes[..|nodes| - 1], draws[..|nodes| - 1]);
      var c := draws[|nodes| - 1];
      m[c := (if c in m then m[c] else []) + [nodes[|nodes| - 1]]]
  }

  /**
   * The assignment loop of `GraphInfo.__init__`: node k goes to controller
   * draws[k], drawn by `random.randint(1, controller_number)`.
   */
  method AssignControllers(nodes: seq<int>, draws: seq<int>) returns (cidToSwes: map<int, seq<int>>, swToCid: map<int, int>)
    requires |draws| == |nodes|
    requires forall k :: 0 <= k < |draws| ==> 1 <= draws[k] <= ControllerNumber
    ensures cidToSwes == CidToSwes(nodes, draws) && swToCid == SwToCid(nodes, draws)
  {
    cidToSwes, swToCid := map[], map[];
    for k := 0 to |nodes|
      invariant cidToSwes == CidToSwes(nodes[..k], draws[..k]) && swToCid == SwToCid(nodes[..k], draws[..k])
    {
      assert nodes[..k + 1][..k] == nodes[..k] && draws[..k + 1][..k] == draws[..k];
      var cid := draws[k];
      if cid !in cidToSwes {
        cidToSwes := cidToSwes[cid := []];
      }
      cidToSwes := cidToSwes[cid := cidToSwes[cid] + [nodes[k]]];
      swToCid := swToCid[nodes[k] := cid];
    }
    assert nodes[..|nodes|] == nodes && draws[..|draws|] == draws;
  }

  /** `sw_to_cid` has exactly the assigned nodes. */
  lemma {:induction false} SwToCidKeys(nodes: seq<int>, draws: seq<int>)
    requires |draws| == |nodes|
    ensures SwToCid(nodes, draws).Keys == set n | n in nodes
  {
    if nodes != [] {
      var init := nodes[..|nodes| - 1];
      SwToCidKeys(init, draws[..|nodes| - 1]);
      assert nodes == init + [nodes[|nodes| - 1]];
      assert (set n | n in nodes) == (set n | n in init) + {nodes[|nodes| - 1]};
    }
  }

  /**
   * Whatever the draws, a node of a distinct node list is in controller c's
   * list iff `sw_to_cid` names c, and the lists hold only assigned nodes.
   */
  lemma {:induction false} AssignmentPartitions(nodes: seq<int>, draws: seq<int>, n: int, c: int)
    requires |draws| == |nodes| && Distinct(nodes)
    ensures (c in CidToSwes(nodes, draws) && n in CidToSwes(nodes, draws)[c]) <==>
      (n in SwToCid(nodes, draws) && SwToCid(nodes, draws)[n] == c)
  {
    if nodes != [] {
      var init, dinit := nodes[..|nodes| - 1], draws[..|nodes| - 1];
      var last := nodes[|nodes| - 1];
      assert Distinct(init) by {
        forall i, j | 0 <= i < j < |init| ensures init[i] != init[j] {
          assert init[i] == nodes[i] && init[j] == nodes[j];
        }
      }
      AssignmentPartitions(init, dinit, n, c);
      if n == last {
        SwToCidKeys(init, dinit);
        assert n !in SwToCid(init, dinit);
        assert !(c in CidToSwes(init, dinit) && n in CidToSwes(init, dinit)[c]);
      }
    }
  }

  /** With the single controller of the source, every node is assigned to controller 1. */
  lemma SingleController(nodes: seq<int>, draws: seq<int>)
    requires |draws| == |nodes|
    requires forall k :: 0 <= k < |draws| ==> 1 <= draws[k] <= ControllerNumber
    ensures forall n :: n in nodes ==> n in SwToCid(nodes, draws) && SwToCid(nodes, draws)[n] == 1
  {
    SwToCidKeys(nodes, draws);
    forall n | n in nodes ensures n in SwToCid(nodes, draws) && SwToCid(nodes, draws)[n] == 1 {
      SwToCidIsADraw(nodes, draws, n);
    }
  }

  lemma {:induction false} SwToCidIsADraw(nodes: seq<int>, draws: seq<int>, n: int)
    requires |draws| == |nodes| && n in SwToCid(nodes, draws)
    ensures exists k :: 0 <= k < |draws| && SwToCid(nodes, draws)[n] == draws[k]
  {
    var init, dinit := nodes[..|nodes| - 1], draws[..|nodes| - 1];
    if n != nodes[|nodes| - 1] {
      SwToCidIsADraw(init, dinit, n);
      var k :| 0 <= k < |dinit| && SwToCid(init, dinit)[n] == dinit[k];
      assert draws[k] == dinit[k];
    } else {
      assert SwToCid(nodes, draws)[n] == draws[|nodes| - 1];
    }
  }

  /**
   * The numbering loop of `GraphInfo.__init__`: `src_to_group_no[s] = group_no`
   * for the sources in iteration order, from 1.
   */
  method NumberSources(sources: seq<int>) returns (srcToGroupNo: map<int, int>)
    requires Distinct(sources)
    ensures srcToGroupNo.Keys == set s | s in sources
    ensures forall k :: 0 <= k < |sources| ==> srcToGroupNo[sources[k]] == k + 1
  {
    srcToGroupNo := map[];
    var groupNo := 1;
    for k := 0 to |sources|
      invariant groupNo == k + 1
      invariant srcToGroupNo.Keys == set s | s in sources[..k]
      invariant forall m :: 0 <= m < k ==> srcToGroupNo[sources[m]] == m + 1
    {
      srcToGroupNo := srcToGroupNo[sources[k] := groupNo];
      groupNo := groupNo + 1;
      assert sources[..k + 1] == sources[..k] + [sources[k]];
    }
    assert sources[..|sources|] == sources;
  }

  /** `src_to_group_ip(src)`: the address of the source's group; an unknown source is a KeyError. */
  function SrcToGroupIp(srcToGroupNo: map<int, int>, src: int): (r: Option<string>)
    ensures r.Some? <==> src in srcToGroupNo
    ensures r.Some? ==> |r.value| > 8 && r.value[..8] == "224.0.1." && r.value[8..] == IntToString(srcToGroupNo[src])
  {
    if src in srcToGroupNo then Some(GroupIp(srcToGroupNo[src])) else None
  }

  /** Sources numbered by NumberSources get pairwise different group addresses. */
  lemma NumberedSourcesHaveDistinctIps(sources: seq<int>, srcToGroupNo: map<int, int>, i: int, j: int)
    requires 0 <= i < j < |sources|
    requires forall k :: 0 <= k < |sources| ==> sources[k] in srcToGroupNo && srcToGroupNo[sources[k]] == k + 1
    ensures SrcToGroupIp(srcToGroupNo, sources[i]) != SrcToGroupIp(srcToGroupNo, sources[j])
  {
    assert SrcToGroupIp(srcToGroupNo, sources[i]) == Some(GroupIp(i + 1));
    assert SrcToGroupIp(srcToGroupNo, sources[j]) == Some(GroupIp(j + 1));
    if GroupIp(i + 1) == GroupIp(j + 1) {
      GroupIpInjective(i + 1, j + 1);
    }
  }

  /** Sum of a list of integers. */
  function Sum(xs: seq<int>): int
  {
    if xs == [] then 0 else Sum(xs[..|xs| - 1]) + xs[|xs| - 1]
  }

  /** The bandwidths of the listed edges, added up. */
  function SumOver(edges: seq<(int, int)>, bw: map<(int, int), int>): int
    requires forall k :: 0 <= k < |edges| ==> edges[k] in bw
  {
    if edges == [] then 0 else SumOver(edges[..|edges| - 1], bw) + bw[edges[|edges| - 1]]
  }

  /**
   * `set_random_bw(g, name, lo, hi)`: edge k gets bandwidth draws[k] (a
   * `random.randint(lo, hi)`) and the returned total is the sum of the draws,
   * which for the distinct edges of a graph is the sum of the assigned
   * bandwidths.
   */
  method SetRandomBw(edges: seq<(int, int)>, draws: seq<int>) returns (bw: map<(int, int), int>, tot: int)
    requires |draws| == |edges|
    ensures forall k :: 0 <= k < |edges| ==> edges[k] in bw
    ensures Distinct(edges) ==> forall k :: 0 <= k < |edges| ==> bw[edges[k]] == draws[k]
    ensures tot == Sum(draws)
    ensures Distinct(edges) ==> tot == SumOver(edges, bw)
  {
    bw, tot := map[], 0;
    for k := 0 to |edges|
      invariant forall m :: 0 <= m < k ==> edges[m] in bw
      invariant Distinct(edges) ==> forall m :: 0 <= m < k ==> bw[edges[m]] == draws[m]
      invariant forall e :: e in bw ==> exists m :: 0 <= m < k && edges[m] == e
      invariant tot == Sum(draws[..k])
    {
      assert draws[..k + 1][..k] == draws[..k];
      bw := bw[edges[k] := draws[k]];
      tot := tot + draws[k];
    }
    assert draws[..|draws|] == draws;
    if Distinct(edges) {
      SumOverDraws(edges, draws, bw);
    }
  }

  lemma {:induction false} SumOverDraws(edges: seq<(int, int)>, draws: seq<int>, bw: map<(int, int), int>)
    requires |draws| == |edges|
    requires forall k :: 0 <= k < |edges| ==> edges[k] in bw && bw[edges[k]] == draws[k]
    ensures SumOver(edges, bw) == Sum(draws)
  {
    if edges != [] {
      SumOverDraws(edges[..|edges| - 1], draws[..|edges| - 1], bw);
    }
  }

  /** With every draw in lo..hi, the total lies between lo and hi times the number of edges. */
  lemma {:induction false} SumBounds(draws: seq<int>, lo: int, hi: int)
    requires forall k :: 0 <= k < |draws| ==> lo <= draws[k] <= hi
    ensures lo * |draws| <= Sum(draws) <= hi * |draws|
  {
    if draws != [] {
      SumBounds(draws[..|draws| - 1], lo, hi);
    }
  }

  // ---------------------------------------------------------------------
  // GraphInfo: receiver churn

  /** The receivers per source that `add_random_r` / `remove_random_r` change in place. */
  class Receivers {
    var s2r: map<int, set<int>>

    constructor (s2r0: map<int, set<int>>)
      ensures s2r == s2r0
    {
      s2r := s2r0;
    }

    /**
     * `add_random_r`: for the drawn source s, draw nodes until one is not yet a
     * receiver and add it. `draws` are the successive `random.choice(nodes)`;
     * one of them is fresh, or the source loop would not end.
     */
    method AddRandomR(s: int, draws: seq<int>) returns (r: int)
      requires s in s2r
      requires exists k :: 0 <= k < |draws| && draws[k] !in s2r[s]
      modifies this
      ensures r !in old(s2r)[s]
      ensures exists k :: 0 <= k < |draws| && draws[k] == r && forall m :: 0 <= m < k ==> draws[m] in old(s2r)[s]
      ensures s2r == old(s2r)[s := old(s2r)[s] + {r}]
    {
      ghost var w :| 0 <= w < |draws| && draws[w] !in s2r[s];
      var i := 0;
      r := draws[0];
      while r in s2r[s]
        invariant 0 <= i <= w && r == draws[i]
        invariant forall m :: 0 <= m < i ==> draws[m] in s2r[s]
        decreases w - i
      {
        i := i + 1;
        r := draws[i];
      }
      s2r := s2r[s := s2r[s] + {r}];
    }

    /**
     * `remove_random_r`: remove the drawn receiver r of the drawn source s;
     * `random.choice` on a source without receivers raises IndexError.
     */
    method RemoveRandomR(s: int, r: int) returns (raised: bool)
      requires s in s2r
      requires s2r[s] != {} ==> r in s2r[s]
      modifies this
      ensures raised <==> old(s2r)[s] == {}
      ensures raised ==> s2r == old(s2r)
      ensures !raised ==> r in old(s2r)[s] && s2r == old(s2r)[s := old(s2r)[s] - {r}]
    {
      if s2r[s] == {} {
        return true;
      }
      s2r := s2r[s := s2r[s] - {r}];
      return false;
    }
  }

  /** Adding a receiver that was absent and then removing it restores the receivers. */
  lemma AddThenRemove(s2r: map<int, set<int>>, s: int, r: int)
    requires s in s2r && r !in s2r[s]
    ensures s2r[s := s2r[s] + {r}][s := (s2r[s] + {r}) - {r}] == s2r
  {
    assert (s2r[s] + {r}) - {r} == s2r[s];
  }

  // ---------------------------------------------------------------------
  // GraphInfoServer (mobility): the one-shot "latest graph" flag

  /** The class attributes `is_latest` and `g`. */
  datatype ServerState = ServerState(isLatest: bool, g: Option<Adj>)

  /** What `latest_graph` returns: `(False, None)` or `(True, g)`. */
  datatype Reply = Reply(updated: bool, graph: Option<Adj>)

  /** `latest_graph()`: the new state and the reply. */
  function LatestGraph(st: ServerState): (ServerState, Reply)
  {
    if !st.isLatest then (st, Reply(false, None)) else (st.(isLatest := false), Reply(true, st.g))
  }

  /**
   * One round of `update_graph`: when the traced graph is not isomorphic to
   * the previous one (`isomorphic` stands for `networkx.is_isomorphic`), it
   * is stored, flagged and becomes the previous one. Returns the new state
   * and the new previous graph.
   */
  function UpdateRound(st: ServerState, pre: Adj, cur: Adj, isomorphic: bool): (ServerState, Adj)
  {
    if !isomorphic then (ServerState(true, Some(cur)), cur) else (st, pre)
  }

  /** Without a pending update the reply is `(False, None)` and nothing changes. */
  lemma NoUpdatePending(st: ServerState)
    requires !st.isLatest
    ensures LatestGraph(st) == (st, Reply(false, None))
  {
  }

  /** Each update is delivered once: a second call right after returns `(False, None)`. */
  lemma DeliveredOnce(st: ServerState)
    ensures LatestGraph(LatestGraph(st).0).1 == Reply(false, None)
    ensures st.isLatest ==> LatestGraph(st).1 == Reply(true, st.g)
  {
  }

  /** After a round that saw a changed graph, the next `latest_graph` delivers that graph. */
  lemma UpdateThenDeliver(st: ServerState, pre: Adj, cur: Adj, isomorphic: bool)
    ensures !isomorphic ==> LatestGraph(UpdateRound(st, pre, cur, isomorphic).0).1 == Reply(true, Some(cur))
    ensures isomorphic ==> UpdateRound(st, pre, cur, isomorphic) == (st, pre)
  {
  }

  /** The server object whose two members update the shared flag. */
  class GraphInfoServer {
    var isLatest: bool
    var g: Option<Adj>

    constructor ()
      ensures !isLatest && g == None
    {
      isLatest, g := false, None;
    }

    method LatestGraphCall() returns (reply: Reply)
      modifies this
      ensures (ServerState(isLatest, g), reply) == LatestGraph(ServerState(old(isLatest), old(g)))
    {
      if !isLatest {
        return Reply(false, None);
      }
      isLatest := false;
      return Reply(true, g);
    }

    method UpdateGraphRound(pre: Adj, cur: Adj, isomorphic: bool) returns (pre': Adj)
      modifies this
      ensures (ServerState(isLatest, g), pre') == UpdateRound(ServerState(old(isLatest), old(g)), pre, cur, isomorphic)
    {
      pre' := pre;
      if !isomorphic {
        isLatest := true;
        g := Some(cur);
        pre' := cur;
      }
    }
  }
}
