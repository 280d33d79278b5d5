// The mobility experiment's Ryu app (ryu/app/mobility/controller.py): it
// rebuilds its view of the network from the served link list, keeps only
// the receivers a source can still reach, computes the group-table ports of
// every switch of a routing tree, and runs the shared ARP learning under a
// lock. Sockets, the HTTP calls and the OpenFlow messages themselves are not
// modelled; a message to a switch is an Install value.

module MobilityController {
  import opened Common
  import opened SwitchTables
  import opened DistributionState

  // ---------------------------------------------------------------------
  // parse_graph

  /** "eth" starts at index j of s. */
  predicate EthAt(s: string, j: int)
  {
    0 <= j && j + 3 <= |s| && s[j] == 'e' && s[j + 1] == 't' && s[j + 2] == 'h'
  }

  /** The first index from `from` on where "eth" starts, or -1. */
  function FindEthFrom(s: string, from: nat): (i: int)
    ensures i == -1 || (from <= i && EthAt(s, i))
    ensures forall j :: from <= j && (i == -1 || j < i) ==> !EthAt(s, j)
    decreases |s| - from
  {
    if from + 3 > |s| then -1
    else if EthAt(s, from) then from
    else FindEthFrom(s, from + 1)
  }

  /** `s.find('eth')`: the first index where "eth" starts, or -1. */
  function FindEth(s: string): (i: int)
    ensures i == -1 || EthAt(s, i)
    ensures forall j :: 0 <= j && (i == -1 || j < i) ==> !EthAt(s, j)
  {
    FindEthFrom(s, 0)
  }

  /** Python `s[k:]` for k >= 0: empty once k passes the end. */
  function SliceFrom(s: string, k: nat): (t: string)
    ensures |t| <= |s|
  {
    if k >= |s| then [] else s[k..]
  }

  /** `int(intf[intf.find('eth') + 3:])`. */
  function PortOf(intf: string): Option<int>
  {
    ParsePyInt(SliceFrom(intf, FindEth(intf) + 3))
  }

  /** For a Mininet interface name `s<n>-eth<p>` the port is p, and the first character cut off the node name leaves n. */
  lemma MininetNamesParse(n: nat, p: nat)
    ensures PortOf("s" + NatToString(n) + "-eth" + NatToString(p)) == Some(p)
    ensures ParsePyInt(Tail("s" + NatToString(n))) == Some(n)
  {
    var d, q := NatToString(n), NatToString(p);
    var s := "s" + d + "-eth" + q;
    var at := |d| + 2;
    assert EthAt(s, at);
    forall j | 0 <= j < at
      ensures !EthAt(s, j)
    {
      if 1 <= j <= |d| {
        assert s[j] == d[j - 1];
        assert IsDigit(s[j]);
      }
    }
    assert FindEth(s) == at;
    assert SliceFrom(s, at + 3) == q;
    ParsePyIntOfString(p);
    assert Tail("s" + d) == d;
    ParsePyIntOfString(n);
  }

  /** A parsed link: both node ids, both out-ports, the delay and the bandwidth. */
  datatype LinkEntry = LinkEntry(src: int, dst: int, srcOut: int, dstOut: int, delay: int, bandwidth: int)

  /**
   * One tuple of the link list. parse_graph unpacks it into eight fields
   * `src, src_intf, src_mac, dst, dst_intf, dst_mac, bw, delay`; any other
   * arity, and any field `int` rejects, is an error (None).
   */
  function ParseLink(fields: seq<string>): (r: Option<LinkEntry>)
    ensures |fields| != 8 ==> r.None?
  {
    if |fields| != 8 then None
    else
      var src, dst := ParsePyInt(Tail(fields[0])), ParsePyInt(Tail(fields[3]));
      var srcOut, dstOut := PortOf(fields[1]), PortOf(fields[4]);
      var bw, delay := ParsePyInt(fields[6]), ParsePyInt(fields[7]);
      if src.None? || dst.None? || srcOut.None? || dstOut.None? || bw.None? || delay.None? then None
      else Some(LinkEntry(src.value, dst.value, srcOut.value, dstOut.value, delay.value, bw.value))
  }

  /** Edge attributes `weight=int(delay), bandwidth=int(bw)`. */
  datatype EdgeAttr = EdgeAttr(weight: int, bandwidth: int)

  /** The networkx graph (nodes, and edge attributes keyed by the ordered pair) and `dpid_to_port`. */
  datatype View = View(nodes: set<int>, edges: map<(int, int), EdgeAttr>, dpidToPort: map<(int, int), int>)

  function Key(a: int, b: int): (int, int)
  {
    if a <= b then (a, b) else (b, a)
  }

  /** Nodes 1..8 are added before any link. */
  const FixedNodes: set<int> := {1, 2, 3, 4, 5, 6, 7, 8}

  const InitialView := View(FixedNodes, map[], map[])

  /** The effect of one link on the view: `add_edge` and both `dpid_to_port` entries. */
  function AddLink(v: View, l: LinkEntry): View
  {
    View(v.nodes + {l.src, l.dst},
         v.edges[Key(l.src, l.dst) := EdgeAttr(l.delay, l.bandwidth)],
         v.dpidToPort[(l.src, l.dst) := l.srcOut][(l.dst, l.src) := l.dstOut])
  }

  /** The view after the links, left to right, or None when one of them is rejected. */
  function Fold(v: View, links: seq<seq<string>>): Option<View>
    decreases |links|
  {
    if links == [] then Some(v)
    else
      match ParseLink(links[0])
      case None => None
      case Some(l) => Fold(AddLink(v, l), links[1..])
  }

  /** `parse_graph(links)`; None stands for the exception it raises. */
  method ParseGraph(links: seq<seq<string>>) returns (r: Option<View>)
    ensures r == Fold(InitialView, links)
  {
    var v := InitialView;
    var i := 0;
    while i < |links|
      invariant 0 <= i <= |links|
      invariant Fold(InitialView, links) == Fold(v, links[i..])
    {
      assert links[i..][1..] == links[i + 1..];
      var l := ParseLink(links[i]);
      if l.None? {
        return None;
      }
      v := AddLink(v, l.value);
      i := i + 1;
    }
    assert links[i..] == [];
    r := Some(v);
  }

  /** Every tuple parsed, or None when one is rejected. */
  function ParsedLinks(links: seq<seq<string>>): (r: Option<seq<LinkEntry>>)
    ensures r.Some? <==> forall k :: 0 <= k < |links| ==> ParseLink(links[k]).Some?
    ensures r.Some? ==> |r.value| == |links| && forall k :: 0 <= k < |links| ==> r.value[k] == ParseLink(links[k]).value
  {
    AllParsed(ParseEach(links))
  }

  /** Each tuple parsed on its own. */
  function ParseEach(links: seq<seq<string>>): (ps: seq<Option<LinkEntry>>)
    ensures |ps| == |links| && forall k :: 0 <= k < |links| ==> ps[k] == ParseLink(links[k])
  {
    seq(|links|, k requires 0 <= k < |links| => ParseLink(links[k]))
  }

  /** The values when every entry is present, otherwise None. */
  function AllParsed(ps: seq<Option<LinkEntry>>): (r: Option<seq<LinkEntry>>)
    ensures r.Some? <==> forall k :: 0 <= k < |ps| ==> ps[k].Some?
    ensures r.Some? ==> |r.value| == |ps| && forall k :: 0 <= k < |ps| ==> r.value[k] == ps[k].value
    decreases |ps|
  {
    if ps == [] then Some([])
    else
      var rest := ps[1..];
      assert forall k :: 0 <= k < |rest| ==> rest[k] == ps[k + 1];
      match ps[0]
      case None => None
      case Some(l) =>
        match AllParsed(rest)
        case None => None
        case Some(ls) => Some([l] + ls)
  }

  /** ParsedLinks on a non-empty list: the first tuple, then the rest. */
  lemma ParsedLinksCons(links: seq<seq<string>>)
    requires links != []
    ensures ParsedLinks(links) ==
      match ParseLink(links[0])
      case None => None
      case Some(l) => match ParsedLinks(links[1..]) case None => None case Some(ls) => Some([l] + ls)
  {
    var ps := ParseEach(links);
    assert ps[1..] == ParseEach(links[1..]);
  }

  /** The view after the parsed links, left to right. */
  function Apply(v: View, ls: seq<LinkEntry>): View
    decreases |ls|
  {
    if ls == [] then v else Apply(AddLink(v, ls[0]), ls[1..])
  }

  lemma {:induction false} FoldIsApply(v: View, links: seq<seq<string>>)
    ensures Fold(v, links) == if ParsedLinks(links).None? then None else Some(Apply(v, ParsedLinks(links).value))
    decreases |links|
  {
    if links != [] {
      ParsedLinksCons(links);
    }
    if links != [] && ParseLink(links[0]).Some? {
      FoldIsApply(AddLink(v, ParseLink(links[0]).value), links[1..]);
    }
  }

  /** The node ids named by the links. */
  function NodesOf(ls: seq<LinkEntry>): set<int>
  {
    if ls == [] then {} else {ls[0].src, ls[0].dst} + NodesOf(ls[1..])
  }

  /** Both directions of every link. */
  function PortKeys(ls: seq<LinkEntry>): set<(int, int)>
  {
    if ls == [] then {} else {(ls[0].src, ls[0].dst), (ls[0].dst, ls[0].src)} + PortKeys(ls[1..])
  }

  /** The unordered pairs of the links. */
  function EdgeKeys(ls: seq<LinkEntry>): set<(int, int)>
  {
    if ls == [] then {} else {Key(ls[0].src, ls[0].dst)} + EdgeKeys(ls[1..])
  }

  lemma {:induction false} NodesOfMembers(ls: seq<LinkEntry>, x: int)
    ensures x in NodesOf(ls) <==> exists k :: 0 <= k < |ls| && (ls[k].src == x || ls[k].dst == x)
  {
    if ls != [] {
      NodesOfMembers(ls[1..], x);
      if exists k :: 0 <= k < |ls| && (ls[k].src == x || ls[k].dst == x) {
        var k :| 0 <= k < |ls| && (ls[k].src == x || ls[k].dst == x);
        if k > 0 {
          assert ls[1..][k - 1] == ls[k];
        }
      }
      if exists k :: 0 <= k < |ls[1..]| && (ls[1..][k].src == x || ls[1..][k].dst == x) {
        var k :| 0 <= k < |ls[1..]| && (ls[1..][k].src == x || ls[1..][k].dst == x);
        assert ls[k + 1] == ls[1..][k];
      }
    }
  }

  /**
   * The view the links build: the nodes it started with plus every endpoint,
   * a port for both directions of every link, an edge for every pair.
   */
  lemma {:induction false} ApplyShape(v: View, ls: seq<LinkEntry>)
    ensures Apply(v, ls).nodes == v.nodes + NodesOf(ls)
    ensures Apply(v, ls).dpidToPort.Keys == v.dpidToPort.Keys + PortKeys(ls)
    ensures Apply(v, ls).edges.Keys == v.edges.Keys + EdgeKeys(ls)
    decreases |ls|
  {
    if ls != [] {
      ApplyShape(AddLink(v, ls[0]), ls[1..]);
    }
  }

  /**
   * parse_graph succeeds exactly when every tuple parses, and its graph
   * then has the nodes 1..8 and the endpoints of the links, and nothing else.
   */
  lemma ParseGraphNodes(links: seq<seq<string>>, x: int)
    ensures Fold(InitialView, links).Some? <==> forall k :: 0 <= k < |links| ==> ParseLink(links[k]).Some?
    ensures Fold(InitialView, links).Some? ==>
      (x in Fold(InitialView, links).value.nodes <==>
        x in FixedNodes || exists k :: 0 <= k < |links| && (ParseLink(links[k]).value.src == x || ParseLink(links[k]).value.dst == x))
  {
    FoldIsApply(InitialView, links);
    if Fold(InitialView, links).Some? {
      var ls := ParsedLinks(links).value;
      ApplyShape(InitialView, ls);
      NodesOfMembers(ls, x);
    }
  }

  /**
   * Both directions of a link carry that link's out-ports once no later link
   * touches the same pair of nodes (for a self-loop the second write wins).
   */
  lemma {:induction false} LastLinkPorts(v: View, ls: seq<LinkEntry>, k: int)
    requires 0 <= k < |ls|
    requires forall j :: k < j < |ls| ==> Key(ls[j].src, ls[j].dst) != Key(ls[k].src, ls[k].dst)
    ensures var m, w := ls[k], Apply(v, ls);
      (m.src, m.dst) in w.dpidToPort && (m.dst, m.src) in w.dpidToPort &&
      w.dpidToPort[(m.dst, m.src)] == m.dstOut &&
      (m.src != m.dst ==> w.dpidToPort[(m.src, m.dst)] == m.srcOut)
    decreases |ls|
  {
    var rest := ls[1..];
    assert forall j :: 0 <= j < |rest| ==> rest[j] == ls[j + 1];
    if k == 0 {
      KeepsPorts(AddLink(v, ls[0]), rest, ls[0]);
    } else {
      LastLinkPorts(AddLink(v, ls[0]), rest, k - 1);
    }
  }

  /** Links on other node pairs leave the ports recorded for m alone. */
  lemma {:induction false} KeepsPorts(v: View, ls: seq<LinkEntry>, m: LinkEntry)
    requires (m.src, m.dst) in v.dpidToPort && (m.dst, m.src) in v.dpidToPort
    requires forall j :: 0 <= j < |ls| ==> Key(ls[j].src, ls[j].dst) != Key(m.src, m.dst)
    ensures var w := Apply(v, ls);
      (m.src, m.dst) in w.dpidToPort && (m.dst, m.src) in w.dpidToPort &&
      w.dpidToPort[(m.src, m.dst)] == v.dpidToPort[(m.src, m.dst)] &&
      w.dpidToPort[(m.dst, m.src)] == v.dpidToPort[(m.dst, m.src)]
    decreases |ls|
  {
    if ls != [] {
      var rest := ls[1..];
      assert forall j :: 0 <= j < |rest| ==> rest[j] == ls[j + 1];
      var l := ls[0];
      assert Key(l.src, l.dst) != Key(m.src, m.dst);
      KeepsPorts(AddLink(v, l), rest, m);
    }
  }

  /** The six-field tuple `(src, src_intf, src_mac, dst, dst_intf, dst_mac)` the experiment server serves for a link. */
  function ServedTuple(l: NetLink): (t: seq<string>)
    ensures |t| == 6
  {
    [l.srcName, l.srcPortName, l.srcPortMac, l.dstName, l.dstPortName, l.dstPortMac]
  }

  /**
   * The experiment server serves six fields per link and parse_graph unpacks
   * eight, so parse_graph raises on every non-empty link list it is served.
   */
  lemma ServedLinksRejected(served: seq<NetLink>)
    requires served != []
    ensures Fold(InitialView, seq(|served|, k requires 0 <= k < |served| => ServedTuple(served[k]))) == None
  {
  }

  /**
   * The tuple parse_graph evidently expects: the six served fields followed
   * by the link's bandwidth and delay.
   */
  function ServedTupleIntended(l: NetLink, bw: int, delay: int): (t: seq<string>)
    ensures |t| == 8 && t[..6] == ServedTuple(l)
  {
    [l.srcName, l.srcPortName, l.srcPortMac, l.dstName, l.dstPortName, l.dstPortMac, IntToString(bw), IntToString(delay)]
  }

  /**
   * With the bandwidth and delay served as well, a switch link named the way
   * Mininet names it parses to its two switches, both out-ports and both
   * attributes.
   */
  lemma ServedIntendedParses(a: nat, pa: nat, b: nat, pb: nat, ma: string, mb: string, bw: int, delay: int)
    ensures ParseLink(ServedTupleIntended(NetLink("s" + NatToString(a), "s" + NatToString(a) + "-eth" + NatToString(pa), ma,
                                                  "s" + NatToString(b), "s" + NatToString(b) + "-eth" + NatToString(pb), mb), bw, delay))
      == Some(LinkEntry(a, b, pa, pb, delay, bw))
  {
    var l := NetLink("s" + NatToString(a), "s" + NatToString(a) + "-eth" + NatToString(pa), ma,
                     "s" + NatToString(b), "s" + NatToString(b) + "-eth" + NatToString(pb), mb);
    var t := ServedTupleIntended(l, bw, delay);
    assert t[0] == l.srcName && t[1] == l.srcPortName && t[3] == l.dstName && t[4] == l.dstPortName;
    assert t[6] == IntToString(bw) && t[7] == IntToString(delay);
    LinkNamesParse(l, a, pa, b, pb);
    ParsePyIntOfString(bw);
    ParsePyIntOfString(delay);
    ParseLinkOf(t, a, b, pa, pb, delay, bw);
  }

  lemma LinkNamesParse(l: NetLink, a: nat, pa: nat, b: nat, pb: nat)
    requires l.srcName == "s" + NatToString(a) && l.srcPortName == "s" + NatToString(a) + "-eth" + NatToString(pa)
    requires l.dstName == "s" + NatToString(b) && l.dstPortName == "s" + NatToString(b) + "-eth" + NatToString(pb)
    ensures ParsePyInt(Tail(l.srcName)) == Some(a) && PortOf(l.srcPortName) == Some(pa)
    ensures ParsePyInt(Tail(l.dstName)) == Some(b) && PortOf(l.dstPortName) == Some(pb)
  {
    MininetNamesParse(a, pa);
    MininetNamesParse(b, pb);
  }

  /** Eight fields whose parts all read back parse to the link they name. */
  lemma ParseLinkOf(t: seq<string>, a: int, b: int, pa: int, pb: int, delay: int, bw: int)
    requires |t| == 8
    requires ParsePyInt(Tail(t[0])) == Some(a) && ParsePyInt(Tail(t[3])) == Some(b)
    requires PortOf(t[1]) == Some(pa) && PortOf(t[4]) == Some(pb)
    requires ParsePyInt(t[6]) == Some(bw) && ParsePyInt(t[7]) == Some(delay)
    ensures ParseLink(t) == Some(LinkEntry(a, b, pa, pb, delay, bw))
  {
  }

  // ---------------------------------------------------------------------
  // topo_trigger: the receivers a source can still reach

  /**
   * `s2r[s] = {r in S2R[s] | nx.has_path(g, s, r)}` for every source; the
   * path test is a parameter.
   */
  /** Every source is kept, each with exactly its receivers that a path reaches. */
  ghost predicate KeepsReachable(r: map<int, set<int>>, s2r: map<int, set<int>>, hasPath: (int, int) -> bool)
  {
    r.Keys == s2r.Keys &&
    forall s :: s in r ==> forall x :: x in r[s] <==> x in s2r[s] && hasPath(s, x)
  }

  method ReachableReceivers(s2r: map<int, set<int>>, hasPath: (int, int) -> bool) returns (r: map<int, set<int>>)
    ensures KeepsReachable(r, s2r, hasPath)
  {
    r := map[];
    var todo := s2r.Keys;
    while todo != {}
      invariant todo <= s2r.Keys && r.Keys == s2r.Keys - todo
      invariant forall s :: s in r ==> forall x :: x in r[s] <==> x in s2r[s] && hasPath(s, x)
      decreases todo
    {
      var s := Pick(todo);
      var kept: set<int> := {};
      var left := s2r[s];
      while left != {}
        invariant left <= s2r[s]
        invariant forall x :: x in kept <==> x in s2r[s] - left && hasPath(s, x)
        decreases left
      {
        var x := Pick(left);
        if hasPath(s, x) {
          kept := kept + {x};
        }
        left := left - {x};
      }
      r := r[s := kept];
      todo := todo - {s};
    }
  }

  // ---------------------------------------------------------------------
  // install_routing_tree

  /** The port to the host of every switch. */
  const HOST_PORT: int := 1

  /** A message to a switch: a group of out-ports with its multicast flow, or the flow to the attached host. */
  datatype Install = GroupFlow(node: int, ports: seq<int>) | HostFlow(node: int)

  /**
   * `[dpid_to_port[(cur, next)] for next in succ]`, followed by the host
   * port when cur is a receiver; a missing pair is a KeyError (None).
   */
  function OutPorts(dpidToPort: map<(int, int), int>, cur: int, succ: seq<int>, isRecv: bool): (r: Option<seq<int>>)
    ensures r.Some? <==> forall k :: 0 <= k < |succ| ==> (cur, succ[k]) in dpidToPort
    ensures r.Some? ==> (|r.value| == |succ| + (if isRecv then 1 else 0) &&
      (forall k :: 0 <= k < |succ| ==> r.value[k] == dpidToPort[(cur, succ[k])]) &&
      (isRecv ==> r.value[|succ|] == HOST_PORT))
    decreases |succ|
  {
    if succ == [] then Some(if isRecv then [HOST_PORT] else [])
    else if (cur, succ[0]) !in dpidToPort then None
    else
      match OutPorts(dpidToPort, cur, succ[1..], isRecv)
      case None => assert (cur, succ[1..][0]) !in dpidToPort || exists k :: 0 <= k < |succ| - 1 && (cur, succ[1..][k]) !in dpidToPort; None
      case Some(rest) => Some([dpidToPort[(cur, succ[0])]] + rest)
  }

  /** The digraph of a routing tree: node -> successors, in networkx order. */
  type Successors = map<int, seq<int>>

  /**
   * `install_routing_tree(tree, cur, recvs, …)`: a node with successors gets
   * its out-ports (installed when the switch is connected) and the walk goes
   * on into every successor; a leaf receiver gets only the host flow. A node
   * the tree lacks is a NetworkXError and a missing port a KeyError (None);
   * fuel bounds the recursion depth that Python's recursion limit bounds.
   */
  function InstallTree(tree: Successors, cur: int, recvs: set<int>, datapaths: set<int>,
                       dpidToPort: map<(int, int), int>, fuel: nat): Option<seq<Install>>
    decreases fuel, 0
  {
    if fuel == 0 || cur !in tree then None
    else if |tree[cur]| > 0 then
      match OutPorts(dpidToPort, cur, tree[cur], cur in recvs)
      case None => None
      case Some(ports) =>
        match InstallChildren(tree, tree[cur], recvs, datapaths, dpidToPort, fuel - 1)
        case None => None
        case Some(rest) => Some((if cur in datapaths then [GroupFlow(cur, ports)] else []) + rest)
    else if cur in recvs && cur in datapaths then Some([HostFlow(cur)])
    else Some([])
  }

  /** `for node in succ: install_routing_tree(tree, node, …)`. */
  function InstallChildren(tree: Successors, nodes: seq<int>, recvs: set<int>, datapaths: set<int>,
                           dpidToPort: map<(int, int), int>, fuel: nat): Option<seq<Install>>
    decreases fuel, 1, |nodes|
  {
    if nodes == [] then Some([])
    else
      match InstallTree(tree, nodes[0], recvs, datapaths, dpidToPort, fuel)
      case None => None
      case Some(first) =>
        match InstallChildren(tree, nodes[1..], recvs, datapaths, dpidToPort, fuel)
        case None => None
        case Some(rest) => Some(first + rest)
  }

  /**
   * What every message sent for a tree says: it goes to a connected switch;
   * a group lists the ports toward that switch's successors in order, then
   * the host port exactly when it is a receiver; a host flow goes only to a
   * receiver without successors.
   */
  predicate Sound(tree: Successors, recvs: set<int>, datapaths: set<int>, dpidToPort: map<(int, int), int>, m: Install)
  {
    m.node in datapaths && m.node in tree &&
    match m
    case GroupFlow(n, ports) =>
      |tree[n]| > 0 && OutPorts(dpidToPort, n, tree[n], n in recvs) == Some(ports)
    case HostFlow(n) => tree[n] == [] && n in recvs
  }

  lemma {:induction false} InstallTreeSound(tree: Successors, cur: int, recvs: set<int>, datapaths: set<int>,
                                            dpidToPort: map<(int, int), int>, fuel: nat)
    ensures var r := InstallTree(tree, cur, recvs, datapaths, dpidToPort, fuel);
      r.Some? ==> forall k :: 0 <= k < |r.value| ==> Sound(tree, recvs, datapaths, dpidToPort, r.value[k])
    decreases fuel, 0
  {
    if fuel > 0 && cur in tree && |tree[cur]| > 0 {
      InstallChildrenSound(tree, tree[cur], recvs, datapaths, dpidToPort, fuel - 1);
    }
  }

  lemma {:induction false} InstallChildrenSound(tree: Successors, nodes: seq<int>, recvs: set<int>, datapaths: set<int>,
                                                dpidToPort: map<(int, int), int>, fuel: nat)
    ensures var r := InstallChildren(tree, nodes, recvs, datapaths, dpidToPort, fuel);
      r.Some? ==> forall k :: 0 <= k < |r.value| ==> Sound(tree, recvs, datapaths, dpidToPort, r.value[k])
    decreases fuel, 1, |nodes|
  {
    if nodes != [] {
      InstallTreeSound(tree, nodes[0], recvs, datapaths, dpidToPort, fuel);
      InstallChildrenSound(tree, nodes[1..], recvs, datapaths, dpidToPort, fuel);
    }
  }

  /** p follows successor arcs of the tree from p[0] to its last node. */
  ghost predicate IsTreePath(tree: Successors, p: seq<int>)
  {
    |p| >= 1 && forall i :: 0 <= i < |p| - 1 ==> p[i] in tree && p[i + 1] in tree[p[i]]
  }

  /**
   * Node n of the tree got what install_routing_tree owes it: when its switch
   * is connected, its group if it has successors, or the host flow if it is
   * a receiver without successors.
   */
  ghost predicate Delivered(tree: Successors, recvs: set<int>, datapaths: set<int>, dpidToPort: map<(int, int), int>,
                            n: int, msgs: seq<Install>)
  {
    n in tree &&
    (|tree[n]| > 0 ==>
       OutPorts(dpidToPort, n, tree[n], n in recvs).Some? &&
       (n in datapaths ==> GroupFlow(n, OutPorts(dpidToPort, n, tree[n], n in recvs).value) in msgs)) &&
    (tree[n] == [] && n in recvs && n in datapaths ==> HostFlow(n) in msgs)
  }

  /**
   * When the walk completes, every node reached from cur along successor
   * arcs got its group or its host flow.
   */
  lemma {:induction false} InstallTreeComplete(tree: Successors, cur: int, recvs: set<int>, datapaths: set<int>,
                                               dpidToPort: map<(int, int), int>, fuel: nat, p: seq<int>)
    requires IsTreePath(tree, p) && p[0] == cur
    ensures var r := InstallTree(tree, cur, recvs, datapaths, dpidToPort, fuel);
      r.Some? ==> Delivered(tree, recvs, datapaths, dpidToPort, p[|p| - 1], r.value)
    decreases fuel, 0
  {
    var r := InstallTree(tree, cur, recvs, datapaths, dpidToPort, fuel);
    if r.Some? && |p| > 1 {
      assert p[1] in tree[cur];
      var q := p[1..];
      assert forall i :: 0 <= i < |q| ==> q[i] == p[i + 1];
      InstallChildrenComplete(tree, tree[cur], recvs, datapaths, dpidToPort, fuel - 1, q);
    }
  }

  lemma {:induction false} InstallChildrenComplete(tree: Successors, nodes: seq<int>, recvs: set<int>, datapaths: set<int>,
                                                   dpidToPort: map<(int, int), int>, fuel: nat, p: seq<int>)
    requires IsTreePath(tree, p) && p[0] in nodes
    ensures var r := InstallChildren(tree, nodes, recvs, datapaths, dpidToPort, fuel);
      r.Some? ==> Delivered(tree, recvs, datapaths, dpidToPort, p[|p| - 1], r.value)
    decreases fuel, 1, |nodes|
  {
    var r := InstallChildren(tree, nodes, recvs, datapaths, dpidToPort, fuel);
    if r.Some? {
      var first := InstallTree(tree, nodes[0], recvs, datapaths, dpidToPort, fuel).value;
      var rest := InstallChildren(tree, nodes[1..], recvs, datapaths, dpidToPort, fuel).value;
      assert r.value == first + rest;
      if nodes[0] == p[0] {
        InstallTreeComplete(tree, nodes[0], recvs, datapaths, dpidToPort, fuel, p);
      } else {
        assert p[0] in nodes[1..];
        InstallChildrenComplete(tree, nodes[1..], recvs, datapaths, dpidToPort, fuel, p);
      }
    }
  }

  /** A connected node with successors is sent its group first, before anything below it. */
  lemma RootGroupFirst(tree: Successors, cur: int, recvs: set<int>, datapaths: set<int>,
                       dpidToPort: map<(int, int), int>, fuel: nat)
    requires cur in tree && |tree[cur]| > 0 && cur in datapaths
    ensures var r := InstallTree(tree, cur, recvs, datapaths, dpidToPort, fuel);
      r.Some? ==> |r.value| >= 1 && r.value[0] == GroupFlow(cur, OutPorts(dpidToPort, cur, tree[cur], cur in recvs).value)
  {
  }

  // ---------------------------------------------------------------------
  // The lock around handle_arp

  /** The result of handle_arp under the lock: it blocks for good when the lock is held. */
  datatype LockedArp = Blocked | Handled(locked: bool, outcome: ArpOutcome)

  /**
   * handle_arp as written: it takes the lock, and the early return for a
   * repeat on another port leaves without releasing it.
   */
  function ArpUnderLockAsWritten(locked: bool, t: Tables, dpid: int, pkt: ArpPacket, inPort: int): (r: LockedArp)
    requires WellFormed(t)
    ensures r.Blocked? <==> locked
    ensures r.Handled? ==> r.outcome == ArpStep(t, dpid, pkt, inPort) && (r.locked <==> r.outcome.out.None?)
  {
    if locked then Blocked
    else
      var o := ArpStep(t, dpid, pkt, inPort);
      Handled(o.out.None?, o)
  }

  /** handle_arp with the lock released on every path. */
  function ArpUnderLock(locked: bool, t: Tables, dpid: int, pkt: ArpPacket, inPort: int): (r: LockedArp)
    requires WellFormed(t)
    ensures r.Blocked? <==> locked
    ensures r.Handled? ==> r.outcome == ArpStep(t, dpid, pkt, inPort) && !r.locked
  {
    if locked then Blocked else Handled(false, ArpStep(t, dpid, pkt, inPort))
  }

  /**
   * As written, one request seen on a second port (a flooded ARP coming
   * back over another link) leaves the lock held, and every later ARP
   * blocks.
   */
  lemma EchoLeavesLockHeld(dpid: int, pkt: ArpPacket, p: int, q: int, later: ArpPacket, r: int)
    requires p != q
    ensures var first := ArpUnderLockAsWritten(false, EmptyTables, dpid, pkt, p);
      first.Handled? && !first.locked &&
      var echo := ArpUnderLockAsWritten(false, first.outcome.tables, dpid, pkt, q);
      echo.Handled? && echo.locked &&
      ArpUnderLockAsWritten(echo.locked, echo.outcome.tables, dpid, later, r) == Blocked
  {
    ArpFirstPortWins(EmptyTables, dpid, pkt, p, q);
  }

  /** With the lock released on every path, a handler that starts with the lock free never blocks and leaves it free. */
  lemma ArpUnderLockNeverBlocks(t: Tables, dpid: int, pkt: ArpPacket, p: int, later: ArpPacket, r: int)
    requires WellFormed(t)
    ensures var first := ArpUnderLock(false, t, dpid, pkt, p);
      first.Handled? && !first.locked &&
      ArpUnderLock(first.locked, first.outcome.tables, dpid, later, r).Handled?
  {
  }

  // ---------------------------------------------------------------------
  // The app's state

  /**
   * The outcome of topo_trigger: blocked on the lock, parse_graph raised,
   * clear_entries raised after the receivers were filtered, or completed.
   */
  datatype Trigger = TriggerBlocked | TriggerFailed | ClearRaised(s2r: map<int, set<int>>) | Triggered(s2r: map<int, set<int>>)

  class MobilityApp {
    var arpReceived: map<ArpKey, bool>
    var arpPort: map<ArpKey, int>
    var macToPort: map<int, map<string, int>>
    var datapaths: map<int, int>
    var view: View
    var startExp: bool
    var locked: bool

    function Current(): Tables
      reads this
    {
      Tables(arpReceived, arpPort, macToPort)
    }

    ghost predicate Valid()
      reads this
    {
      WellFormed(Current())
    }

    /** `__init__`: empty tables, the experiment's graph with no port map, the lock free. */
    constructor (nodes: set<int>, edges: map<(int, int), EdgeAttr>)
      ensures Valid() && Current() == EmptyTables && datapaths == map[]
      ensures view == View(nodes, edges, map[]) && !startExp && !locked
    {
      arpReceived, arpPort, macToPort, datapaths := map[], map[], map[], map[];
      view := View(nodes, edges, map[]);
      startExp, locked := false, false;
    }

    /**
     * `handle_arp` with the lock released on the early return as well
     * (ArpUnderLockAsWritten is the handler as written); out is None when
     * nothing is sent.
     */
    method HandleArp(dpid: int, pkt: ArpPacket, inPort: int) returns (r: LockedArp)
      requires Valid()
      modifies this
      ensures Valid()
      ensures r == ArpUnderLock(old(locked), old(Current()), dpid, pkt, inPort)
      ensures r.Blocked? ==> Current() == old(Current()) && locked == old(locked)
      ensures r.Handled? ==> Current() == r.outcome.tables && locked == r.locked
      ensures datapaths == old(datapaths) && view == old(view) && startExp == old(startExp)
    {
      if locked {
        return Blocked;
      }
      locked := true;
      ghost var t0 := Current();
      var out := LearnArp(dpid, pkt, inPort);
      locked := false;
      r := Handled(false, ArpOutcome(Current(), out));
      assert ArpStep(t0, dpid, pkt, inPort) == r.outcome;
    }

    /** The body of `handle_arp` between acquiring and releasing the lock. */
    method LearnArp(dpid: int, pkt: ArpPacket, inPort: int) returns (out: Option<int>)
      requires Valid()
      modifies this
      ensures Valid()
      ensures Current() == ArpStep(old(Current()), dpid, pkt, inPort).tables
      ensures out == ArpStep(old(Current()), dpid, pkt, inPort).out
      ensures datapaths == old(datapaths) && view == old(view) && startExp == old(startExp) && locked == old(locked)
    {
      var key := ArpKey(dpid, pkt.srcMac, pkt.dstIp);
      if key !in arpReceived {
        arpReceived := arpReceived[key := false];
      }
      if !arpReceived[key] {
        arpReceived := arpReceived[key := true];
        arpPort := arpPort[key := inPort];
      } else if arpReceived[key] && arpPort[key] != inPort {
        return None;
      }
      var table := if dpid in macToPort then macToPort[dpid] else map[];
      table := table[pkt.srcMac := inPort];
      macToPort := macToPort[dpid := table];
      out := Some(if pkt.dstMac in table then table[pkt.dstMac] else OFPP_FLOOD);
    }

    /** `_state_change_handler`. */
    method OnStateChange(id: int, datapath: int, state: DispatcherState)
      modifies this
      ensures datapaths == StateChange(old(datapaths), id, datapath, state)
      ensures Current() == old(Current()) && view == old(view) && locked == old(locked) && startExp == old(startExp)
    {
      if state == MainDispatcher {
        if id !in datapaths {
          datapaths := datapaths[id := datapath];
        }
      } else if state == DeadDispatcher {
        if id in datapaths {
          datapaths := datapaths - {id};
        }
      }
    }

    /**
     * `topo_trigger` as written: under the lock, the view is rebuilt from
     * the served links, the learning tables are emptied and the receivers
     * each source still reaches are worked out; then `clear_entries` reads
     * `info.node_to_group_no`, which MulticastInfo does not have, and the
     * AttributeError leaves the lock held and the experiment not started.
     * When parse_graph raises, the lock is held all the same.
     */
    method TopoTrigger(links: seq<seq<string>>, S2R: map<int, set<int>>, hasPath: (int, int) -> bool) returns (r: Trigger)
      requires Valid()
      modifies this
      ensures Valid() && datapaths == old(datapaths) && !r.Triggered?
      ensures r.TriggerBlocked? <==> old(locked)
      ensures locked && startExp == old(startExp)
      ensures r.TriggerBlocked? ==> Current() == old(Current()) && view == old(view)
      ensures r.TriggerFailed? <==> !old(locked) && Fold(InitialView, links).None?
      ensures r.TriggerFailed? ==> Current() == old(Current()) && view == old(view)
      ensures r.ClearRaised? ==>
        view == Fold(InitialView, links).value && Current() == EmptyTables && KeepsReachable(r.s2r, S2R, hasPath)
    {
      if locked {
        return TriggerBlocked;
      }
      locked := true;
      var parsed := ParseGraph(links);
      var s2r := RebuildView(parsed, S2R, hasPath);
      if s2r.None? {
        return TriggerFailed;
      }
      r := ClearRaised(s2r.value);
    }

    /**
     * `topo_trigger` with `clear_entries` reading the group numbers
     * MulticastInfo keeps: after the rebuild the experiment is started and
     * the lock released. When parse_graph raises, the lock stays held as in
     * TopoTrigger.
     */
    method TopoTriggerIntended(links: seq<seq<string>>, S2R: map<int, set<int>>, hasPath: (int, int) -> bool) returns (r: Trigger)
      requires Valid()
      modifies this
      ensures Valid() && datapaths == old(datapaths) && !r.ClearRaised?
      ensures r.TriggerBlocked? <==> old(locked)
      ensures r.TriggerBlocked? ==> Current() == old(Current()) && view == old(view) && locked && startExp == old(startExp)
      ensures r.TriggerFailed? <==> !old(locked) && Fold(InitialView, links).None?
      ensures r.TriggerFailed? ==> Current() == old(Current()) && view == old(view) && locked && startExp == old(startExp)
      ensures r.Triggered? ==>
        view == Fold(InitialView, links).value && Current() == EmptyTables && !locked && startExp &&
        KeepsReachable(r.s2r, S2R, hasPath)
    {
      if locked {
        return TriggerBlocked;
      }
      locked := true;
      var parsed := ParseGraph(links);
      var s2r := RebuildView(parsed, S2R, hasPath);
      if s2r.None? {
        return TriggerFailed;
      }
      startExp, locked := true, false;
      r := Triggered(s2r.value);
    }

    /**
     * The part of `topo_trigger` after `parse_graph` up to `clear_entries`:
     * the parsed graph becomes the view, the learning tables are emptied and
     * the reachable receivers are kept; the lock stays held. Nothing changes
     * when parse_graph raised (None).
     */
    method RebuildView(parsed: Option<View>, S2R: map<int, set<int>>, hasPath: (int, int) -> bool) returns (s2r: Option<map<int, set<int>>>)
      requires Valid() && locked
      modifies this
      ensures Valid() && datapaths == old(datapaths) && locked && startExp == old(startExp)
      ensures s2r.None? <==> parsed.None?
      ensures s2r.None? ==> Current() == old(Current()) && view == old(view)
      ensures s2r.Some? ==> view == parsed.value && Current() == EmptyTables && KeepsReachable(s2r.value, S2R, hasPath)
    {
      if parsed.None? {
        return None;
      }
      view, arpReceived, arpPort, macToPort := parsed.value, map[], map[], map[];
      var kept := ReachableReceivers(S2R, hasPath);
      s2r := Some(kept);
    }
  }
}
