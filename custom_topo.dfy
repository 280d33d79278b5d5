// The Mininet side of an experiment: dpid and host-address strings for a
// node number, the switches, hosts and links built from the experiment graph,
// the controllers of the mobility experiment, the link diffing of
// `change_network` and the link tuples served to the controllers. Mininet
// itself is not modelled: an `addSwitch`/`addHost`/`addLink` is an entry in a
// list.

module CustomTopo {
  import opened Common
  import opened HexStrings
  import opened DistributionState

  // ---------------------------------------------------------------------
  // Names and addresses

  /** `f"s{n}"`. */
  function SwitchName(n: int): string
  {
    "s" + IntToString(n)
  }

  /** `f"h{n}"`. */
  function HostName(n: int): string
  {
    "h" + IntToString(n)
  }

  /**
   * The octets of `int_to_ip_address(n)`: Python's `//` and `%` round toward
   * minus infinity, which for the positive divisor 254 is exactly Dafny's
   * Euclidean `/` and `%`.
   */
  function ThirdOctet(n: int): int
  {
    (n - 1) / 254
  }

  function FourthOctet(n: int): int
  {
    (n - 1) % 254 + 1
  }

  /** `int_to_ip_address(n)`: `f"10.0.{third}.{fourth}"`. */
  function IpAddress(n: int): string
  {
    "10.0." + IntToString(ThirdOctet(n)) + "." + IntToString(FourthOctet(n))
  }

  /** The fourth octet is never 0 or 255, and the two octets give the number back. */
  lemma IpOctets(n: int)
    ensures 1 <= FourthOctet(n) <= 254
    ensures n == ThirdOctet(n) * 254 + FourthOctet(n)
    ensures n >= 1 ==> ThirdOctet(n) >= 0
  {
  }

  /** Different node numbers from 1 on get different host addresses. */
  lemma IpAddressInjective(a: int, b: int)
    requires a >= 1 && b >= 1
    requires IpAddress(a) == IpAddress(b)
    ensures a == b
  {
    IpOctets(a);
    IpOctets(b);
    DottedInjective(ThirdOctet(a), FourthOctet(a), ThirdOctet(b), FourthOctet(b));
  }

  /** "10.0.t.f" determines both octets. */
  lemma DottedInjective(t1: nat, f1: nat, t2: nat, f2: nat)
    requires "10.0." + IntToString(t1) + "." + IntToString(f1) == "10.0." + IntToString(t2) + "." + IntToString(f2)
    ensures t1 == t2 && f1 == f2
  {
    assert IntToString(t1) == NatToString(t1) && IntToString(f1) == NatToString(f1);
    assert IntToString(t2) == NatToString(t2) && IntToString(f2) == NatToString(f2);
    DottedDigits(NatToString(t1), NatToString(f1), NatToString(t2), NatToString(f2));
    NatToStringInjective(t1, t2);
    NatToStringInjective(f1, f2);
  }

  lemma DottedDigits(ta: string, fa: string, tb: string, fb: string)
    requires AllDigits(ta) && AllDigits(tb)
    requires "10.0." + ta + "." + fa == "10.0." + tb + "." + fb
    ensures ta == tb && fa == fb
  {
    var x, y := ta + ['.'] + fa, tb + ['.'] + fb;
    assert "10.0." + ta + "." + fa == "10.0." + x;
    assert "10.0." + tb + "." + fb == "10.0." + y;
    assert x == ("10.0." + x)[5..] && y == ("10.0." + y)[5..];
    SplitAtSeparator(ta, tb, '.', fa, fb);
  }

  // ---------------------------------------------------------------------
  // Switches, hosts and links

  /** A Mininet node of the experiment: switch s{n} or host h{n}. */
  datatype NodeRef = Sw(n: int) | H(n: int)
  {
    function Name(): string
    {
      match this
      case Sw(n) => SwitchName(n)
      case H(n) => HostName(n)
    }
  }

  /** Distinct nodes have distinct names. */
  lemma NodeNamesDistinct(x: NodeRef, y: NodeRef)
    requires x.Name() == y.Name()
    ensures x == y
  {
    assert x.Name()[0] == y.Name()[0];
    assert x.Name()[1..] == IntToString(x.n) && y.Name()[1..] == IntToString(y.n);
    IntToStringInjective(x.n, y.n);
  }

  /** `addSwitch(f"s{node}", dpid=int_to_16bit_hex_string(node))`. */
  datatype SwitchSpec = SwitchSpec(node: int)
  {
    function Dpid(): string
    {
      Hex16Upper(node)
    }
  }

  /** `addHost(f"h{node}", ip=int_to_ip_address(node))`. */
  datatype HostSpec = HostSpec(node: int)
  {
    function Ip(): string
    {
      IpAddress(node)
    }
  }

  /**
   * The `bandwidth` and `weight` attributes of a graph edge; a shaped link
   * gets `bw=bandwidth` and `delay=f"{weight}ms"`.
   */
  datatype EdgeAttrs = EdgeAttrs(bandwidth: int, weight: int)
  /** A link between two named nodes; a traffic-controlled switch link carries its edge's attributes. */
  datatype LinkSpec = LinkSpec(a: NodeRef, b: NodeRef, shaping: Option<EdgeAttrs>)

  /** The sources and every receiver of every source. */
  function Terminals(s2r: map<int, set<int>>): set<int>
  {
    s2r.Keys + (set s, r | s in s2r && r in s2r[s] :: r)
  }

  lemma TerminalsSpec(s2r: map<int, set<int>>, n: int)
    ensures n in Terminals(s2r) <==> n in s2r || exists s :: s in s2r && n in s2r[s]
  {
    if exists s :: s in s2r && n in s2r[s] {
      var s :| s in s2r && n in s2r[s];
      assert n in (set s, r | s in s2r && r in s2r[s] :: r);
    }
  }

  /** The nodes, in graph order, that get a host. */
  function HostNodes(nodes: seq<int>, terminals: set<int>): seq<int>
  {
    if nodes == [] then []
    else HostNodes(nodes[..|nodes| - 1], terminals) + (if nodes[|nodes| - 1] in terminals then [nodes[|nodes| - 1]] else [])
  }

  /** A node gets a host exactly when it is a terminal. */
  lemma {:induction false} HostNodesSpec(nodes: seq<int>, terminals: set<int>, n: int)
    ensures n in HostNodes(nodes, terminals) <==> n in nodes && n in terminals
  {
    if nodes != [] {
      var m := |nodes| - 1;
      HostNodesSpec(nodes[..m], terminals, n);
      assert nodes == nodes[..m] + [nodes[m]];
    }
  }

  /** `addLink(s_name, h_name)`: the access link of a host. */
  function AccessLink(n: int): LinkSpec
  {
    LinkSpec(Sw(n), H(n), None)
  }

  /**
   * What the node loop of both builds produces: one switch per node, one host
   * per terminal node, and the hosts' access links at the front of the links.
   */
  predicate NodesBuilt(nodes: seq<int>, terminals: set<int>, sws: seq<SwitchSpec>, hosts: seq<HostSpec>, links: seq<LinkSpec>)
  {
    var hn := HostNodes(nodes, terminals);
    |sws| == |nodes| && (forall k :: 0 <= k < |nodes| ==> sws[k] == SwitchSpec(nodes[k])) &&
    |hosts| == |hn| && (forall k :: 0 <= k < |hn| ==> hosts[k] == HostSpec(hn[k])) &&
    |links| >= |hn| && (forall k :: 0 <= k < |hn| ==> links[k] == AccessLink(hn[k]))
  }

  /** Links added after the node loop leave its part in place. */
  lemma NodesBuiltExtend(nodes: seq<int>, terminals: set<int>, sws: seq<SwitchSpec>, hosts: seq<HostSpec>, links: seq<LinkSpec>, more: seq<LinkSpec>)
    requires NodesBuilt(nodes, terminals, sws, hosts, links)
    ensures NodesBuilt(nodes, terminals, sws, hosts, links + more)
  {
    var hn := HostNodes(nodes, terminals);
    assert forall k :: 0 <= k < |hn| ==> (links + more)[k] == links[k];
  }

  /**
   * `for n in graph.nodes`: a switch named s{n} with dpid
   * `int_to_16bit_hex_string(n)` for every node, and for a terminal node a
   * host h{n} at `int_to_ip_address(n)` with its access link.
   */
  method AddNodes(nodes: seq<int>, terminals: set<int>) returns (sws: seq<SwitchSpec>, hosts: seq<HostSpec>, links: seq<LinkSpec>)
    ensures NodesBuilt(nodes, terminals, sws, hosts, links) && |links| == |hosts|
  {
    sws, hosts, links := [], [], [];
    for i := 0 to |nodes|
      invariant NodesBuilt(nodes[..i], terminals, sws, hosts, links) && |links| == |hosts|
    {
      var n := nodes[i];
      assert nodes[..i + 1][..i] == nodes[..i];
      sws := sws + [SwitchSpec(n)];
      if n in terminals {
        hosts := hosts + [HostSpec(n)];
        links := links + [AccessLink(n)];
      }
    }
    assert nodes[..|nodes|] == nodes;
  }

  /** The traffic-controlled link of an edge. */
  function ShapedLink(e: (int, int), attrs: EdgeAttrs): LinkSpec
  {
    LinkSpec(Sw(e.0), Sw(e.1), Some(attrs))
  }

  /** `addLink` for every edge, in edge order, shaped or plain. */
  method AddEdgeLinks(edges: seq<(int, int)>, attrs: map<(int, int), EdgeAttrs>, shaped: bool) returns (ls: seq<LinkSpec>)
    requires shaped ==> forall k :: 0 <= k < |edges| ==> edges[k] in attrs
    ensures |ls| == |edges|
    ensures forall k :: 0 <= k < |edges| ==> ls[k] == EdgeLink(edges[k], attrs, shaped)
  {
    ls := [];
    for k := 0 to |edges|
      invariant |ls| == k
      invariant forall j :: 0 <= j < k ==> ls[j] == EdgeLink(edges[j], attrs, shaped)
    {
      ls := ls + [EdgeLink(edges[k], attrs, shaped)];
    }
  }

  /** The node loop's output followed by one switch link per edge, in edge order. */
  predicate LinksBuilt(nodes: seq<int>, terminals: set<int>, sws: seq<SwitchSpec>, hosts: seq<HostSpec>, links: seq<LinkSpec>,
                       edges: seq<(int, int)>, attrs: map<(int, int), EdgeAttrs>, shaped: bool)
  {
    (shaped ==> forall k :: 0 <= k < |edges| ==> edges[k] in attrs) &&
    NodesBuilt(nodes, terminals, sws, hosts, links) && |links| == |hosts| + |edges| &&
    forall k :: 0 <= k < |edges| ==> links[|hosts| + k] == EdgeLink(edges[k], attrs, shaped)
  }

  /** The edge links follow the node loop's access links, one per edge, in edge order. */
  lemma EdgeLinksAfterHosts(nodes: seq<int>, terminals: set<int>, sws: seq<SwitchSpec>, hosts: seq<HostSpec>, links: seq<LinkSpec>,
                            edges: seq<(int, int)>, attrs: map<(int, int), EdgeAttrs>, shaped: bool, ls: seq<LinkSpec>)
    requires NodesBuilt(nodes, terminals, sws, hosts, links) && |links| == |hosts|
    requires shaped ==> forall k :: 0 <= k < |edges| ==> edges[k] in attrs
    requires |ls| == |edges| && forall k :: 0 <= k < |edges| ==> ls[k] == EdgeLink(edges[k], attrs, shaped)
    ensures LinksBuilt(nodes, terminals, sws, hosts, links + ls, edges, attrs, shaped)
  {
    NodesBuiltExtend(nodes, terminals, sws, hosts, links, ls);
    forall k | 0 <= k < |edges|
      ensures (links + ls)[|hosts| + k] == EdgeLink(edges[k], attrs, shaped)
    {
      assert (links + ls)[|links| + k] == ls[k];
    }
  }

  /** The switch link of a graph edge: shaped in the distribution topology, plain in the mobility one. */
  function EdgeLink(e: (int, int), attrs: map<(int, int), EdgeAttrs>, shaped: bool): LinkSpec
    requires shaped ==> e in attrs
  {
    if shaped then ShapedLink(e, attrs[e]) else LinkSpec(Sw(e.0), Sw(e.1), None)
  }

  /** A topology as `MyTopo.build` leaves it. */
  datatype Topo = Topo(switches: seq<SwitchSpec>, hosts: seq<HostSpec>, links: seq<LinkSpec>)

  /**
   * `MyTopo.build()` of the distribution experiment: the node loop, then one
   * shaped switch link per graph edge, in edge order.
   */
  method BuildTopo(nodes: seq<int>, s2r: map<int, set<int>>, edges: seq<(int, int)>, attrs: map<(int, int), EdgeAttrs>)
    returns (t: Topo)
    requires forall k :: 0 <= k < |edges| ==> edges[k] in attrs
    ensures |t.links| == |t.hosts| + |edges|
    ensures NodesBuilt(nodes, Terminals(s2r), t.switches, t.hosts, t.links)
    ensures forall k :: 0 <= k < |edges| ==> t.links[|t.hosts| + k] == ShapedLink(edges[k], attrs[edges[k]])
  {
    var sws, hosts, links := AddNodes(nodes, Terminals(s2r));
    var ls := AddEdgeLinks(edges, attrs, true);
    EdgeLinksAfterHosts(nodes, Terminals(s2r), sws, hosts, links, edges, attrs, true, ls);
    t := Topo(sws, hosts, links + ls);
  }

  /**
   * In the built topology a shaped link joins s{a} and s{b} exactly when
   * (a, b) is a graph edge, and it carries that edge's attributes.
   */
  lemma ShapedLinksAreEdges(edges: seq<(int, int)>, attrs: map<(int, int), EdgeAttrs>, hosts: nat, links: seq<LinkSpec>, a: int, b: int)
    requires forall k :: 0 <= k < |edges| ==> edges[k] in attrs
    requires |links| == hosts + |edges|
    requires forall k :: 0 <= k < |edges| ==> links[hosts + k] == ShapedLink(edges[k], attrs[edges[k]])
    ensures (exists k :: hosts <= k < |links| && links[k].a == Sw(a) && links[k].b == Sw(b)) <==> (a, b) in edges
    ensures forall k :: hosts <= k < |links| && links[k].a == Sw(a) && links[k].b == Sw(b) ==>
      links[k].shaping == Some(attrs[(a, b)])
  {
    forall k | hosts <= k < |links| && links[k].a == Sw(a) && links[k].b == Sw(b)
      ensures edges[k - hosts] == (a, b)
    {
      var e := edges[k - hosts];
      assert links[hosts + (k - hosts)] == ShapedLink(e, attrs[e]);
    }
    if (a, b) in edges {
      var j :| 0 <= j < |edges| && edges[j] == (a, b);
      assert links[hosts + j] == ShapedLink(edges[j], attrs[edges[j]]);
    }
  }

  // ---------------------------------------------------------------------
  // The mobility experiment's network

  /** `addController(name=f'c{id}', controller=RemoteController, port=port)`. */
  datatype ControllerSpec = ControllerSpec(id: int, port: int)
  {
    function Name(): string
    {
      "c" + IntToString(id)
    }
  }

  /** `for i in range(1, controller_number + 1)`: controller c{i} on port 6633 + i - 1. */
  method AddControllers(controllerNumber: int) returns (cs: seq<ControllerSpec>)
    ensures |cs| == (if controllerNumber < 1 then 0 else controllerNumber)
    ensures forall k :: 0 <= k < |cs| ==> cs[k] == ControllerSpec(k + 1, 6633 + k)
  {
    cs := [];
    var i := 1;
    while i < controllerNumber + 1
      invariant 1 <= i && |cs| == i - 1
      invariant i <= (if controllerNumber < 1 then 1 else controllerNumber + 1)
      invariant forall k :: 0 <= k < |cs| ==> cs[k] == ControllerSpec(k + 1, 6633 + k)
    {
      cs := cs + [ControllerSpec(i, 6633 + i - 1)];
      i := i + 1;
    }
  }

  /** Controller ports are distinct, so no two controllers listen on the same port. */
  lemma ControllerPortsDistinct(cs: seq<ControllerSpec>, j: int, k: int)
    requires forall i :: 0 <= i < |cs| ==> cs[i] == ControllerSpec(i + 1, 6633 + i)
    requires 0 <= j < |cs| && 0 <= k < |cs| && cs[j].port == cs[k].port
    ensures j == k
  {
    assert cs[j].port == 6633 + j && cs[k].port == 6633 + k;
  }

  datatype Net = Net(controllers: seq<ControllerSpec>, switches: seq<SwitchSpec>, hosts: seq<HostSpec>, links: seq<LinkSpec>)

  /** The `sw_to_cid[n]` lookups of the node loop: false at the first node without a controller. */
  method HaveControllers(nodes: seq<int>, swToCid: map<int, int>) returns (ok: bool)
    ensures ok <==> forall k :: 0 <= k < |nodes| ==> nodes[k] in swToCid
  {
    for i := 0 to |nodes|
      invariant forall k :: 0 <= k < i ==> nodes[k] in swToCid
    {
      if nodes[i] !in swToCid {
        return false;
      }
    }
    return true;
  }

  /**
   * The network `build_net` leaves: controllers c1… on ports 6633…, the
   * node loop's switches, hosts and access links, then a plain link per edge.
   */
  predicate NetBuilt(net: Net, nodes: seq<int>, s2r: map<int, set<int>>, edges: seq<(int, int)>, controllerNumber: int)
  {
    ControllersAdded(net.controllers, controllerNumber) &&
    LinksBuilt(nodes, Terminals(s2r), net.switches, net.hosts, net.links, edges, map[], false)
  }

  /** Controllers c1, c2, … on ports 6633, 6634, …, one per controller number. */
  predicate ControllersAdded(cs: seq<ControllerSpec>, controllerNumber: int)
  {
    |cs| == (if controllerNumber < 1 then 0 else controllerNumber) &&
    forall k :: 0 <= k < |cs| ==> cs[k] == ControllerSpec(k + 1, 6633 + k)
  }

  /** The controllers, the node loop's output and the plain edge links together make the network build_net leaves. */
  lemma NetBuiltFrom(nodes: seq<int>, s2r: map<int, set<int>>, edges: seq<(int, int)>, controllerNumber: int,
                     cs: seq<ControllerSpec>, sws: seq<SwitchSpec>, hosts: seq<HostSpec>, links: seq<LinkSpec>, ls: seq<LinkSpec>)
    requires ControllersAdded(cs, controllerNumber)
    requires NodesBuilt(nodes, Terminals(s2r), sws, hosts, links) && |links| == |hosts|
    requires |ls| == |edges| && forall k :: 0 <= k < |edges| ==> ls[k] == EdgeLink(edges[k], map[], false)
    ensures NetBuilt(Net(cs, sws, hosts, links + ls), nodes, s2r, edges, controllerNumber)
  {
    EdgeLinksAfterHosts(nodes, Terminals(s2r), sws, hosts, links, edges, map[], false, ls);
  }

  /**
   * `MininetEnv.build_net()`: the controllers, then the node loop, whose
   * `sw_to_cid[n]` lookup raises KeyError for a node without a controller,
   * then one plain switch link per graph edge.
   */
  method BuildNet(nodes: seq<int>, s2r: map<int, set<int>>, edges: seq<(int, int)>, controllerNumber: int, swToCid: map<int, int>)
    returns (net: Option<Net>)
    ensures net.None? <==> exists k :: 0 <= k < |nodes| && nodes[k] !in swToCid
    ensures net.Some? ==> NetBuilt(net.value, nodes, s2r, edges, controllerNumber)
  {
    var ok := HaveControllers(nodes, swToCid);
    if !ok {
      return None;
    }
    var cs := AddControllers(controllerNumber);
    var sws, hosts, links := AddNodes(nodes, Terminals(s2r));
    var ls := AddEdgeLinks(edges, map[], false);
    NetBuiltFrom(nodes, s2r, edges, controllerNumber, cs, sws, hosts, links, ls);
    net := Some(Net(cs, sws, hosts, links + ls));
  }

  // ---------------------------------------------------------------------
  // change_network

  /** The links to take down and to bring up between the current and the next graph. */
  function LinkDiff(cur: set<(int, int)>, next: set<(int, int)>): (d: (set<(int, int)>, set<(int, int)>))
    ensures d.0 !! next && d.1 !! cur && d.0 <= cur && d.1 <= next
  {
    (cur - next, next - cur)
  }

  /** Taking the down links out of cur and adding the up links gives next. */
  lemma LinkDiffApplied(cur: set<(int, int)>, next: set<(int, int)>)
    ensures (cur - LinkDiff(cur, next).0) + LinkDiff(cur, next).1 == next
  {
  }

  /**
   * One round of `change_network`: when the graph server reports a new graph,
   * `delLinkBetween` every link that disappeared, `addLink` every link that
   * appeared, and take the new edge set as current. The network's switch
   * links are the `links` set.
   */
  method ChangeNetworkRound(cur: set<(int, int)>, links: set<(int, int)>, latest: bool, next: set<(int, int)>)
    returns (cur': set<(int, int)>, links': set<(int, int)>)
    ensures !latest ==> cur' == cur && links' == links
    ensures latest ==> cur' == next && links' == ((links - (cur - next)) + (next - cur))
    ensures latest && links == cur ==> links' == next
  {
    if !latest {
      return cur, links;
    }
    var down, up := cur - next, next - cur;
    links' := links;
    var todo := down;
    while todo != {}
      invariant todo <= down
      invariant links' == links - (down - todo)
      decreases todo
    {
      var l := Pick(todo);
      links' := links' - {l};
      todo := todo - {l};
    }
    todo := up;
    while todo != {}
      invariant todo <= up
      invariant links' == (links - down) + (up - todo)
      decreases todo
    {
      var l := Pick(todo);
      links' := links' + {l};
      todo := todo - {l};
    }
    LinkDiffApplied(cur, next);
    cur' := next;
  }

  // ---------------------------------------------------------------------
  // ExpExecServer.links

  /** One side of a Mininet link: the node's name, the interface's name and its MAC. */
  datatype Interface = Interface(node: string, name: string, mac: string)
  datatype MininetLink = MininetLink(intf1: Interface, intf2: Interface)

  /** `links()`: one `(src, src_port, src_mac, dst, dst_port, dst_mac)` tuple per network link, in order. */
  method ExpLinks(net: seq<MininetLink>) returns (r: seq<NetLink>)
    ensures |r| == |net|
    ensures forall k :: 0 <= k < |net| ==>
      r[k] == NetLink(net[k].intf1.node, net[k].intf1.name, net[k].intf1.mac, net[k].intf2.node, net[k].intf2.name, net[k].intf2.mac)
  {
    r := [];
    for k := 0 to |net|
      invariant |r| == k
      invariant forall j :: 0 <= j < k ==>
        r[j] == NetLink(net[j].intf1.node, net[j].intf1.name, net[j].intf1.mac, net[j].intf2.node, net[j].intf2.name, net[j].intf2.mac)
    {
      var l := net[k];
      r := r + [NetLink(l.intf1.node, l.intf1.name, l.intf1.mac, l.intf2.node, l.intf2.name, l.intf2.mac)];
    }
  }
}
