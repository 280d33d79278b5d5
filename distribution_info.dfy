// DistributionInfo of prepare3_distribution_info.py: the state behind the
// distribution server. It tracks which controllers and switches are online,
// filters the topology down to them, guards group add and modify, and hands
// each controller the routing trees it still has to install.

module DistributionState {
  import opened Common
  import opened HexStrings
  import opened ExperimentSetup

  /** One entry of the network's link list: `(src_name, src_port_name, src_port_mac, dst_name, dst_port_name, dst_port_mac)`. */
  datatype NetLink = NetLink(srcName: string, srcPortName: string, srcPortMac: string,
                             dstName: string, dstPortName: string, dstPortMac: string)

  /** `{"dpid", "port_no", "hw_addr", "name"}` of one end of a link. */
  datatype Endpoint = Endpoint(dpid: string, portNo: string, hwAddr: string, name: string)

  /** `{"src": …, "dst": …}`. */
  datatype Link = Link(src: Endpoint, dst: Endpoint)

  /** `{"dpid": …, "ports": […]}` of one switch. */
  datatype Switch = Switch(dpid: string, ports: seq<Endpoint>)

  /** A link touching a host: 'h' occurs in either node name. */
  predicate IsHostLink(l: NetLink)
  {
    'h' in l.srcName || 'h' in l.dstName
  }

  /** `name[1:]`, which is empty for an empty name. */
  function Tail(s: string): string
  {
    if s == [] then [] else s[1..]
  }

  /**
   * One end of a switch link: the dpid is `int(name[1:])` and the port the
   * integer after the last "eth" of the port name, both rendered in hex;
   * a `ValueError` from `int` is None.
   */
  function MakeEndpoint(name: string, portName: string, mac: string): Option<Endpoint>
  {
    var dpid := ParsePyInt(Tail(name));
    var port := ParsePyInt(AfterLastEth(portName));
    if dpid.None? || port.None? then None
    else Some(Endpoint(Lower(DpidToStr(dpid.value)), Lower(PortNoToStr(port.value)), Lower(mac), name))
  }

  function ConvertLink(l: NetLink): Option<Link>
  {
    var src := MakeEndpoint(l.srcName, l.srcPortName, l.srcPortMac);
    var dst := MakeEndpoint(l.dstName, l.dstPortName, l.dstPortMac);
    if src.None? || dst.None? then None else Some(Link(src.value, dst.value))
  }

  function Reversed(k: Link): Link
  {
    Link(k.dst, k.src)
  }

  /** The links of the list that join two switches. */
  function Kept(links: seq<NetLink>): (r: seq<NetLink>)
    ensures forall l :: l in r <==> l in links && !IsHostLink(l)
  {
    if links == [] then []
    else Kept(links[..|links| - 1]) + (if IsHostLink(links[|links| - 1]) then [] else [links[|links| - 1]])
  }

  /** `swes_inter_links` as `__init__` builds it, or None when it raises. */
  function InterLinks(links: seq<NetLink>): Option<seq<Link>>
  {
    if links == [] then Some([])
    else
      var prev := InterLinks(links[..|links| - 1]);
      var last := links[|links| - 1];
      if prev.None? then None
      else if IsHostLink(last) then prev
      else match ConvertLink(last)
        case None => None
        case Some(k) => Some(prev.value + [k, Reversed(k)])
  }

  /** The link loop of `DistributionInfo.__init__`. */
  method BuildInterLinks(links: seq<NetLink>) returns (r: Option<seq<Link>>)
    ensures r == InterLinks(links)
  {
    var acc: seq<Link> := [];
    for i := 0 to |links|
      invariant InterLinks(links[..i]) == Some(acc)
    {
      assert links[..i + 1][..i] == links[..i];
      var l := links[i];
      if IsHostLink(l) {
        continue;
      }
      var k := ConvertLink(l);
      if k.None? {
        InterLinksStaysNone(links, i + 1);
        assert links[..|links|] == links;
        return None;
      }
      acc := acc + [k.value, Reversed(k.value)];
    }
    assert links[..|links|] == links;
    return Some(acc);
  }

  lemma {:induction false} InterLinksStaysNone(links: seq<NetLink>, i: int)
    requires 0 <= i <= |links| && InterLinks(links[..i]).None?
    ensures InterLinks(links).None?
    decreases |links| - i
  {
    if i < |links| {
      assert links[..i + 1][..i] == links[..i];
      InterLinksStaysNone(links, i + 1);
    } else {
      assert links[..i] == links;
    }
  }

  /**
   * The link list fails exactly when a switch link has an unreadable name;
   * otherwise it holds, for the k-th switch link, its conversion at 2k and
   * the reverse at 2k + 1, and nothing else.
   */
  lemma {:induction false} InterLinksShape(links: seq<NetLink>)
    ensures InterLinks(links).None? <==> exists l :: l in Kept(links) && ConvertLink(l).None?
    ensures InterLinks(links).Some? ==>
      |InterLinks(links).value| == 2 * |Kept(links)| &&
      forall k :: 0 <= k < |Kept(links)| ==>
        ConvertLink(Kept(links)[k]).Some? &&
        InterLinks(links).value[2 * k] == ConvertLink(Kept(links)[k]).value &&
        InterLinks(links).value[2 * k + 1] == Reversed(ConvertLink(Kept(links)[k]).value)
  {
    if links != [] {
      var init := links[..|links| - 1];
      var last := links[|links| - 1];
      InterLinksShape(init);
      assert Kept(links) == Kept(init) + (if IsHostLink(last) then [] else [last]);
      if !IsHostLink(last) && InterLinks(init).Some? {
        if ConvertLink(last).None? {
          assert last in Kept(links);
        } else {
          InterLinksAppendShape(init, last);
        }
      } else if !IsHostLink(last) {
        var l :| l in Kept(init) && ConvertLink(l).None?;
        assert l in Kept(links);
      }
    }
  }

  /** The step of InterLinksShape where a converting switch link is appended. */
  lemma InterLinksAppendShape(init: seq<NetLink>, last: NetLink)
    requires !IsHostLink(last) && ConvertLink(last).Some? && InterLinks(init).Some?
    requires !exists l :: l in Kept(init) && ConvertLink(l).None?
    requires |InterLinks(init).value| == 2 * |Kept(init)|
    requires forall k :: 0 <= k < |Kept(init)| ==>
        ConvertLink(Kept(init)[k]).Some? &&
        InterLinks(init).value[2 * k] == ConvertLink(Kept(init)[k]).value &&
        InterLinks(init).value[2 * k + 1] == Reversed(ConvertLink(Kept(init)[k]).value)
    ensures var links := init + [last];
      InterLinks(links).Some? &&
      !(exists l :: l in Kept(links) && ConvertLink(l).None?) &&
      |InterLinks(links).value| == 2 * |Kept(links)| &&
      forall k :: 0 <= k < |Kept(links)| ==>
        ConvertLink(Kept(links)[k]).Some? &&
        InterLinks(links).value[2 * k] == ConvertLink(Kept(links)[k]).value &&
        InterLinks(links).value[2 * k + 1] == Reversed(ConvertLink(Kept(links)[k]).value)
  {
    var links := init + [last];
    assert links[..|links| - 1] == init && links[|links| - 1] == last;
    var p := InterLinks(init).value;
    var c := ConvertLink(last).value;
    var q := p + [c, Reversed(c)];
    assert InterLinks(links) == Some(q);
    var ks := Kept(links);
    assert ks == Kept(init) + [last];
    forall k | 0 <= k < |ks|
      ensures ConvertLink(ks[k]).Some? && q[2 * k] == ConvertLink(ks[k]).value && q[2 * k + 1] == Reversed(ConvertLink(ks[k]).value)
    {
      if k < |Kept(init)| {
        assert ks[k] == Kept(init)[k];
        assert q[2 * k] == p[2 * k] && q[2 * k + 1] == p[2 * k + 1];
      } else {
        assert ks[k] == last && 2 * k == |p|;
        assert q[|p|] == c && q[|p| + 1] == Reversed(c);
      }
    }
    KeptAppendConverts(init, last);
  }

  lemma KeptAppendConverts(init: seq<NetLink>, last: NetLink)
    requires !IsHostLink(last) && ConvertLink(last).Some?
    requires !exists l :: l in Kept(init) && ConvertLink(l).None?
    ensures !exists l :: l in Kept(init + [last]) && ConvertLink(l).None?
  {
    var links := init + [last];
    assert links[..|links| - 1] == init && links[|links| - 1] == last;
    assert Kept(links) == Kept(init) + [last];
  }

  /** No kept link names a host: each end keeps the name it was built from. */
  lemma InterLinksAvoidHosts(links: seq<NetLink>, k: int)
    requires InterLinks(links).Some? && 0 <= k < |InterLinks(links).value|
    ensures 'h' !in InterLinks(links).value[k].src.name && 'h' !in InterLinks(links).value[k].dst.name
  {
    InterLinksShape(links);
    var j := k / 2;
    assert 0 <= j < |Kept(links)|;
    var l := Kept(links)[j];
    assert l in Kept(links);
    ConvertKeepsNames(l);
    if k % 2 == 0 {
      assert k == 2 * j;
    } else {
      assert k == 2 * j + 1;
    }
  }

  /** A converted link keeps the node names of both ends. */
  lemma ConvertKeepsNames(l: NetLink)
    requires ConvertLink(l).Some?
    ensures ConvertLink(l).value.src.name == l.srcName && ConvertLink(l).value.dst.name == l.dstName
  {
  }

  /** A switch-to-switch link named the way Mininet names them converts. */
  lemma SwitchLinkConverts(a: nat, pa: nat, b: nat, pb: nat, ma: string, mb: string)
    ensures ConvertLink(NetLink("s" + NatToString(a), "s" + NatToString(a) + "-eth" + NatToString(pa), ma,
                                "s" + NatToString(b), "s" + NatToString(b) + "-eth" + NatToString(pb), mb))
      == Some(Link(Endpoint(Lower(DpidToStr(a)), Lower(PortNoToStr(pa)), Lower(ma), "s" + NatToString(a)),
                   Endpoint(Lower(DpidToStr(b)), Lower(PortNoToStr(pb)), Lower(mb), "s" + NatToString(b))))
  {
    EndpointOf(a, pa, ma);
    EndpointOf(b, pb, mb);
  }

  lemma EndpointOf(a: nat, pa: nat, ma: string)
    ensures MakeEndpoint("s" + NatToString(a), "s" + NatToString(a) + "-eth" + NatToString(pa), ma)
      == Some(Endpoint(Lower(DpidToStr(a)), Lower(PortNoToStr(pa)), Lower(ma), "s" + NatToString(a)))
  {
    assert Tail("s" + NatToString(a)) == NatToString(a);
    assert "s" + NatToString(a) + "-eth" + NatToString(pa) == ("s" + NatToString(a) + "-") + "eth" + NatToString(pa);
    AfterLastEthOfPort("s" + NatToString(a) + "-", NatToString(pa));
    ParsePyIntOfString(a);
    ParsePyIntOfString(pa);
  }

  // ---------------------------------------------------------------------
  // The switch list

  /** One port of a switch as the network reports it: `{"name", "mac"}`. */
  datatype NetPort = NetPort(name: string, mac: string)

  /** One switch as the network reports it: `{"dpid", "ports"}`. */
  datatype NetSwitch = NetSwitch(dpid: string, ports: seq<NetPort>)

  /**
   * One port entry: the switch's dpid in lower case and the integer after the
   * last "eth" of the port name in lower-case hex; a `ValueError` from `int` is None.
   */
  function MakePort(dpid: string, p: NetPort): Option<Endpoint>
  {
    var n := ParsePyInt(AfterLastEth(p.name));
    if n.None? then None else Some(Endpoint(Lower(dpid), Lower(PortNoToStr(n.value)), p.mac, p.name))
  }

  /** The outcome of converting each port of a switch. */
  function PortOutcomes(dpid: string, ports: seq<NetPort>): (r: seq<Option<Endpoint>>)
    ensures |r| == |ports| && forall m :: 0 <= m < |ports| ==> r[m] == MakePort(dpid, ports[m])
  {
    seq(|ports|, m requires 0 <= m < |ports| => MakePort(dpid, ports[m]))
  }

  /** The port entries of one switch, in order, or None when one raises. */
  function SwitchPorts(dpid: string, ports: seq<NetPort>): Option<seq<Endpoint>>
  {
    Collect(PortOutcomes(dpid, ports))
  }

  function ConvertSwitch(sw: NetSwitch): Option<Switch>
  {
    var ps := SwitchPorts(sw.dpid, sw.ports);
    if ps.None? then None else Some(Switch(Lower(sw.dpid), ps.value))
  }

  /** The outcome of converting each switch. */
  function SwitchOutcomes(sws: seq<NetSwitch>): (r: seq<Option<Switch>>)
    ensures |r| == |sws| && forall k :: 0 <= k < |sws| ==> r[k] == ConvertSwitch(sws[k])
  {
    seq(|sws|, k requires 0 <= k < |sws| => ConvertSwitch(sws[k]))
  }

  /** `swes` as `__init__` builds it, or None when it raises. */
  function SwitchList(sws: seq<NetSwitch>): Option<seq<Switch>>
  {
    Collect(SwitchOutcomes(sws))
  }

  /** The switch loop of `DistributionInfo.__init__`, with its inner loop over the ports. */
  method BuildSwitches(sws: seq<NetSwitch>) returns (r: Option<seq<Switch>>)
    ensures r == SwitchList(sws)
  {
    ghost var outs := SwitchOutcomes(sws);
    var acc: seq<Switch> := [];
    for i := 0 to |sws|
      invariant Collect(outs[..i]) == Some(acc)
    {
      CollectStep(outs, i);
      var sw := BuildSwitch(sws[i]);
      if sw.None? {
        CollectStaysNone(outs, i + 1);
        return None;
      }
      acc := acc + [sw.value];
    }
    assert outs[..|sws|] == outs;
    return Some(acc);
  }

  /** One round of the switch loop: the lower-case dpid and the port loop. */
  method BuildSwitch(sw: NetSwitch) returns (r: Option<Switch>)
    ensures r == ConvertSwitch(sw)
  {
    var ports := BuildPorts(sw.dpid, sw.ports);
    if ports.None? {
      return None;
    }
    return Some(Switch(Lower(sw.dpid), ports.value));
  }

  /** The port loop inside the switch loop. */
  method BuildPorts(dpid: string, ports: seq<NetPort>) returns (r: Option<seq<Endpoint>>)
    ensures r == SwitchPorts(dpid, ports)
  {
    ghost var outs := PortOutcomes(dpid, ports);
    var acc: seq<Endpoint> := [];
    for m := 0 to |ports|
      invariant Collect(outs[..m]) == Some(acc)
    {
      CollectStep(outs, m);
      var p := MakePort(dpid, ports[m]);
      if p.None? {
        CollectStaysNone(outs, m + 1);
        return None;
      }
      acc := acc + [p.value];
    }
    assert outs[..|ports|] == outs;
    return Some(acc);
  }

  /**
   * The switch list fails exactly when some port name cannot be read;
   * otherwise it keeps the reported switches in order, each with its dpid in
   * lower case and, position by position, its converted ports.
   */
  lemma SwitchListShape(sws: seq<NetSwitch>)
    ensures SwitchList(sws).None? <==>
      exists k, m :: 0 <= k < |sws| && 0 <= m < |sws[k].ports| && MakePort(sws[k].dpid, sws[k].ports[m]).None?
    ensures SwitchList(sws).Some? ==> |SwitchList(sws).value| == |sws|
    ensures SwitchList(sws).Some? ==> forall k :: 0 <= k < |sws| ==>
      SwitchList(sws).value[k].dpid == Lower(sws[k].dpid) && PortsMatch(sws[k].dpid, sws[k].ports, SwitchList(sws).value[k].ports)
  {
    var outs := SwitchOutcomes(sws);
    CollectSpec(outs);
    forall k | 0 <= k < |sws| ensures SwitchPortsMatch(sws[k]) {
      CollectSpec(PortOutcomes(sws[k].dpid, sws[k].ports));
    }
    if SwitchList(sws).None? {
      var k :| 0 <= k < |sws| && outs[k].None?;
      assert SwitchPortsMatch(sws[k]);
      var m :| 0 <= m < |sws[k].ports| && PortOutcomes(sws[k].dpid, sws[k].ports)[m].None?;
    } else {
      var v := SwitchList(sws).value;
      forall k, m | 0 <= k < |sws| && 0 <= m < |sws[k].ports| ensures MakePort(sws[k].dpid, sws[k].ports[m]).Some? {
        assert SwitchPortsMatch(sws[k]) && outs[k].Some?;
        assert PortOutcomes(sws[k].dpid, sws[k].ports)[m] == MakePort(sws[k].dpid, sws[k].ports[m]);
      }
      forall k | 0 <= k < |sws| ensures v[k].dpid == Lower(sws[k].dpid) && PortsMatch(sws[k].dpid, sws[k].ports, v[k].ports) {
        assert SwitchPortsMatch(sws[k]) && outs[k] == Some(v[k]);
      }
    }
  }

  /** The entries es are, position by position, the converted ports. */
  predicate PortsMatch(dpid: string, ports: seq<NetPort>, es: seq<Endpoint>)
  {
    |es| == |ports| && forall m :: 0 <= m < |ports| ==> MakePort(dpid, ports[m]) == Some(es[m])
  }

  /** One switch's ports fail exactly when one of them does, and otherwise match position by position. */
  ghost predicate SwitchPortsMatch(sw: NetSwitch)
  {
    (SwitchPorts(sw.dpid, sw.ports).None? <==> exists m :: 0 <= m < |sw.ports| && PortOutcomes(sw.dpid, sw.ports)[m].None?) &&
    (SwitchPorts(sw.dpid, sw.ports).Some? ==> PortsMatch(sw.dpid, sw.ports, SwitchPorts(sw.dpid, sw.ports).value))
  }

  /** A port named the way Mininet names them, `s<a>-eth<p>`, gets port number p in lower-case hex. */
  lemma MininetPortConverts(dpid: string, a: nat, p: nat, mac: string)
    ensures MakePort(dpid, NetPort("s" + NatToString(a) + "-eth" + NatToString(p), mac))
      == Some(Endpoint(Lower(dpid), Lower(PortNoToStr(p)), mac, "s" + NatToString(a) + "-eth" + NatToString(p)))
  {
    assert "s" + NatToString(a) + "-eth" + NatToString(p) == ("s" + NatToString(a) + "-") + "eth" + NatToString(p);
    AfterLastEthOfPort("s" + NatToString(a) + "-", NatToString(p));
    ParsePyIntOfString(p);
  }

  // ---------------------------------------------------------------------
  // Filters over the topology

  /**
   * The elements whose test came out true, in order; `keep[k]` is the outcome
   * of the test on xs[k], None when evaluating it raises.
   */
  function Filter<T>(xs: seq<T>, keep: seq<Option<bool>>): Option<seq<T>>
    requires |keep| == |xs|
  {
    if xs == [] then Some([])
    else
      var prev := Filter(xs[..|xs| - 1], keep[..|xs| - 1]);
      var k := keep[|xs| - 1];
      if prev.None? || k.None? then None
      else if k.value then Some(prev.value + [xs[|xs| - 1]])
      else prev
  }

  /** The filter raises exactly when one of the tests does. */
  lemma {:induction false} FilterFails<T>(xs: seq<T>, keep: seq<Option<bool>>)
    requires |keep| == |xs|
    ensures Filter(xs, keep).None? <==> exists k :: 0 <= k < |xs| && keep[k].None?
  {
    if xs != [] {
      var n := |xs| - 1;
      FilterFails(xs[..n], keep[..n]);
      if exists k :: 0 <= k < n && keep[..n][k].None? {
        var k :| 0 <= k < n && keep[..n][k].None?;
        assert keep[k].None?;
      }
      if exists k :: 0 <= k < |xs| && keep[k].None? {
        var k :| 0 <= k < |xs| && keep[k].None?;
        if k < n { assert keep[..n][k].None?; }
      }
    }
  }

  /** Otherwise it holds exactly the elements whose test is true. */
  lemma {:induction false} FilterMembers<T>(xs: seq<T>, keep: seq<Option<bool>>, x: T)
    requires |keep| == |xs| && Filter(xs, keep).Some?
    ensures x in Filter(xs, keep).value <==> exists k :: 0 <= k < |xs| && xs[k] == x && keep[k] == Some(true)
  {
    if xs != [] {
      var n := |xs| - 1;
      FilterMembers(xs[..n], keep[..n], x);
      if exists k :: 0 <= k < n && xs[..n][k] == x && keep[..n][k] == Some(true) {
        var k :| 0 <= k < n && xs[..n][k] == x && keep[..n][k] == Some(true);
        assert xs[k] == x && keep[k] == Some(true);
      }
      if exists k :: 0 <= k < |xs| && xs[k] == x && keep[k] == Some(true) {
        var k :| 0 <= k < |xs| && xs[k] == x && keep[k] == Some(true);
        if k < n { assert xs[..n][k] == x && keep[..n][k] == Some(true); }
      }
    }
  }

  /** It keeps the original order: filtering a concatenation concatenates the results. */
  lemma {:induction false} FilterAppend<T>(a: seq<T>, ka: seq<Option<bool>>, b: seq<T>, kb: seq<Option<bool>>)
    requires |ka| == |a| && |kb| == |b|
    requires Filter(a, ka).Some? && Filter(b, kb).Some?
    ensures Filter(a + b, ka + kb) == Some(Filter(a, ka).value + Filter(b, kb).value)
  {
    if b == [] {
      assert a + b == a && ka + kb == ka;
      assert Filter(a, ka).value + [] == Filter(a, ka).value;
    } else {
      var n := |b| - 1;
      var fa := Filter(a, ka).value;
      assert Filter(b[..n], kb[..n]).Some?;
      var fb := Filter(b[..n], kb[..n]).value;
      assert (a + b)[..|a + b| - 1] == a + b[..n];
      assert (ka + kb)[..|a + b| - 1] == ka + kb[..n];
      assert (a + b)[|a + b| - 1] == b[n] && (ka + kb)[|a + b| - 1] == kb[n];
      FilterAppend(a, ka, b[..n], kb[..n]);
      assert kb[n].Some?;
      if kb[n].value {
        assert fa + (fb + [b[n]]) == (fa + fb) + [b[n]];
      }
    }
  }

  /** One more element: the filter of a longer prefix. */
  lemma FilterStep<T>(xs: seq<T>, keep: seq<Option<bool>>, i: int)
    requires |keep| == |xs| && 0 <= i < |xs|
    ensures Filter(xs[..i + 1], keep[..i + 1]) ==
      if Filter(xs[..i], keep[..i]).None? || keep[i].None? then None
      else if keep[i].value then Some(Filter(xs[..i], keep[..i]).value + [xs[i]])
      else Filter(xs[..i], keep[..i])
  {
    assert xs[..i + 1][..i] == xs[..i] && keep[..i + 1][..i] == keep[..i];
  }

  lemma {:induction false} FilterStaysNone<T>(xs: seq<T>, keep: seq<Option<bool>>, i: int)
    requires |keep| == |xs| && 0 <= i <= |xs| && Filter(xs[..i], keep[..i]).None?
    ensures Filter(xs, keep).None?
    decreases |xs| - i
  {
    if i < |xs| {
      assert xs[..i + 1][..i] == xs[..i] && keep[..i + 1][..i] == keep[..i];
      FilterStaysNone(xs, keep, i + 1);
    } else {
      assert xs[..i] == xs && keep[..i] == keep;
    }
  }

  /** `int(sw["dpid"], 16) in online_swes`, or None for a ValueError. */
  function SwitchOnline(sw: Switch, online: set<int>): Option<bool>
  {
    var d := ParseHexInt(sw.dpid);
    if d.None? then None else Some(d.value in online)
  }

  function SwitchTests(swes: seq<Switch>, online: set<int>): (r: seq<Option<bool>>)
    ensures |r| == |swes| && forall k :: 0 <= k < |swes| ==> r[k] == SwitchOnline(swes[k], online)
  {
    seq(|swes|, k requires 0 <= k < |swes| => SwitchOnline(swes[k], online))
  }

  /** What `switches()` returns, or None when a dpid is not hex. */
  function OnlineSwitches(swes: seq<Switch>, online: set<int>): Option<seq<Switch>>
  {
    Filter(swes, SwitchTests(swes, online))
  }

  /**
   * Both ends online; `and` does not read the second dpid when the first is
   * offline, so only a first dpid that is not hex, or an unreadable second dpid
   * behind an online first one, raises.
   */
  function LinkOnline(l: Link, online: set<int>): Option<bool>
  {
    var a := ParseHexInt(l.src.dpid);
    if a.None? then None
    else if a.value !in online then Some(false)
    else
      var b := ParseHexInt(l.dst.dpid);
      if b.None? then None else Some(b.value in online)
  }

  function LinkTests(links: seq<Link>, online: set<int>): (r: seq<Option<bool>>)
    ensures |r| == |links| && forall k :: 0 <= k < |links| ==> r[k] == LinkOnline(links[k], online)
  {
    seq(|links|, k requires 0 <= k < |links| => LinkOnline(links[k], online))
  }

  /** What `links()` returns, or None when a dpid it reads is not hex. */
  function OnlineLinks(links: seq<Link>, online: set<int>): Option<seq<Link>>
  {
    Filter(links, LinkTests(links, online))
  }

  /** `switches()` keeps exactly the switches whose dpid is online, in their order. */
  lemma OnlineSwitchesSpec(swes: seq<Switch>, online: set<int>, sw: Switch)
    ensures OnlineSwitches(swes, online).None? <==> exists k :: 0 <= k < |swes| && ParseHexInt(swes[k].dpid).None?
    ensures OnlineSwitches(swes, online).Some? ==>
      (sw in OnlineSwitches(swes, online).value <==> sw in swes && SwitchOnline(sw, online) == Some(true))
  {
    var tests := SwitchTests(swes, online);
    FilterFails(swes, tests);
    if OnlineSwitches(swes, online).Some? {
      FilterMembers(swes, tests, sw);
    }
  }

  /** `links()` keeps exactly the links whose two ends are online, in their order. */
  lemma OnlineLinksSpec(links: seq<Link>, online: set<int>, l: Link)
    requires forall k :: 0 <= k < |links| ==> ParseHexInt(links[k].src.dpid).Some? && ParseHexInt(links[k].dst.dpid).Some?
    ensures OnlineLinks(links, online).Some?
    ensures l in OnlineLinks(links, online).value <==>
      l in links && ParseHexInt(l.src.dpid).value in online && ParseHexInt(l.dst.dpid).value in online
  {
    var tests := LinkTests(links, online);
    FilterFails(links, tests);
    FilterMembers(links, tests, l);
  }

  /** Reading the dpid of each switch as hex: `[int(sw["dpid"], 16) for sw in swes]`. */
  function DpidNumbers(swes: seq<Switch>): (r: seq<Option<int>>)
    ensures |r| == |swes| && forall k :: 0 <= k < |swes| ==> r[k] == ParseHexInt(swes[k].dpid)
  {
    seq(|swes|, k requires 0 <= k < |swes| => ParseHexInt(swes[k].dpid))
  }

  /** All the values, or None as soon as one is missing. */
  function Collect<T>(ds: seq<Option<T>>): (r: Option<seq<T>>)
    ensures r.Some? ==> |r.value| == |ds|
  {
    if ds == [] then Some([])
    else
      var prev := Collect(ds[..|ds| - 1]);
      if prev.None? || ds[|ds| - 1].None? then None else Some(prev.value + [ds[|ds| - 1].value])
  }

  lemma {:induction false} CollectSpec<T>(ds: seq<Option<T>>)
    ensures Collect(ds).None? <==> exists k :: 0 <= k < |ds| && ds[k].None?
    ensures Collect(ds).Some? ==> forall k :: 0 <= k < |ds| ==> ds[k] == Some(Collect(ds).value[k])
  {
    if ds != [] {
      var n := |ds| - 1;
      CollectSpec(ds[..n]);
      if exists k :: 0 <= k < n && ds[..n][k].None? {
        var k :| 0 <= k < n && ds[..n][k].None?;
        assert ds[k].None?;
      }
      if exists k :: 0 <= k < |ds| && ds[k].None? {
        var k :| 0 <= k < |ds| && ds[k].None?;
        if k < n { assert ds[..n][k].None?; }
      }
    }
  }

  lemma CollectStep<T>(ds: seq<Option<T>>, i: int)
    requires 0 <= i < |ds|
    ensures Collect(ds[..i + 1]) ==
      if Collect(ds[..i]).None? || ds[i].None? then None else Some(Collect(ds[..i]).value + [ds[i].value])
  {
    assert ds[..i + 1][..i] == ds[..i];
  }

  lemma {:induction false} CollectStaysNone<T>(ds: seq<Option<T>>, i: int)
    requires 0 <= i <= |ds| && Collect(ds[..i]).None?
    ensures Collect(ds).None?
    decreases |ds| - i
  {
    if i < |ds| {
      assert ds[..i + 1][..i] == ds[..i];
      CollectStaysNone(ds, i + 1);
    } else {
      assert ds[..i] == ds;
    }
  }

  /** The nodes of the list that are not current sources, in list order. */
  function NotSources(nodes: seq<int>, sources: set<int>): (r: seq<int>)
    ensures forall n :: n in r <==> n in nodes && n !in sources
  {
    if nodes == [] then []
    else NotSources(nodes[..|nodes| - 1], sources) + (if nodes[|nodes| - 1] in sources then [] else [nodes[|nodes| - 1]])
  }

  /** The loop `[int(sw["dpid"], 16) for sw in swes]`, None at the first dpid that is not hex. */
  method ParseDpids(swes: seq<Switch>) returns (r: Option<seq<int>>)
    ensures r == Collect(DpidNumbers(swes))
  {
    var cur: seq<int> := [];
    ghost var ds := DpidNumbers(swes);
    for i := 0 to |swes|
      invariant Collect(ds[..i]) == Some(cur)
    {
      CollectStep(ds, i);
      var d := ParseHexInt(swes[i].dpid);
      if d.None? {
        CollectStaysNone(ds, i + 1);
        return None;
      }
      cur := cur + [d.value];
    }
    assert ds[..|swes|] == ds;
    r := Some(cur);
  }

  /** The loop `[n for n in nodes if n not in sources]`. */
  method FilterNotSources(nodes: seq<int>, sources: set<int>) returns (avail: seq<int>)
    ensures avail == NotSources(nodes, sources)
  {
    avail := [];
    for i := 0 to |nodes|
      invariant avail == NotSources(nodes[..i], sources)
    {
      assert nodes[..i + 1][..i] == nodes[..i];
      if nodes[i] !in sources {
        avail := avail + [nodes[i]];
      }
    }
    assert nodes[..|nodes|] == nodes;
  }

  /**
   * The loop of `reset_route()`: an empty set per source, then the
   * controllers of every routing tree; false at the first tree that raises.
   */
  method RelateAll(trees: map<int, Adj>, sources: set<int>, swToCid: map<int, int>)
    returns (related: map<int, set<int>>, ok: bool)
    ensures ok <==> Resolvable(trees, sources, swToCid)
    ensures ok ==> related == ExpectedRelated(trees, sources, swToCid)
  {
    related := map s | s in sources :: {};
    var todo := trees.Keys;
    ok := true;
    while todo != {}
      invariant todo <= trees.Keys
      invariant related.Keys == sources
      invariant forall s :: s in related ==>
        related[s] == (if s in trees && s !in todo then RelatedCids(trees[s], swToCid) else {})
      invariant forall s :: s in trees && s !in todo ==> Rooted(trees[s], s, sources, swToCid)
      decreases todo
    {
      var src := Pick(todo);
      var related', fine := RelateTree(related, src, trees[src], swToCid);
      if !fine {
        assert !Resolvable(trees, sources, swToCid);
        return related, false;
      }
      related := related';
      todo := todo - {src};
    }
    var expected := ExpectedRelated(trees, sources, swToCid);
    assert related.Keys == expected.Keys;
    assert forall s :: s in related ==> related[s] == expected[s];
    assert Resolvable(trees, sources, swToCid);
  }

  // ---------------------------------------------------------------------
  // Controllers entering and leaving

  /** `controller_enter(cid)` on the online sets: the new sets and whether it raised. */
  function Enter(onlineCid: set<int>, onlineSwes: set<int>, cidToSwes: map<int, seq<int>>, cid: int): (set<int>, set<int>, bool)
  {
    if cid == 0 || cid in onlineCid then (onlineCid, onlineSwes, false)
    else if cid !in cidToSwes then (onlineCid + {cid}, onlineSwes, true)
    else (onlineCid + {cid}, onlineSwes + Elems(cidToSwes[cid]), false)
  }

  /** `for dpid in …: online_swes.remove(dpid)`, stopping at the first KeyError. */
  function RemoveAll(online: set<int>, ds: seq<int>): (set<int>, bool)
  {
    if ds == [] then (online, false)
    else if ds[0] !in online then (online, true)
    else RemoveAll(online - {ds[0]}, ds[1..])
  }

  /** `controller_leave(cid)` on the online sets. */
  function Leave(onlineCid: set<int>, onlineSwes: set<int>, cidToSwes: map<int, seq<int>>, cid: int): (set<int>, set<int>, bool)
  {
    if cid == 0 || cid !in onlineCid then (onlineCid, onlineSwes, false)
    else if cid !in cidToSwes then (onlineCid - {cid}, onlineSwes, true)
    else
      var (sw, raised) := RemoveAll(onlineSwes, cidToSwes[cid]);
      (onlineCid - {cid}, sw, raised)
  }

  /** Entering twice is entering once. */
  lemma EnterIdempotent(onlineCid: set<int>, onlineSwes: set<int>, cidToSwes: map<int, seq<int>>, cid: int)
    ensures var (c1, s1, _) := Enter(onlineCid, onlineSwes, cidToSwes, cid);
      Enter(c1, s1, cidToSwes, cid) == (c1, s1, false)
  {
  }

  /** Removing a distinct list of online switches takes exactly those away. */
  lemma {:induction false} RemoveAllPresent(online: set<int>, ds: seq<int>)
    requires Distinct(ds) && Elems(ds) <= online
    ensures RemoveAll(online, ds) == (online - Elems(ds), false)
  {
    if ds != [] {
      var rest := ds[1..];
      assert Distinct(rest) by {
        forall i, j | 0 <= i < j < |rest| ensures rest[i] != rest[j] {
          assert rest[i] == ds[i + 1] && rest[j] == ds[j + 1];
        }
      }
      assert Elems(ds) == {ds[0]} + Elems(rest) by {
        assert ds == [ds[0]] + rest;
      }
      assert ds[0] !in Elems(rest);
      assert ds[0] in Elems(ds);
      RemoveAllPresent(online - {ds[0]}, rest);
      assert (online - {ds[0]}) - Elems(rest) == online - Elems(ds);
      assert RemoveAll(online, ds) == RemoveAll(online - {ds[0]}, rest);
    } else {
      assert Elems(ds) == {};
      assert RemoveAll(online, ds) == (online, false);
      assert online - Elems(ds) == online;
    }
  }

  /**
   * A controller that was offline, whose distinct switches were all offline,
   * enters and leaves without error and leaves the online sets as they were.
   */
  lemma EnterThenLeave(onlineCid: set<int>, onlineSwes: set<int>, cidToSwes: map<int, seq<int>>, cid: int)
    requires cid != 0 && cid !in onlineCid && cid in cidToSwes
    requires Distinct(cidToSwes[cid]) && Elems(cidToSwes[cid]) !! onlineSwes
    ensures var (c1, s1, r1) := Enter(onlineCid, onlineSwes, cidToSwes, cid);
      !r1 && Leave(c1, s1, cidToSwes, cid) == (onlineCid, onlineSwes, false)
  {
    var ds := cidToSwes[cid];
    RemoveAllPresent(onlineSwes + Elems(ds), ds);
    assert (onlineSwes + Elems(ds)) - Elems(ds) == onlineSwes;
    assert (onlineCid + {cid}) - {cid} == onlineCid;
  }

  // ---------------------------------------------------------------------
  // Routes

  /** The controllers of the tree's nodes. */
  function RelatedCids(tree: Adj, swToCid: map<int, int>): set<int>
  {
    set n | n in tree && n in swToCid :: swToCid[n]
  }

  /** Every node of src's tree has a controller, and src is a current source unless the tree is empty. */
  predicate Rooted(tree: Adj, src: int, sources: set<int>, swToCid: map<int, int>)
  {
    forall n :: n in tree ==> src in sources && n in swToCid
  }

  /** Every tree can be related: `reset_route` raises no KeyError. */
  predicate Resolvable(trees: map<int, Adj>, sources: set<int>, swToCid: map<int, int>)
  {
    forall s :: s in trees ==> Rooted(trees[s], s, sources, swToCid)
  }

  /** `src_related_cid` after `reset_route`. */
  function ExpectedRelated(trees: map<int, Adj>, sources: set<int>, swToCid: map<int, int>): map<int, set<int>>
  {
    map s | s in sources :: if s in trees then RelatedCids(trees[s], swToCid) else {}
  }

  /** The trees `latest_trees_for_c_install(cid)` hands out. */
  function HandOut(related: map<int, set<int>>, trees: map<int, Adj>, cid: int): map<int, Adj>
    requires forall s :: s in related && related[s] != {} ==> s in trees
  {
    map s | s in related && cid in related[s] :: trees[s]
  }

  /** The related sets after the hand-out to cid. */
  function Consume(related: map<int, set<int>>, cid: int): map<int, set<int>>
  {
    map s | s in related :: related[s] - {cid}
  }

  /** The loop of `latest_trees_for_c_install`: collect the trees of the sources related to cid and drop cid. */
  method HandOutLoop(srcRelated: map<int, set<int>>, routingTrees: map<int, Adj>, cid: int)
    returns (trees: map<int, Adj>, related: map<int, set<int>>)
    requires forall s :: s in srcRelated && srcRelated[s] != {} ==> s in routingTrees
    ensures trees == HandOut(srcRelated, routingTrees, cid)
    ensures related == Consume(srcRelated, cid)
  {
    trees := map[];
    related := srcRelated;
    var todo := related.Keys;
    while todo != {}
      invariant todo <= srcRelated.Keys && related.Keys == srcRelated.Keys
      invariant forall s :: s in srcRelated ==> related[s] == if s in todo then srcRelated[s] else srcRelated[s] - {cid}
      invariant trees == map s | s in srcRelated && s !in todo && cid in srcRelated[s] :: routingTrees[s]
      decreases todo
    {
      var src := Pick(todo);
      todo := todo - {src};
      if cid in related[src] {
        trees := trees[src := routingTrees[src]];
        related := related[src := related[src] - {cid}];
      }
    }
    ghost var handed := HandOut(srcRelated, routingTrees, cid);
    assert trees.Keys == handed.Keys;
    assert forall s :: s in trees ==> trees[s] == handed[s];
    ghost var consumed := Consume(srcRelated, cid);
    assert related.Keys == consumed.Keys;
    assert forall s :: s in related ==> related[s] == consumed[s];
  }

  /** A repeated hand-out to the same controller returns no trees. */
  lemma HandOutOnce(related: map<int, set<int>>, trees: map<int, Adj>, cid: int)
    requires forall s :: s in related && related[s] != {} ==> s in trees
    ensures forall s :: s in Consume(related, cid) && Consume(related, cid)[s] != {} ==> s in trees
    ensures HandOut(Consume(related, cid), trees, cid) == map[]
  {
  }

  /** The hand-out to one controller does not change what any other controller gets. */
  lemma HandOutOthers(related: map<int, set<int>>, trees: map<int, Adj>, c: int, d: int)
    requires forall s :: s in related && related[s] != {} ==> s in trees
    requires c != d
    ensures forall s :: s in Consume(related, c) && Consume(related, c)[s] != {} ==> s in trees
    ensures HandOut(Consume(related, c), trees, d) == HandOut(related, trees, d)
  {
  }

  /** Right after a reset, controller c is handed the tree of every source whose tree touches one of c's switches. */
  lemma HandOutAfterReset(trees: map<int, Adj>, sources: set<int>, swToCid: map<int, int>, cid: int, s: int)
    requires Resolvable(trees, sources, swToCid)
    ensures var related := ExpectedRelated(trees, sources, swToCid);
      (forall t :: t in related && related[t] != {} ==> t in trees) &&
      (s in HandOut(related, trees, cid) <==> s in trees && exists n :: n in trees[s] && swToCid[n] == cid)
  {
    var related := ExpectedRelated(trees, sources, swToCid);
    if s in trees && exists n :: n in trees[s] && swToCid[n] == cid {
      var n :| n in trees[s] && swToCid[n] == cid;
      assert s in sources;
      assert cid in RelatedCids(trees[s], swToCid);
    }
  }

  /** The state of one distribution server. */
  class DistributionInfo {
    const cidToSwes: map<int, seq<int>>
    const swToCid: map<int, int>
    var onlineCid: set<int>
    var onlineSwes: set<int>
    const swes: seq<Switch>
    const swesInterLinks: seq<Link>
    var srcRecvs: map<int, seq<int>>
    const multicastInfo: MulticastInfo
    var routingTrees: map<int, Adj>
    var srcRelatedCid: map<int, set<int>>

    /** Every current source has a related set; a source with related controllers has a tree. */
    predicate Valid()
      reads this
    {
      srcRelatedCid.Keys == srcRecvs.Keys &&
      forall s :: s in srcRelatedCid && srcRelatedCid[s] != {} ==> s in routingTrees
    }

    /**
     * `DistributionInfo(graph_info)`: nothing online, the switches and the
     * link list built from the network, the groups of the experiment, and
     * the routes of the first routing `trees`. `__init__` raises on a port or
     * link it cannot read or a tree node without a controller; such a server does not exist.
     */
    constructor (cidToSwes: map<int, seq<int>>, swToCid: map<int, int>, netSwitches: seq<NetSwitch>,
                 netLinks: seq<NetLink>, srcRecvs: map<int, seq<int>>, info: MulticastInfo,
                 trees: map<int, Adj>)
      requires SwitchList(netSwitches).Some? && InterLinks(netLinks).Some?
      requires Resolvable(trees, srcRecvs.Keys, swToCid)
      ensures this.cidToSwes == cidToSwes && this.swToCid == swToCid && swes == SwitchList(netSwitches).value
      ensures onlineCid == {} && onlineSwes == {}
      ensures swesInterLinks == InterLinks(netLinks).value
      ensures this.srcRecvs == srcRecvs && multicastInfo == info
      ensures routingTrees == trees && srcRelatedCid == ExpectedRelated(trees, srcRecvs.Keys, swToCid)
      ensures Valid()
    {
      this.cidToSwes := cidToSwes;
      this.swToCid := swToCid;
      var switches := BuildSwitches(netSwitches);
      swes := switches.value;
      onlineCid, onlineSwes := {}, {};
      var links := BuildInterLinks(netLinks);
      swesInterLinks := links.value;
      this.srcRecvs := srcRecvs;
      multicastInfo := info;
      routingTrees := map[];
      srcRelatedCid := map[];
      new;
      var raised := ResetRoute(trees);
    }

    /** `controller_enter(cid)`; a cid missing from `cid_to_swes` raises KeyError after it was marked online. */
    method ControllerEnter(cid: int) returns (raised: bool)
      modifies this
      ensures (onlineCid, onlineSwes, raised) == Enter(old(onlineCid), old(onlineSwes), cidToSwes, cid)
      ensures srcRecvs == old(srcRecvs) && routingTrees == old(routingTrees) && srcRelatedCid == old(srcRelatedCid)
    {
      raised := false;
      if cid == 0 {
        return;
      }
      if cid !in onlineCid {
        onlineCid := onlineCid + {cid};
        if cid !in cidToSwes {
          return true;
        }
        var ds := cidToSwes[cid];
        var sw := onlineSwes;
        for i := 0 to |ds|
          invariant sw == old(onlineSwes) + Elems(ds[..i])
        {
          assert ds[..i + 1] == ds[..i] + [ds[i]];
          sw := sw + {ds[i]};
        }
        assert ds[..|ds|] == ds;
        onlineSwes := sw;
      }
    }

    /** `controller_leave(cid)`; `set.remove` of a switch that is not online raises KeyError. */
    method ControllerLeave(cid: int) returns (raised: bool)
      modifies this
      ensures (onlineCid, onlineSwes, raised) == Leave(old(onlineCid), old(onlineSwes), cidToSwes, cid)
      ensures srcRecvs == old(srcRecvs) && routingTrees == old(routingTrees) && srcRelatedCid == old(srcRelatedCid)
    {
      raised := false;
      if cid == 0 {
        return;
      }
      if cid in onlineCid {
        onlineCid := onlineCid - {cid};
        if cid !in cidToSwes {
          return true;
        }
        var ds := cidToSwes[cid];
        var sw := onlineSwes;
        var i := 0;
        while i < |ds|
          invariant 0 <= i <= |ds|
          invariant RemoveAll(sw, ds[i..]) == RemoveAll(old(onlineSwes), ds)
        {
          assert ds[i..][1..] == ds[i + 1..];
          if ds[i] !in sw {
            onlineSwes := sw;
            return true;
          }
          sw := sw - {ds[i]};
          i := i + 1;
        }
        onlineSwes := sw;
      }
    }

    /** `switches()`. */
    method Switches() returns (r: Option<seq<Switch>>)
      ensures r == OnlineSwitches(swes, onlineSwes)
    {
      var acc: seq<Switch> := [];
      ghost var tests := SwitchTests(swes, onlineSwes);
      for i := 0 to |swes|
        invariant Filter(swes[..i], tests[..i]) == Some(acc)
      {
        FilterStep(swes, tests, i);
        var keep := SwitchOnline(swes[i], onlineSwes);
        if keep.None? {
          FilterStaysNone(swes, tests, i + 1);
          return None;
        }
        if keep.value {
          acc := acc + [swes[i]];
        }
      }
      assert swes[..|swes|] == swes && tests[..|swes|] == tests;
      return Some(acc);
    }

    /** `links()`. */
    method Links() returns (r: Option<seq<Link>>)
      ensures r == OnlineLinks(swesInterLinks, onlineSwes)
    {
      var acc: seq<Link> := [];
      var ls := swesInterLinks;
      ghost var tests := LinkTests(ls, onlineSwes);
      for i := 0 to |ls|
        invariant Filter(ls[..i], tests[..i]) == Some(acc)
      {
        var keep := LinkOnline(ls[i], onlineSwes);
        assert keep == tests[i];
        FilterStep(ls, tests, i);
        if keep.None? {
          FilterStaysNone(ls, tests, i + 1);
          return None;
        }
        if keep.value {
          acc := acc + [ls[i]];
        }
      }
      assert ls[..|ls|] == ls && tests[..|ls|] == tests;
      return Some(acc);
    }

    /** `available_nodes()`: `(available_src, available_dst)`, or None for a dpid that is not hex. */
    method AvailableNodes() returns (r: Option<(seq<int>, seq<int>)>)
      ensures r.None? <==> Collect(DpidNumbers(swes)).None?
      ensures r.Some? ==> r.value.1 == Collect(DpidNumbers(swes)).value && r.value.0 == NotSources(r.value.1, srcRecvs.Keys)
    {
      var cur := ParseDpids(swes);
      if cur.None? {
        return None;
      }
      var avail := FilterNotSources(cur.value, srcRecvs.Keys);
      return Some((avail, cur.value));
    }

    /**
     * `reset_route()` with the routing trees of the new routing model. A tree
     * node without a controller, or a tree for a source that is not current,
     * raises KeyError; what was filled in before that is not described.
     */
    method ResetRoute(trees: map<int, Adj>) returns (raised: bool)
      modifies this
      ensures routingTrees == trees
      ensures onlineCid == old(onlineCid) && onlineSwes == old(onlineSwes) && srcRecvs == old(srcRecvs)
      ensures raised <==> !Resolvable(trees, srcRecvs.Keys, swToCid)
      ensures !raised ==> srcRelatedCid == ExpectedRelated(trees, srcRecvs.Keys, swToCid) && Valid()
    {
      routingTrees := trees;
      var related, ok := RelateAll(trees, srcRecvs.Keys, swToCid);
      srcRelatedCid := related;
      raised := !ok;
    }

    /**
     * `group_add(src, dst)` with the trees of the rebuilt routing model: an
     * existing source is left alone; otherwise a group is registered, dst is
     * stored and the routes are reset.
     */
    method GroupAdd(src: int, dst: seq<int>, trees: map<int, Adj>) returns (added: bool, raised: bool)
      modifies this, multicastInfo
      ensures added <==> src !in old(srcRecvs)
      ensures !added ==> (!raised && srcRecvs == old(srcRecvs) && routingTrees == old(routingTrees) &&
        srcRelatedCid == old(srcRelatedCid) && multicastInfo.srcToGroupNo == old(multicastInfo.srcToGroupNo) &&
        multicastInfo.srcToGroupIp == old(multicastInfo.srcToGroupIp) && multicastInfo.groupNo == old(multicastInfo.groupNo))
      ensures added ==> (srcRecvs == old(srcRecvs)[src := dst] && routingTrees == trees &&
        multicastInfo.srcToGroupNo == old(multicastInfo.srcToGroupNo)[src := old(multicastInfo.groupNo)] &&
        multicastInfo.srcToGroupIp == old(multicastInfo.srcToGroupIp)[src := GroupIp(old(multicastInfo.groupNo))] &&
        multicastInfo.groupNo == old(multicastInfo.groupNo) + 1 &&
        (raised <==> !Resolvable(trees, srcRecvs.Keys, swToCid)) &&
        (!raised ==> srcRelatedCid == ExpectedRelated(trees, srcRecvs.Keys, swToCid) && Valid()))
      ensures onlineCid == old(onlineCid) && onlineSwes == old(onlineSwes)
    {
      if src in srcRecvs {
        return false, false;
      }
      multicastInfo.AddGroup(src);
      srcRecvs := srcRecvs[src := dst];
      raised := ResetRoute(trees);
      added := true;
    }

    /**
     * `group_mod(src, dst)`: refused for an unknown source or an unchanged
     * receiver set; otherwise dst replaces the receivers and the routes are reset.
     */
    method GroupMod(src: int, dst: seq<int>, trees: map<int, Adj>) returns (changed: bool, raised: bool)
      modifies this
      ensures changed <==> src in old(srcRecvs) && Elems(dst) != Elems(old(srcRecvs)[src])
      ensures !changed ==> !raised && srcRecvs == old(srcRecvs) && routingTrees == old(routingTrees) && srcRelatedCid == old(srcRelatedCid)
      ensures changed ==> (srcRecvs == old(srcRecvs)[src := dst] && routingTrees == trees &&
        (raised <==> !Resolvable(trees, srcRecvs.Keys, swToCid)) &&
        (!raised ==> srcRelatedCid == ExpectedRelated(trees, srcRecvs.Keys, swToCid) && Valid()))
      ensures onlineCid == old(onlineCid) && onlineSwes == old(onlineSwes)
    {
      if src !in srcRecvs {
        return false, false;
      }
      if Elems(dst) == Elems(srcRecvs[src]) {
        return false, false;
      }
      srcRecvs := srcRecvs[src := dst];
      raised := ResetRoute(trees);
      changed := true;
    }

    /**
     * `latest_trees_for_c_install(cid)`: None for cid 0; otherwise the trees
     * of the sources whose related set holds cid, which is then taken out of
     * every related set. The group registry returned beside the trees is
     * the `multicastInfo` field.
     */
    method LatestTreesForCInstall(cid: int) returns (r: Option<map<int, Adj>>)
      requires Valid()
      modifies this
      ensures cid == 0 ==> r == None && srcRelatedCid == old(srcRelatedCid)
      ensures cid != 0 ==> r == Some(HandOut(old(srcRelatedCid), old(routingTrees), cid)) && srcRelatedCid == Consume(old(srcRelatedCid), cid)
      ensures Valid()
      ensures onlineCid == old(onlineCid) && onlineSwes == old(onlineSwes) && srcRecvs == old(srcRecvs) && routingTrees == old(routingTrees)
    {
      if cid == 0 {
        return None;
      }
      var trees, related := HandOutLoop(srcRelatedCid, routingTrees, cid);
      HandOutOnce(old(srcRelatedCid), routingTrees, cid);
      srcRelatedCid := related;
      return Some(trees);
    }
  }

  /**
   * The inner loop of `reset_route` for one source's tree: every node adds
   * its controller to the source's related set; false when a lookup raises.
   */
  method RelateTree(related: map<int, set<int>>, src: int, tree: Adj, swToCid: map<int, int>)
    returns (related': map<int, set<int>>, ok: bool)
    requires src in related ==> related[src] == {}
    ensures related'.Keys == related.Keys
    ensures ok <==> Rooted(tree, src, related.Keys, swToCid)
    ensures ok ==> related' == if src in related then related[src := RelatedCids(tree, swToCid)] else related
  {
    related' := related;
    var nodes := tree.Keys;
    while nodes != {}
      invariant nodes <= tree.Keys
      invariant related'.Keys == related.Keys
      invariant forall n :: n in tree && n !in nodes ==> src in related && n in swToCid
      invariant forall s :: s in related && s != src ==> related'[s] == related[s]
      invariant src !in related ==> related' == related
      invariant src in related ==> related'[src] == set n | n in tree && n !in nodes && n in swToCid :: swToCid[n]
      decreases nodes
    {
      var node := Pick(nodes);
      nodes := nodes - {node};
      if src !in related' || node !in swToCid {
        return related', false;
      }
      related' := related'[src := related'[src] + {swToCid[node]}];
    }
    ok := true;
    if src in related {
      var target := related[src := RelatedCids(tree, swToCid)];
      assert related'[src] == RelatedCids(tree, swToCid) by {
        assert nodes == {};
      }
      assert related'.Keys == target.Keys;
      forall s | s in related'
        ensures related'[s] == target[s]
      {
      }
      assert related' == target;
    }
  }
}
