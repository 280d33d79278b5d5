// The global topology the distribution controller assembles from what the
// other controllers publish (ryu/app/distribution/controller.py): five lists
// of entries, updated by one subscription thread per kind of message. The
// DDS calls that deliver the messages, the JSON file each update is written
// to and the timing lists are not modelled; a message is a parameter.

module GlobalTopology {
  import opened Common

  /** `{"identify", "c_id", "is_live"}`. */
  datatype ControllerEntry = ControllerEntry(identify: string, cId: int, isLive: bool)
  /** `{"c_id", "dp_id", "port_num"}`. */
  datatype SwitchEntry = SwitchEntry(cId: int, dpId: int, portNum: int)
  /** `{"dp_id", "port_no", "hw_addr", "name", "is_live", "ofproto", "config", "state"}`. */
  datatype PortEntry = PortEntry(dpId: int, portNo: int, hwAddr: string, name: string, isLive: bool,
                                 ofproto: string, config: int, state: int)
  /** `{"src_dp_id", "src_port_no", "dst_dp_id", "dst_port_no"}`. */
  datatype LinkEntry = LinkEntry(srcDpId: int, srcPortNo: int, dstDpId: int, dstPortNo: int)
  /** `{"dp_id", "port_no", "mac", "ipv4", "ipv6"}`. */
  datatype HostEntry = HostEntry(dpId: int, portNo: int, mac: string, ipv4: string, ipv6: string)

  // ---------------------------------------------------------------------
  // Python list operations

  /** `if x not in xs: xs.append(x)`. */
  function AppendIfAbsent<T(==)>(xs: seq<T>, x: T): (r: seq<T>)
    ensures x in r && Elems(r) == Elems(xs) + {x}
    ensures x in xs ==> r == xs
    ensures x !in xs ==> r == xs + [x]
    ensures Distinct(xs) ==> Distinct(r)
  {
    if x in xs then xs else xs + [x]
  }

  /** The index of the first element p holds for, or -1. */
  function FirstIndex<T>(xs: seq<T>, p: T -> bool): (i: int)
    ensures -1 <= i < |xs|
    ensures i >= 0 ==> p(xs[i])
    ensures forall k :: 0 <= k < |xs| && (i == -1 || k < i) ==> !p(xs[k])
    decreases |xs|
  {
    if xs == [] then -1
    else if p(xs[|xs| - 1]) && FirstIndex(xs[..|xs| - 1], p) == -1 then |xs| - 1
    else FirstIndex(xs[..|xs| - 1], p)
  }

  /** `for i in range(len(xs)): if p(xs[i]): del xs[i]; break`. */
  function DeleteFirst<T>(xs: seq<T>, p: T -> bool): (r: seq<T>)
    ensures var i := FirstIndex(xs, p);
      if i == -1 then r == xs else |r| == |xs| - 1 && r[..i] == xs[..i] && r[i..] == xs[i + 1..]
  {
    var i := FirstIndex(xs, p);
    if i == -1 then xs else xs[..i] + xs[i + 1..]
  }

  /** `for i in range(len(xs)): if p(xs[i]): xs[i] = f(xs[i]); break`. */
  function UpdateFirst<T>(xs: seq<T>, p: T -> bool, f: T -> T): (r: seq<T>)
    ensures |r| == |xs|
    ensures var i := FirstIndex(xs, p);
      forall k :: 0 <= k < |xs| ==> r[k] == if k == i then f(xs[k]) else xs[k]
  {
    var i := FirstIndex(xs, p);
    if i == -1 then xs else xs[i := f(xs[i])]
  }

  /** The elements drop does not hold for, in order. */
  function Keep<T>(xs: seq<T>, drop: T -> bool): seq<T>
    decreases |xs|
  {
    if xs == [] then [] else Keep(xs[..|xs| - 1], drop) + (if drop(xs[|xs| - 1]) then [] else [xs[|xs| - 1]])
  }

  lemma {:induction false} KeepAppend<T>(a: seq<T>, b: seq<T>, drop: T -> bool)
    ensures Keep(a + b, drop) == Keep(a, drop) + Keep(b, drop)
    decreases |b|
  {
    if b == [] {
      assert a + b == a;
    } else {
      var b' := b[..|b| - 1];
      assert (a + b)[..|a + b| - 1] == a + b';
      KeepAppend(a, b', drop);
    }
  }

  lemma {:induction false} KeepMembers<T>(xs: seq<T>, drop: T -> bool, x: T)
    ensures x in Keep(xs, drop) <==> x in xs && !drop(x)
    decreases |xs|
  {
    if xs != [] {
      var init := xs[..|xs| - 1];
      KeepMembers(init, drop, x);
      assert xs == init + [xs[|xs| - 1]];
    }
  }

  /** Keeping some of distinct elements leaves them distinct. */
  lemma {:induction false} KeepDistinct<T>(xs: seq<T>, drop: T -> bool)
    requires Distinct(xs)
    ensures Distinct(Keep(xs, drop))
    decreases |xs|
  {
    if xs != [] {
      var init, last := xs[..|xs| - 1], xs[|xs| - 1];
      assert Distinct(init) by {
        forall i, j | 0 <= i < j < |init| ensures init[i] != init[j] {
          assert init[i] == xs[i] && init[j] == xs[j];
        }
      }
      KeepDistinct(init, drop);
      KeepMembers(init, drop, last);
      assert last !in init by {
        forall k | 0 <= k < |init| ensures init[k] != last {
          assert init[k] == xs[k];
        }
      }
    }
  }

  /** The index of the first occurrence of x. */
  function IndexOf<T(==)>(xs: seq<T>, x: T): (i: int)
    requires x in xs
    ensures 0 <= i < |xs| && xs[i] == x
    ensures forall k :: 0 <= k < i ==> xs[k] != x
  {
    if xs[0] == x then 0 else 1 + IndexOf(xs[1..], x)
  }

  /** `xs.remove(x)`: the first occurrence goes; None is the ValueError for an absent x. */
  function RemoveValue<T(==)>(xs: seq<T>, x: T): (r: Option<seq<T>>)
    ensures r.None? <==> x !in xs
    ensures r.Some? ==> |r.value| == |xs| - 1
  {
    if x in xs then var i := IndexOf(xs, x); Some(xs[..i] + xs[i + 1..]) else None
  }

  /** Taking one element out of distinct elements leaves them distinct, and only that element goes. */
  lemma RemoveAtDistinct<T>(xs: seq<T>, i: int)
    requires Distinct(xs) && 0 <= i < |xs|
    ensures Distinct(xs[..i] + xs[i + 1..])
    ensures Elems(xs[..i] + xs[i + 1..]) == Elems(xs) - {xs[i]}
  {
    var r := xs[..i] + xs[i + 1..];
    forall a, b | 0 <= a < b < |r| ensures r[a] != r[b] {
      var a', b' := if a < i then a else a + 1, if b < i then b else b + 1;
      assert r[a] == xs[a'] && r[b] == xs[b'];
    }
    forall y | y in Elems(xs) - {xs[i]} ensures y in Elems(r) {
      var k :| 0 <= k < |xs| && xs[k] == y;
      if k < i {
        assert r[k] == y;
      } else {
        assert r[k - 1] == y;
      }
    }
    forall y | y in Elems(r) ensures y in Elems(xs) - {xs[i]} {
      var k :| 0 <= k < |r| && r[k] == y;
      var k' := if k < i then k else k + 1;
      assert xs[k'] == y && k' != i;
    }
  }

  /** In distinct elements, `remove` takes out x and nothing else. */
  lemma RemoveValueDistinct<T>(xs: seq<T>, x: T)
    requires Distinct(xs) && x in xs
    ensures Distinct(RemoveValue(xs, x).value)
    ensures Elems(RemoveValue(xs, x).value) == Elems(xs) - {x}
  {
    RemoveAtDistinct(xs, IndexOf(xs, x));
  }

  /** Adding an absent entry and then removing it gives the list back. */
  lemma AppendThenRemove<T>(xs: seq<T>, x: T)
    requires x !in xs
    ensures RemoveValue(AppendIfAbsent(xs, x), x) == Some(xs)
  {
    var ys := xs + [x];
    assert AppendIfAbsent(xs, x) == ys;
    assert ys[|xs|] == x;
    var i := IndexOf(ys, x);
    assert i == |xs|;
    assert ys[..i] + ys[i + 1..] == xs;
  }

  lemma DeleteFirstDistinct<T>(xs: seq<T>, p: T -> bool)
    requires Distinct(xs)
    ensures Distinct(DeleteFirst(xs, p))
  {
    var i := FirstIndex(xs, p);
    if i != -1 {
      RemoveAtDistinct(xs, i);
    }
  }

  // ---------------------------------------------------------------------
  // The loops of the subscription threads

  /** The `for i in range(len(xs))` loop that deletes the first match and breaks. */
  method DeleteFirstLoop<T>(xs: seq<T>, p: T -> bool) returns (ys: seq<T>)
    ensures ys == DeleteFirst(xs, p)
  {
    var i := 0;
    while i < |xs|
      invariant 0 <= i <= |xs|
      invariant forall k :: 0 <= k < i ==> !p(xs[k])
    {
      if p(xs[i]) {
        assert FirstIndex(xs, p) == i;
        return xs[..i] + xs[i + 1..];
      }
      i := i + 1;
    }
    assert FirstIndex(xs, p) == -1;
    ys := xs;
  }

  /** The `for i in range(len(xs))` loop that rewrites the first match and breaks. */
  method UpdateFirstLoop<T>(xs: seq<T>, p: T -> bool, f: T -> T) returns (ys: seq<T>)
    ensures ys == UpdateFirst(xs, p, f)
  {
    var i := 0;
    while i < |xs|
      invariant 0 <= i <= |xs|
      invariant forall k :: 0 <= k < i ==> !p(xs[k])
    {
      if p(xs[i]) {
        assert FirstIndex(xs, p) == i;
        return xs[i := f(xs[i])];
      }
      i := i + 1;
    }
    assert FirstIndex(xs, p) == -1;
    ys := xs;
  }

  /** Removing the first occurrence of a dropped ys[i] keeps what `Keep` keeps of the first i + 1 elements. */
  lemma KeepAfterRemove<T>(ys: seq<T>, i: int, drop: T -> bool)
    requires 0 <= i < |ys| && drop(ys[i])
    ensures var r := RemoveValue(ys, ys[i]).value;
      |r| == |ys| - 1 && Keep(r[..i], drop) == Keep(ys[..i + 1], drop) && r[i..] == ys[i + 1..]
  {
    var x := ys[i];
    var j := IndexOf(ys, x);
    assert j <= i;
    assert RemoveValue(ys, x).value == ys[..j] + ys[j + 1..];
    SpliceShape(ys, i, j);
    KeepDropped(ys[..j], x, ys[j + 1..i + 1], drop);
  }

  /** Cutting out ys[j] for some j <= i, seen from the first i + 1 elements and from the rest. */
  lemma SpliceShape<T>(ys: seq<T>, i: int, j: int)
    requires 0 <= j <= i < |ys|
    ensures var r, a, b := ys[..j] + ys[j + 1..], ys[..j], ys[j + 1..i + 1];
      ys[..i + 1] == (a + [ys[j]]) + b && r[..i] == a + b && r[i..] == ys[i + 1..]
  {
  }

  /** A dropped element in the middle makes no difference to `Keep`. */
  lemma KeepDropped<T>(a: seq<T>, x: T, b: seq<T>, drop: T -> bool)
    requires drop(x)
    ensures Keep(a + b, drop) == Keep((a + [x]) + b, drop)
  {
    KeepAppend(a, b, drop);
    KeepAppend(a + [x], b, drop);
    KeepAppend(a, [x], drop);
    assert Keep([x], drop) == [] by {
      assert [x][..0] == [];
    }
  }

  /**
   * `for x in reversed(xs): if drop(x): xs.remove(x)`: the iterator walks
   * the indices downward while `remove` takes out the first equal element;
   * whatever the duplicates, exactly the dropped elements go.
   */
  method RemoveReversedLoop<T(==)>(xs: seq<T>, drop: T -> bool) returns (ys: seq<T>)
    ensures ys == Keep(xs, drop)
  {
    ys := xs;
    var i := |xs| - 1;
    assert ys[..i + 1] == xs && ys[i + 1..] == [];
    while i >= 0
      invariant -1 <= i < |ys|
      invariant forall k :: i + 1 <= k < |ys| ==> !drop(ys[k])
      invariant Keep(ys[..i + 1], drop) + ys[i + 1..] == Keep(xs, drop)
      decreases i + 1
    {
      var x := ys[i];
      if drop(x) {
        KeepAfterRemove(ys, i, drop);
        ys := RemoveValue(ys, x).value;
      } else {
        KeepSkip(ys, i, drop);
      }
      i := i - 1;
    }
    assert ys[..0] == [];
  }

  /** A kept ys[i] moves from the part still to scan to the part already kept. */
  lemma KeepSkip<T>(ys: seq<T>, i: int, drop: T -> bool)
    requires 0 <= i < |ys| && !drop(ys[i])
    ensures Keep(ys[..i + 1], drop) + ys[i + 1..] == Keep(ys[..i], drop) + ys[i..]
  {
    assert ys[..i + 1][..i] == ys[..i];
    assert ys[i..] == [ys[i]] + ys[i + 1..];
  }

  /** `'.'.join(str(i) for i in writer_info)`. */
  function JoinDots(xs: seq<int>): string
  {
    if xs == [] then ""
    else if |xs| == 1 then IntToString(xs[0])
    else JoinDots(xs[..|xs| - 1]) + "." + IntToString(xs[|xs| - 1])
  }

  /** `sub_writer`: every controller published by the writer that left is marked not live. */
  function MarkExited(cs: seq<ControllerEntry>, identify: string): (r: seq<ControllerEntry>)
    ensures |r| == |cs|
    ensures forall k :: 0 <= k < |cs| ==> r[k] == if cs[k].identify == identify then cs[k].(isLive := false) else cs[k]
  {
    seq(|cs|, k requires 0 <= k < |cs| => if cs[k].identify == identify then cs[k].(isLive := false) else cs[k])
  }

  /** Only the exited writer's controllers change, and none of them is live afterwards. */
  lemma MarkExitedOnlyTouchesWriter(cs: seq<ControllerEntry>, identify: string, k: int)
    requires 0 <= k < |cs|
    ensures MarkExited(cs, identify)[k].identify == cs[k].identify && MarkExited(cs, identify)[k].cId == cs[k].cId
    ensures MarkExited(cs, identify)[k].isLive <==> cs[k].isLive && cs[k].identify != identify
  {
  }

  method MarkExitedLoop(cs: seq<ControllerEntry>, identify: string) returns (r: seq<ControllerEntry>)
    ensures r == MarkExited(cs, identify)
  {
    r := cs;
    var i := 0;
    while i < |r|
      invariant 0 <= i <= |r| == |cs|
      invariant forall k :: 0 <= k < i ==> r[k] == MarkExited(cs, identify)[k]
      invariant forall k :: i <= k < |r| ==> r[k] == cs[k]
    {
      if r[i].identify == identify {
        r := r[i := r[i].(isLive := false)];
      }
      i := i + 1;
    }
  }

  // ---------------------------------------------------------------------
  // Switch removal

  /** The three lists a switch removal touches. */
  datatype Removal = Removal(switches: seq<SwitchEntry>, ports: seq<PortEntry>, hosts: seq<HostEntry>, raised: bool)

  /**
   * The removal branch of `sub_switch_threading` as written: the first
   * switch with the dpid and every port on it go; the host loop then calls
   * `ports.remove(host)`, and a host entry is never in the port list, so the
   * first host on the switch raises ValueError and no host is removed.
   */
  function SwitchRemovedAsWritten(switches: seq<SwitchEntry>, ports: seq<PortEntry>, hosts: seq<HostEntry>, dpId: int): (r: Removal)
    ensures r.raised <==> exists k :: 0 <= k < |hosts| && hosts[k].dpId == dpId
    ensures r.hosts == hosts
  {
    var sw := DeleteFirst(switches, (s: SwitchEntry) => s.dpId == dpId);
    var ps := Keep(ports, (p: PortEntry) => p.dpId == dpId);
    Removal(sw, ps, hosts, FirstIndex(hosts, (h: HostEntry) => h.dpId == dpId) != -1)
  }

  /** The removal with the host loop removing from the host list, as evidently intended. */
  function SwitchRemoved(switches: seq<SwitchEntry>, ports: seq<PortEntry>, hosts: seq<HostEntry>, dpId: int): (r: Removal)
    ensures !r.raised
  {
    Removal(DeleteFirst(switches, (s: SwitchEntry) => s.dpId == dpId),
            Keep(ports, (p: PortEntry) => p.dpId == dpId),
            Keep(hosts, (h: HostEntry) => h.dpId == dpId), false)
  }

  /** After the intended removal no port and no host of the switch is listed, and every other one still is. */
  lemma SwitchRemovedClears(switches: seq<SwitchEntry>, ports: seq<PortEntry>, hosts: seq<HostEntry>, dpId: int,
                            p: PortEntry, h: HostEntry)
    ensures var r := SwitchRemoved(switches, ports, hosts, dpId);
      (p in r.ports <==> p in ports && p.dpId != dpId) &&
      (h in r.hosts <==> h in hosts && h.dpId != dpId)
  {
    KeepMembers(ports, (q: PortEntry) => q.dpId == dpId, p);
    KeepMembers(hosts, (q: HostEntry) => q.dpId == dpId, h);
  }

  /** One host on a switch is enough: its removal raises, and the host stays listed. */
  lemma SwitchWithHostRaises(h: HostEntry)
    ensures var r := SwitchRemovedAsWritten([SwitchEntry(1, h.dpId, 1)], [], [h], h.dpId);
      r.raised && r.hosts == [h] && r.switches == []
  {
    assert [h][0].dpId == h.dpId;
  }

  // ---------------------------------------------------------------------
  // Messages

  /** The switch message: publisher identity, controller, dpid, port count, join or leave. */
  datatype SwitchMsg = SwitchMsg(writerInfo: seq<int>, controllerId: int, dpId: int, portNum: int, operation: bool)
  /** The port message; operation 0 deletes, 1 adds, 2 modifies. */
  datatype PortMsg = PortMsg(dpId: int, portNo: int, hwAddr: string, name: string, isLive: bool,
                             ofproto: string, config: int, state: int, operation: int)
  datatype LinkMsg = LinkMsg(srcDpId: int, srcPortNo: int, dstDpId: int, dstPortNo: int, operation: bool)
  datatype HostMsg = HostMsg(dpId: int, portNo: int, mac: string, ipv4: string, ipv6: string, operation: bool)

  function PortOfMsg(m: PortMsg): PortEntry
  {
    PortEntry(m.dpId, m.portNo, m.hwAddr, m.name, m.isLive, m.ofproto, m.config, m.state)
  }

  /** The port list after a port deletion: the first port with the dpid and port number. */
  function SamePort(m: PortMsg): PortEntry -> bool
  {
    (p: PortEntry) => p.dpId == m.dpId && p.portNo == m.portNo
  }

  function SameHostPort(m: PortMsg): HostEntry -> bool
  {
    (h: HostEntry) => h.dpId == m.dpId && h.portNo == m.portNo
  }

  function OnDpid(d: int): SwitchEntry -> bool
  {
    (s: SwitchEntry) => s.dpId == d
  }

  function DecPortNum(s: SwitchEntry): SwitchEntry
  {
    s.(portNum := s.portNum - 1)
  }

  /**
   * `global_topo` and the liveness of the link thread, which the removal of
   * a link that is not listed ends.
   */
  class GlobalTopo {
    var controllers: seq<ControllerEntry>
    var switches: seq<SwitchEntry>
    var ports: seq<PortEntry>
    var links: seq<LinkEntry>
    var hosts: seq<HostEntry>
    var linkThreadAlive: bool

    /** Links and hosts are only ever appended when absent, and removals keep the rest, so neither list repeats an entry. */
    ghost predicate Valid()
      reads this
    {
      Distinct(links) && Distinct(hosts)
    }

    constructor ()
      ensures Valid()
      ensures controllers == [] && switches == [] && ports == [] && links == [] && hosts == []
      ensures linkThreadAlive
    {
      controllers, switches, ports, links, hosts := [], [], [], [], [];
      linkThreadAlive := true;
    }

    /** `sub_writer`, for the writer whose info is given. */
    method OnWriterExit(writerInfo: seq<int>)
      requires Valid()
      modifies this
      ensures Valid()
      ensures controllers == MarkExited(old(controllers), JoinDots(writerInfo))
      ensures switches == old(switches) && ports == old(ports) && links == old(links) && hosts == old(hosts)
      ensures linkThreadAlive == old(linkThreadAlive)
    {
      controllers := MarkExitedLoop(controllers, JoinDots(writerInfo));
    }

    /**
     * One turn of `sub_switch_threading`. A join appends the controller and
     * the switch when absent; a leave runs the removal with the host loop
     * removing from the host list (SwitchRemovedAsWritten is the loop as
     * written, whose ValueError would end the thread).
     */
    method OnSwitchMsg(m: SwitchMsg)
      requires Valid()
      modifies this
      ensures Valid()
      ensures links == old(links) && linkThreadAlive == old(linkThreadAlive)
      ensures m.controllerId == 0 ==>
        controllers == old(controllers) && switches == old(switches) && ports == old(ports) && hosts == old(hosts)
      ensures m.controllerId != 0 && m.operation ==>
        controllers == AppendIfAbsent(old(controllers), ControllerEntry(JoinDots(m.writerInfo), m.controllerId, true)) &&
        switches == AppendIfAbsent(old(switches), SwitchEntry(m.controllerId, m.dpId, m.portNum)) &&
        ports == old(ports) && hosts == old(hosts)
      ensures m.controllerId != 0 && !m.operation ==>
        var r := SwitchRemoved(old(switches), old(ports), old(hosts), m.dpId);
        controllers == old(controllers) && switches == r.switches && ports == r.ports && hosts == r.hosts
    {
      if m.controllerId == 0 {
        return;
      }
      if m.operation {
        var c := ControllerEntry(JoinDots(m.writerInfo), m.controllerId, true);
        if c !in controllers {
          controllers := controllers + [c];
        }
        var s := SwitchEntry(m.controllerId, m.dpId, m.portNum);
        if s !in switches {
          switches := switches + [s];
        }
      } else {
        switches := DeleteFirstLoop(switches, OnDpid(m.dpId));
        ports := RemoveReversedLoop(ports, (p: PortEntry) => p.dpId == m.dpId);
        KeepDistinct(hosts, (h: HostEntry) => h.dpId == m.dpId);
        hosts := RemoveReversedLoop(hosts, (h: HostEntry) => h.dpId == m.dpId);
      }
    }

    /** One turn of `sub_port_threading`. */
    method OnPortMsg(m: PortMsg)
      requires Valid()
      modifies this
      ensures Valid()
      ensures controllers == old(controllers) && links == old(links)
      ensures linkThreadAlive == old(linkThreadAlive)
      ensures m.dpId == 0 || m.operation !in {0, 1, 2} ==> switches == old(switches) && ports == old(ports) && hosts == old(hosts)
      ensures m.dpId != 0 && m.operation == 2 ==>
        ports == UpdateFirst(old(ports), SamePort(m), (_: PortEntry) => PortOfMsg(m)) && switches == old(switches) && hosts == old(hosts)
      ensures m.dpId != 0 && m.operation == 0 ==>
        ports == DeleteFirst(old(ports), SamePort(m)) &&
        switches == UpdateFirst(old(switches), OnDpid(m.dpId), DecPortNum) &&
        hosts == DeleteFirst(old(hosts), SameHostPort(m))
      ensures m.dpId != 0 && m.operation == 1 ==>
        ports == AppendIfAbsent(old(ports), PortOfMsg(m)) && switches == old(switches) && hosts == old(hosts)
    {
      if m.dpId == 0 {
        return;
      }
      if m.operation == 2 {
        ports := UpdateFirstLoop(ports, SamePort(m), (_: PortEntry) => PortOfMsg(m));
      } else if m.operation == 0 {
        ports := DeleteFirstLoop(ports, SamePort(m));
        switches := UpdateFirstLoop(switches, OnDpid(m.dpId), DecPortNum);
        DeleteFirstDistinct(hosts, SameHostPort(m));
        hosts := DeleteFirstLoop(hosts, SameHostPort(m));
      } else if m.operation == 1 {
        var p := PortOfMsg(m);
        if p !in ports {
          ports := ports + [p];
        }
      }
    }

    /** One turn of `sub_link_threading`: removing a link that is not listed raises and ends the thread. */
    method OnLinkMsg(m: LinkMsg)
      requires Valid()
      modifies this
      ensures Valid()
      ensures controllers == old(controllers) && switches == old(switches) && ports == old(ports) && hosts == old(hosts)
      ensures var l := LinkEntry(m.srcDpId, m.srcPortNo, m.dstDpId, m.dstPortNo);
        if !old(linkThreadAlive) || m.srcDpId == 0 then links == old(links) && linkThreadAlive == old(linkThreadAlive)
        else if m.operation then links == AppendIfAbsent(old(links), l) && linkThreadAlive
        else if l in old(links) then links == RemoveValue(old(links), l).value && linkThreadAlive && l !in links
        else links == old(links) && !linkThreadAlive
    {
      if !linkThreadAlive || m.srcDpId == 0 {
        return;
      }
      var l := LinkEntry(m.srcDpId, m.srcPortNo, m.dstDpId, m.dstPortNo);
      if m.operation {
        if l !in links {
          links := links + [l];
        }
      } else if l in links {
        RemoveValueDistinct(links, l);
        links := RemoveValue(links, l).value;
      } else {
        linkThreadAlive := false;
      }
    }

    /** One turn of `sub_host_threading`: a host is appended when absent. */
    method OnHostMsg(m: HostMsg)
      requires Valid()
      modifies this
      ensures Valid()
      ensures controllers == old(controllers) && switches == old(switches) && ports == old(ports) && links == old(links)
      ensures linkThreadAlive == old(linkThreadAlive)
      ensures hosts == if m.dpId != 0 && m.operation then AppendIfAbsent(old(hosts), HostEntry(m.dpId, m.portNo, m.mac, m.ipv4, m.ipv6)) else old(hosts)
    {
      if m.dpId != 0 && m.operation {
        var h := HostEntry(m.dpId, m.portNo, m.mac, m.ipv4, m.ipv6);
        if h !in hosts {
          hosts := hosts + [h];
        }
      }
    }
  }
}
