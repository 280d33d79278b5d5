// The learning tables both Ryu controller apps keep for the switches they
// manage: duplicate suppression of ARP requests that reach a switch on more
// than one port, MAC learning, the forwarding decision for unicast IPv4, and
// the registry of connected datapaths. ryu/app/distribution/controller.py
// and ryu/app/mobility/controller.py carry the same code; the mobility app
// wraps the ARP step in a lock, which is modelled in MobilityController.

module SwitchTables {
  import opened Common

  /** `ofproto_v1_3.OFPP_FLOOD`. */
  const OFPP_FLOOD: int := 0xffff_fffb

  /** Ether types the packet-in handler tells apart. */
  const ETH_TYPE_IP: int := 0x0800
  const ETH_TYPE_ARP: int := 0x0806
  const ETH_TYPE_IPV6: int := 0x86dd
  const ETH_TYPE_LLDP: int := 0x88cc

  /** `arp_key = (dpid, arp_pkt.src_mac, arp_pkt.dst_ip)`. */
  datatype ArpKey = ArpKey(dpid: int, srcMac: string, dstIp: string)

  /** The fields of an ARP packet the handler reads. */
  datatype ArpPacket = ArpPacket(srcMac: string, dstMac: string, dstIp: string)

  /** `arp_received`, `arp_port` and `mac_to_port` (dpid -> MAC -> port). */
  datatype Tables = Tables(arpReceived: map<ArpKey, bool>, arpPort: map<ArpKey, int>, macToPort: map<int, map<string, int>>)

  const EmptyTables := Tables(map[], map[], map[])

  /**
   * What every reachable state satisfies: a key is marked received exactly
   * when its first port is recorded, and a recorded mark is always True
   * (the `setdefault(key, False)` default is overwritten at once).
   */
  predicate WellFormed(t: Tables)
  {
    t.arpReceived.Keys == t.arpPort.Keys && forall k :: k in t.arpReceived ==> t.arpReceived[k]
  }

  /** The MAC table of a switch, empty when it has none yet (`setdefault(dpid, {})`). */
  function MacTable(t: Tables, dpid: int): map<string, int>
  {
    if dpid in t.macToPort then t.macToPort[dpid] else map[]
  }

  /** The result of `handle_arp`: the new tables, and the output port or None when the packet is dropped. */
  datatype ArpOutcome = ArpOutcome(tables: Tables, out: Option<int>)

  /** A repeat of a known request that arrives on another port than the first one. */
  predicate IsEcho(t: Tables, dpid: int, pkt: ArpPacket, inPort: int)
    requires WellFormed(t)
  {
    var key := ArpKey(dpid, pkt.srcMac, pkt.dstIp);
    key in t.arpReceived && t.arpPort[key] != inPort
  }

  /**
   * `handle_arp`: the first request per key records its port; a repeat on
   * another port is dropped without learning; otherwise the source MAC is
   * learned on the in-port and the packet goes to the learned port of the
   * destination MAC, or is flooded.
   */
  function ArpStep(t: Tables, dpid: int, pkt: ArpPacket, inPort: int): (r: ArpOutcome)
    requires WellFormed(t)
    ensures WellFormed(r.tables)
    ensures r.out.None? <==> IsEcho(t, dpid, pkt, inPort)
    ensures r.out.None? ==> r.tables == t
    ensures var key := ArpKey(dpid, pkt.srcMac, pkt.dstIp);
      key in r.tables.arpPort && r.tables.arpPort[key] == (if key in t.arpPort then t.arpPort[key] else inPort) &&
      forall k :: k in t.arpPort && k != key ==> k in r.tables.arpPort && r.tables.arpPort[k] == t.arpPort[k]
    ensures r.tables.arpPort.Keys == t.arpPort.Keys + {ArpKey(dpid, pkt.srcMac, pkt.dstIp)}
    ensures r.out.Some? ==>
      MacTable(r.tables, dpid) == MacTable(t, dpid)[pkt.srcMac := inPort] &&
      (forall d :: d != dpid && d in t.macToPort ==> d in r.tables.macToPort && r.tables.macToPort[d] == t.macToPort[d]) &&
      r.tables.macToPort.Keys == t.macToPort.Keys + {dpid} &&
      r.out.value == (if pkt.dstMac in MacTable(r.tables, dpid) then MacTable(r.tables, dpid)[pkt.dstMac] else OFPP_FLOOD)
  {
    var key := ArpKey(dpid, pkt.srcMac, pkt.dstIp);
    var received := if key in t.arpReceived then t.arpReceived else t.arpReceived[key := false];
    if !received[key] then
      Learn(Tables(received[key := true], t.arpPort[key := inPort], t.macToPort), dpid, pkt, inPort)
    else if received[key] && t.arpPort[key] != inPort then ArpOutcome(t, None)
    else Learn(t, dpid, pkt, inPort)
  }

  /** The learning half of `handle_arp`. */
  function Learn(t: Tables, dpid: int, pkt: ArpPacket, inPort: int): (r: ArpOutcome)
    ensures r.tables.arpReceived == t.arpReceived && r.tables.arpPort == t.arpPort
    ensures r.out.Some?
  {
    var table := MacTable(t, dpid)[pkt.srcMac := inPort];
    var tables := Tables(t.arpReceived, t.arpPort, t.macToPort[dpid := table]);
    ArpOutcome(tables, Some(if pkt.dstMac in table then table[pkt.dstMac] else OFPP_FLOOD))
  }

  /** Once a request has been seen on port p, the same request on any other port is dropped and changes nothing. */
  lemma ArpFirstPortWins(t: Tables, dpid: int, pkt: ArpPacket, p: int, q: int)
    requires WellFormed(t) && p != q
    requires ArpKey(dpid, pkt.srcMac, pkt.dstIp) !in t.arpPort
    ensures var once := ArpStep(t, dpid, pkt, p);
      once.out.Some? &&
      ArpStep(once.tables, dpid, pkt, q) == ArpOutcome(once.tables, None)
  {
  }

  /** Handling the same request twice on the same port is the same as handling it once. */
  lemma ArpStepIdempotent(t: Tables, dpid: int, pkt: ArpPacket, p: int)
    requires WellFormed(t)
    ensures var once := ArpStep(t, dpid, pkt, p);
      var twice := ArpStep(once.tables, dpid, pkt, p);
      twice.tables == once.tables && twice.out == once.out
  {
    var once := ArpStep(t, dpid, pkt, p);
    if once.out.Some? {
      var key := ArpKey(dpid, pkt.srcMac, pkt.dstIp);
      var twice := ArpStep(once.tables, dpid, pkt, p);
      assert !IsEcho(once.tables, dpid, pkt, p);
      assert MacTable(once.tables, dpid)[pkt.srcMac := p] == MacTable(once.tables, dpid);
      assert once.tables.macToPort[dpid := MacTable(once.tables, dpid)] == once.tables.macToPort;
    }
  }

  /** The switch states `_state_change_handler` reacts to. */
  datatype DispatcherState = MainDispatcher | DeadDispatcher | OtherDispatcher

  /**
   * `_state_change_handler` on the registry dpid -> datapath: a datapath
   * entering MAIN is registered only when its id is absent, one entering
   * DEAD is unregistered only when present.
   */
  function StateChange(datapaths: map<int, int>, id: int, datapath: int, state: DispatcherState): (d: map<int, int>)
    ensures state == MainDispatcher ==> d.Keys == datapaths.Keys + {id} && d[id] == (if id in datapaths then datapaths[id] else datapath)
    ensures state == DeadDispatcher ==> d.Keys == datapaths.Keys - {id}
    ensures forall k :: k in d && k != id ==> k in datapaths && d[k] == datapaths[k]
    ensures state == OtherDispatcher ==> d == datapaths
    ensures forall k :: k in datapaths && k != id ==> k in d
  {
    match state
    case MainDispatcher => if id !in datapaths then datapaths[id := datapath] else datapaths
    case DeadDispatcher => if id in datapaths then datapaths - {id} else datapaths
    case OtherDispatcher => datapaths
  }

  /** A datapath that connects and then dies leaves the registry as it was, when its id was not registered before. */
  lemma RegisterThenUnregister(datapaths: map<int, int>, id: int, datapath: int)
    requires id !in datapaths
    ensures StateChange(StateChange(datapaths, id, datapath, MainDispatcher), id, datapath, DeadDispatcher) == datapaths
  {
    var d := StateChange(StateChange(datapaths, id, datapath, MainDispatcher), id, datapath, DeadDispatcher);
    assert d.Keys == datapaths.Keys;
  }

  /**
   * The IPv4 branch of `_packet_in_handler`: the packet is sent to the
   * learned port of its destination MAC, and nothing happens when the switch
   * has no MAC table or the MAC is unknown.
   */
  function IpOutPort(t: Tables, dpid: int, dstMac: string): (out: Option<int>)
    ensures out.Some? <==> dpid in t.macToPort && dstMac in t.macToPort[dpid]
    ensures out.Some? ==> out.value == t.macToPort[dpid][dstMac]
  {
    if dpid !in t.macToPort then None
    else if dstMac in t.macToPort[dpid] then Some(t.macToPort[dpid][dstMac])
    else None
  }

  /** After an ARP request from a MAC is learned, IPv4 traffic to that MAC on the same switch leaves through the request's in-port. */
  lemma LearnedMacForwards(t: Tables, dpid: int, pkt: ArpPacket, p: int)
    requires WellFormed(t)
    requires !IsEcho(t, dpid, pkt, p)
    ensures IpOutPort(ArpStep(t, dpid, pkt, p).tables, dpid, pkt.srcMac) == Some(p)
  {
  }

  /** What `_packet_in_handler` does with a packet, by Ether type. */
  datatype PacketKind = Ignored | ArpRequest | Ipv4

  function Classify(ethertype: int): (k: PacketKind)
    ensures k == ArpRequest <==> ethertype == ETH_TYPE_ARP
    ensures k == Ipv4 <==> ethertype == ETH_TYPE_IP
  {
    if ethertype == ETH_TYPE_IPV6 then Ignored
    else if ethertype == ETH_TYPE_LLDP then Ignored
    else if ethertype == ETH_TYPE_ARP then ArpRequest
    else if ethertype == ETH_TYPE_IP then Ipv4
    else Ignored
  }

  /**
   * The tables of the distribution controller's `GUIServerApp` and its
   * datapath registry, with the handlers that update them.
   */
  class Learning {
    var arpReceived: map<ArpKey, bool>
    var arpPort: map<ArpKey, int>
    var macToPort: map<int, map<string, int>>
    var datapaths: map<int, int>

    function Current(): Tables
      reads this
    {
      Tables(arpReceived, arpPort, macToPort)
    }

    ghost predicate Valid()
      reads this
    {
      WellFormed(Current())
    }

    constructor ()
      ensures Valid() && Current() == EmptyTables && datapaths == map[]
    {
      arpReceived, arpPort, macToPort, datapaths := map[], map[], map[], map[];
    }

    /** `handle_arp`; out is None when the packet is dropped. */
    method HandleArp(dpid: int, pkt: ArpPacket, inPort: int) returns (out: Option<int>)
      requires Valid()
      modifies this
      ensures Valid()
      ensures Current() == ArpStep(old(Current()), dpid, pkt, inPort).tables
      ensures out == ArpStep(old(Current()), dpid, pkt, inPort).out
      ensures datapaths == old(datapaths)
    {
      var key := ArpKey(dpid, pkt.srcMac, pkt.dstIp);
      if key !in arpReceived {
        arpReceived := arpReceived[key := false];
      }
      if !arpReceived[key] {
        arpReceived := arpReceived[key := true];
        arpPort := arpPort[key := inPort];
      } else if arpReceived[key] && arpPort[key] != inPort {
        return None;
      }
      var table := if dpid in macToPort then macToPort[dpid] else map[];
      table := table[pkt.srcMac := inPort];
      macToPort := macToPort[dpid := table];
      out := Some(if pkt.dstMac in table then table[pkt.dstMac] else OFPP_FLOOD);
    }

    /** `_state_change_handler`. */
    method OnStateChange(id: int, datapath: int, state: DispatcherState)
      modifies this
      ensures datapaths == StateChange(old(datapaths), id, datapath, state)
      ensures Current() == old(Current())
    {
      if state == MainDispatcher {
        if id !in datapaths {
          datapaths := datapaths[id := datapath];
        }
      } else if state == DeadDispatcher {
        if id in datapaths {
          datapaths := datapaths - {id};
        }
      }
    }

    /**
     * `_packet_in_handler` for a packet of the given Ether type; arp is
     * the ARP payload when there is one. The result is the port the packet
     * is sent out of, or None when nothing is sent.
     */
    method PacketIn(dpid: int, ethertype: int, arp: Option<ArpPacket>, ethDst: string, inPort: int) returns (out: Option<int>)
      requires Valid()
      requires ethertype == ETH_TYPE_ARP ==> arp.Some?
      modifies this
      ensures Valid() && datapaths == old(datapaths)
      ensures Classify(ethertype) == ArpRequest ==>
        Current() == ArpStep(old(Current()), dpid, arp.value, inPort).tables && out == ArpStep(old(Current()), dpid, arp.value, inPort).out
      ensures Classify(ethertype) == Ipv4 ==> Current() == old(Current()) && out == IpOutPort(old(Current()), dpid, ethDst)
      ensures Classify(ethertype) == Ignored ==> Current() == old(Current()) && out == None
    {
      var kind := Classify(ethertype);
      if kind == ArpRequest {
        out := HandleArp(dpid, arp.value, inPort);
      } else if kind == Ipv4 {
        out := IpOutPort(Current(), dpid, ethDst);
      } else {
        out := None;
      }
    }
  }
}
