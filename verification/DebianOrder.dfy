// The order of the labels in a compiled stanza, which the file format fixes: family and method lead, the
// addressing follows, then the hardware labels, then those of the kind.
module DebianOrder {
  import opened Text
  import opened Document
  import opened Debian
  import opened DebianImage
  import DebianCompiled

  /** Where a label stands; bridges, bonds and VLANs are not mixed. */
  function Place(name: Label): nat {
    match name
    case FAMILY => 0
    case METHOD => 1
    case ADDRESS => 2
    case NETMASK => 3
    case GATEWAY => 4
    case UP => 5
    case DOWN => 6
    case HWADDRESS => 7
    case MTU => 8
    case BRIDGE_PORTS | BOND_SLAVES | VLAN_RAW_DEVICE => 9
    case BRIDGE_STP | BOND_PRIMARY => 10
    case BRIDGE_FD | BOND_MODE => 11
    case BOND_MIIMON => 12
    case BOND_DOWNDELAY => 13
    case BOND_UPDELAY => 14
    case BOND_USE_CARRIER => 15
    case BOND_ARP_INTERVAL => 16
    case BOND_ARP_IP_TARGET => 17
    case BOND_ARP_VALIDATE => 18
    case PRE_UP | POST_DOWN => 19
  }

  /** The commands around an interface may stand anywhere. */
  predicate Free(n: Node) {
    n.name == PRE_UP || n.name == POST_DOWN
  }

  ghost predicate InOrder(nodes: seq<Node>) {
    forall i, j | 0 <= i < j < |nodes| && !Free(nodes[i]) && !Free(nodes[j]) ::
      Place(nodes[i].name) <= Place(nodes[j].name)
  }

  /** The nodes that have a place have it from lo to hi. */
  ghost predicate Between(nodes: seq<Node>, lo: nat, hi: nat) {
    forall n | n in nodes && !Free(n) :: lo <= Place(n.name) <= hi
  }

  lemma OrderConcat(a: seq<Node>, b: seq<Node>, lo: nat, mid: nat, hi: nat)
    requires InOrder(a) && InOrder(b) && Between(a, lo, mid) && Between(b, mid, hi) && lo <= mid <= hi
    ensures InOrder(a + b) && Between(a + b, lo, hi)
  {
    var c := a + b;
    forall i, j | 0 <= i < j < |c| && !Free(c[i]) && !Free(c[j])
      ensures Place(c[i].name) <= Place(c[j].name)
    {
      assert i < |a| ==> c[i] in a;
      assert j >= |a| ==> c[j] in b;
    }
  }

  ghost predicate EntriesInOrder(entries: seq<Entry>, lo: nat, hi: nat) {
    (forall i | 0 <= i < |entries| :: lo <= Place(entries[i].name) <= hi)
    && forall i, j | 0 <= i < j < |entries| :: Place(entries[i].name) <= Place(entries[j].name)
  }

  lemma {:induction false} WrittenInOrder(entries: seq<Entry>, lo: nat, hi: nat)
    requires EntriesInOrder(entries, lo, hi) && lo <= hi
    ensures InOrder(Written(entries)) && Between(Written(entries), lo, hi)
  {
    if entries != [] {
      var e := entries[0];
      var first := if e.value.Some? then [Node(e.name, e.value.value)] else [];
      WrittenInOrder(entries[1..], Place(e.name), hi);
      assert InOrder(first) && Between(first, lo, Place(e.name));
      OrderConcat(first, Written(entries[1..]), lo, Place(e.name), hi);
    }
  }

  lemma {:induction false} HooksFree(ports: seq<Port>, vlans: bool)
    ensures forall n | n in Hooks(ports, vlans) :: Free(n)
  {
    if ports != [] {
      HooksFree(ports[1..], vlans);
    }
  }

  lemma FreeInOrder(nodes: seq<Node>, lo: nat, hi: nat)
    requires forall n | n in nodes :: Free(n)
    ensures InOrder(nodes) && Between(nodes, lo, hi)
  {
  }

  lemma MiimonInOrder(m: Miimon)
    ensures InOrder(Written(MiimonEntries(m))) && Between(Written(MiimonEntries(m)), 11, 15)
  {
    WrittenInOrder(MiimonEntries(m), 11, 15);
  }

  lemma ArpmonInOrder(a: Arpmon)
    ensures InOrder(Written(ArpmonEntries(a))) && Between(Written(ArpmonEntries(a)), 15, 18)
  {
    WrittenInOrder(ArpmonEntries(a), 15, 18);
  }

  lemma MonitorInOrder(b: Bond)
    ensures InOrder(MonitorNodes(b)) && Between(MonitorNodes(b), 11, 18)
  {
    var miimon := if b.miimon.Some? then Written(MiimonEntries(b.miimon.value)) else [];
    var arpmon := if b.arpmon.Some? then Written(ArpmonEntries(b.arpmon.value)) else [];
    if b.miimon.Some? {
      MiimonInOrder(b.miimon.value);
    }
    if b.arpmon.Some? {
      ArpmonInOrder(b.arpmon.value);
    }
    OrderConcat(miimon, arpmon, 11, 15, 18);
  }

  lemma SlavesInOrder(b: Bond)
    ensures InOrder(Written(SlaveEntries(b))) && Between(Written(SlaveEntries(b)), 9, 11)
  {
    WrittenInOrder(SlaveEntries(b), 9, 11);
  }

  lemma BondInOrder(b: Bond)
    ensures InOrder(BondNodes(b)) && Between(BondNodes(b), 9, 18)
  {
    SlavesInOrder(b);
    MonitorInOrder(b);
    OrderConcat(Written(SlaveEntries(b)), MonitorNodes(b), 9, 11, 18);
  }

  lemma KindInOrder(k: Kind)
    ensures InOrder(KindNodes(k)) && Between(KindNodes(k), 9, 18)
  {
    match k {
      case EthernetKind(_) =>
      case VlanKind(_) =>
      case BridgeKind(_, stp, delay, ports) => WrittenInOrder(BridgeEntries(stp, delay, ports), 9, 18);
      case BondKind(_, bond) => BondInOrder(bond);
    }
  }

  lemma MiscInOrder(d: Interface)
    ensures InOrder(Written(MiscEntries(d))) && Between(Written(MiscEntries(d)), 7, 9)
  {
    WrittenInOrder(MiscEntries(d), 7, 9);
  }

  lemma RestInOrder(d: Interface, vlans: bool)
    ensures InOrder(Rest(d, vlans)) && Between(Rest(d, vlans), 7, 18)
  {
    var hooks := Hooks(Ports(d.kind), vlans);
    HooksFree(Ports(d.kind), vlans);
    FreeInOrder(hooks, 18, 18);
    KindInOrder(d.kind);
    OrderConcat(KindNodes(d.kind), hooks, 9, 18, 18);
    MiscInOrder(d);
    OrderConcat(Written(MiscEntries(d)), KindNodes(d.kind) + hooks, 7, 9, 18);
  }

  lemma {:induction false} AddressesInOrder(name: Label, command: string, ips: seq<IPv6Address>)
    ensures InOrder(MoreAddresses(name, command, ips))
    ensures Between(MoreAddresses(name, command, ips), Place(name), Place(name))
  {
    AddressesWithin(name, command, ips);
    var nodes := MoreAddresses(name, command, ips);
    forall i | 0 <= i < |nodes|
      ensures nodes[i].name == name
    {
      assert nodes[i] in nodes;
    }
  }

  lemma MoreInOrder(name: string, ips: seq<IPv6Address>)
    ensures InOrder(MoreNodes(name, ips)) && Between(MoreNodes(name, ips), 5, 6)
  {
    if ips != [] {
      var up, down := MoreAddresses(UP, AddCommand(name), ips[1..]), MoreAddresses(DOWN, DelCommand(name), ips[1..]);
      AddressesInOrder(UP, AddCommand(name), ips[1..]);
      AddressesInOrder(DOWN, DelCommand(name), ips[1..]);
      OrderConcat(up, down, 5, 6, 6);
    }
  }

  lemma IPv6InOrder(name: string, p: IPv6)
    ensures InOrder(IPv6Nodes(name, p)) && Between(IPv6Nodes(name, p), 0, 6)
  {
    WrittenInOrder(IPv6Entries(p), 0, 4);
    FreeInOrder(AutoconfNodes(name, p.autoconf), 4, 5);
    MoreInOrder(name, p.ips);
    OrderConcat(AutoconfNodes(name, p.autoconf), MoreNodes(name, p.ips), 4, 5, 6);
    OrderConcat(Written(IPv6Entries(p)), AutoconfNodes(name, p.autoconf) + MoreNodes(name, p.ips), 0, 4, 6);
  }

  lemma FirstInOrder(name: string, protocols: seq<Protocol>)
    requires FirstNodes(name, protocols).Ok?
    ensures InOrder(FirstNodes(name, protocols).value) && Between(FirstNodes(name, protocols).value, 0, 6)
  {
    if protocols != [] {
      match protocols[0] {
        case P4(Dhcp4(_)) =>
        case P4(Static4(_, _, _)) => WrittenInOrder(IPv4Entries(protocols[0].ipv4), 0, 6);
        case P6(ipv6) => IPv6InOrder(name, ipv6);
      }
    }
  }

  /** In the first stanza every label stands in its place. */
  lemma CompiledInOrder(d: Interface)
    requires Get(d).Ok?
    ensures InOrder(Get(d).value.iface[0].nodes)
  {
    var protocols := Protocols(d.addressing);
    DebianCompiled.HeadForm(d);
    FirstInOrder(NameAttr(d.kind), protocols);
    RestInOrder(d, protocols != []);
    OrderConcat(FirstNodes(NameAttr(d.kind), protocols).value, Rest(d, protocols != []), 0, 6, 18);
  }

  /** So it does in the second one. */
  lemma SecondInOrder(d: Interface)
    requires Get(d).Ok? && d.addressing.ipv4.Some? && d.addressing.ipv6.Some?
    ensures |Get(d).value.iface| > 1 && InOrder(Get(d).value.iface[1].nodes)
  {
    FirstInOrder(NameAttr(d.kind), Protocols(d.addressing)[1..]);
  }

  lemma ManualFirst(own: seq<Node>)
    requires InOrder(own) && Between(own, 9, 18)
    ensures InOrder(Manual() + own)
  {
    OrderConcat(Manual(), own, 0, 9, 18);
  }

  /** And in those of the ports. */
  lemma {:induction false} PortsInOrder(ports: seq<Port>)
    ensures forall s | s in PortStanzas(ports) :: InOrder(s.nodes)
  {
    if ports != [] {
      PortsInOrder(ports[1..]);
      if ports[0].VlanPort? {
        ManualFirst(VlanNodes(ports[0].vlan));
      } else if ports[0].BondPort? {
        BondInOrder(ports[0].bond);
        ManualFirst(BondNodes(ports[0].bond));
      }
    }
  }
}
