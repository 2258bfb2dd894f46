// What every compiled Red Hat tree holds, label by label, in terms of the document alone.
module RedHatCompiled {
  import opened Text
  import opened Document
  import opened RedHat
  import opened IpCalc
  import BondOpts

  // ---- labels every tree has ----

  lemma {:induction false} SlaveCompiled(bond: string, common: Nodes, slaves: seq<Ethernet>, t: Tree)
    requires t in SlaveTrees(bond, common, slaves)
    ensures exists e | e in slaves :: t == SlaveTree(bond, common, e)
  {
    if t == SlaveTree(bond, common, slaves[0]) {
      assert slaves[0] in slaves;
    } else {
      SlaveCompiled(bond, common, slaves[1..], t);
      assert forall e | e in slaves[1..] :: e in slaves;
    }
  }

  predicate PlaysPart(t: Tree, bridge: string, common: Nodes, p: Port) {
    t == PortTree(bridge, common, p)
    || (p.BondPort? && exists e | e in p.bond.slaves :: t == SlaveTree(p.name, common, e))
  }

  lemma {:induction false} PortCompiled(bridge: string, common: Nodes, ports: seq<Port>, t: Tree)
    requires t in PortsForest(bridge, common, ports)
    ensures exists p | p in ports :: PlaysPart(t, bridge, common, p)
  {
    var p, rest := ports[0], ports[1..];
    if t in PortsForest(bridge, common, rest) {
      PortCompiled(bridge, common, rest, t);
      assert forall q | q in rest :: q in ports;
    } else {
      if t != PortTree(bridge, common, p) {
        SlaveCompiled(p.name, common, p.bond.slaves, t);
      }
      assert p in ports && PlaysPart(t, bridge, common, p);
    }
  }

  /** What all trees share, in terms of the document. */
  lemma CommonMeaning(d: Interface)
    ensures var n := CommonNodes(d);
      n.ONBOOT == Some(if d.start.OnBoot? then "yes" else "no")
      && n.HOTPLUG == (if d.start.HotPlug? then Some("yes") else None)
      && n.MTU == (if d.mtu == Some("") then None else d.mtu) && n.others == map[]
    ensures var n := CommonNodes(d);
      n.TYPE == None && n.STP == None && n.DELAY == None && n.MASTER == None && n.SLAVE == None
      && n.v4 == IPv4Labels(None, None, None, None, None, None)
      && n.v6 == IPv6Labels(None, None, None, None, None, None)
  {
  }

  /** What a tree takes over from what all trees share. */
  predicate Shares(n: Nodes, common: Nodes) {
    n.ONBOOT == common.ONBOOT && n.HOTPLUG == common.HOTPLUG && n.MTU == common.MTU && n.others == common.others
  }

  predicate SharesBelow(n: Nodes, common: Nodes) {
    n.TYPE == common.TYPE && n.STP == common.STP && n.DELAY == common.DELAY && n.v4 == common.v4 && n.v6 == common.v6
  }

  lemma PortShares(bridge: string, common: Nodes, p: Port)
    ensures var t := PortTree(bridge, common, p);
      Shares(t.nodes, common) && SharesBelow(t.nodes, common) && t.nodes.DEVICE == Some(t.file)
      && t.nodes.MASTER == common.MASTER && t.nodes.SLAVE == common.SLAVE
  {
  }

  lemma SlaveShares(bond: string, common: Nodes, e: Ethernet)
    ensures var t := SlaveTree(bond, common, e);
      Shares(t.nodes, common) && SharesBelow(t.nodes, common) && t.nodes.DEVICE == Some(t.file)
      && t.nodes.MASTER == Some(bond) && t.nodes.SLAVE == Some("yes")
  {
  }

  lemma PartShares(t: Tree, bridge: string, common: Nodes, p: Port)
    requires PlaysPart(t, bridge, common, p)
    ensures Shares(t.nodes, common) && SharesBelow(t.nodes, common) && t.nodes.DEVICE == Some(t.file)
    ensures (t.nodes.MASTER == common.MASTER && t.nodes.SLAVE == common.SLAVE)
         || (t.nodes.MASTER.Some? && t.nodes.SLAVE == Some("yes"))
  {
    PortShares(bridge, common, p);
    if t != PortTree(bridge, common, p) {
      var e :| e in p.bond.slaves && t == SlaveTree(p.name, common, e);
      SlaveShares(p.name, common, e);
    }
  }

  lemma RootShares(d: Interface)
    requires Get(d).Ok?
    ensures var t, common := RootTree(d).value, CommonNodes(d);
      Shares(t.nodes, common) && t.nodes.DEVICE == Some(t.file)
      && t.nodes.MASTER == common.MASTER && t.nodes.SLAVE == common.SLAVE
  {
  }

  lemma BelowShares(d: Interface, t: Tree)
    requires Get(d).Ok? && t in Get(d).value[1..]
    ensures Shares(t.nodes, CommonNodes(d)) && SharesBelow(t.nodes, CommonNodes(d)) && t.nodes.DEVICE == Some(t.file)
    ensures (t.nodes.MASTER == CommonNodes(d).MASTER && t.nodes.SLAVE == CommonNodes(d).SLAVE)
         || (t.nodes.MASTER.Some? && t.nodes.SLAVE == Some("yes"))
  {
    BelowParts(d, t);
    if d.kind.BridgeKind? {
      var p :| p in d.kind.ports && PlaysPart(t, d.kind.name, CommonNodes(d), p);
      PartShares(t, d.kind.name, CommonNodes(d), p);
    } else {
      var e :| e in d.kind.bond.slaves && t == SlaveTree(d.kind.name, CommonNodes(d), e);
      SlaveShares(d.kind.name, CommonNodes(d), e);
    }
  }

  lemma AnyShares(d: Interface, t: Tree)
    requires Get(d).Ok? && t in Get(d).value
    ensures Shares(t.nodes, CommonNodes(d)) && t.nodes.DEVICE == Some(t.file)
    ensures (t.nodes.MASTER == CommonNodes(d).MASTER && t.nodes.SLAVE == CommonNodes(d).SLAVE)
         || (t.nodes.MASTER.Some? && t.nodes.SLAVE == Some("yes"))
  {
    if t == RootTree(d).value {
      RootShares(d);
    } else {
      assert Get(d).value[0] == RootTree(d).value;
      BelowShares(d, t);
    }
  }

  /** The start mode of the document is in every tree. */
  lemma CompiledStart(d: Interface, t: Tree)
    requires Get(d).Ok? && t in Get(d).value
    ensures t.nodes.ONBOOT == Some(if d.start.OnBoot? then "yes" else "no")
    ensures t.nodes.HOTPLUG == if d.start.HotPlug? then Some("yes") else None
  {
    AnyShares(d, t);
    CommonMeaning(d);
  }

  /** So is its MTU, unless it is empty; and there are no labels beside those of the stylesheet. */
  lemma CompiledMtu(d: Interface, t: Tree)
    requires Get(d).Ok? && t in Get(d).value
    ensures t.nodes.MTU == if d.mtu == Some("") then None else d.mtu
    ensures t.nodes.others == map[]
  {
    AnyShares(d, t);
    CommonMeaning(d);
  }

  /** DEVICE is the name of the file; SLAVE stands beside MASTER and nowhere else. */
  lemma CompiledDevice(d: Interface, t: Tree)
    requires Get(d).Ok? && t in Get(d).value
    ensures t.nodes.DEVICE == Some(t.file)
    ensures t.nodes.SLAVE == if t.nodes.MASTER.Some? then Some("yes") else None
  {
    AnyShares(d, t);
    CommonMeaning(d);
  }

  // ---- the root ----

  lemma RootTreeKind(d: Interface)
    requires Get(d).Ok?
    ensures Get(d).value[0] == RootTree(d).value
    ensures var n, k := Get(d).value[0].nodes, KindNodes(d.kind, CommonNodes(d));
      n == k.(v4 := n.v4, v6 := n.v6) && Get(d).value[0].file == KindName(d.kind)
  {
  }

  /** The first tree is that of the root interface: its file, its type and what its type adds. */
  lemma CompiledRoot(d: Interface)
    requires Get(d).Ok?
    ensures Get(d).value != []
    ensures Get(d).value[0].file == match d.kind
                                    case EthernetKind(e) => e.name
                                    case VlanKind(v) => v.base + "." + v.tag
                                    case BridgeKind(name, _, _, _) => name
                                    case BondKind(name, _) => name
    ensures var n := Get(d).value[0].nodes;
      n.HWADDR == (if d.kind.EthernetKind? then d.kind.ethernet.mac else None)
      && n.TYPE == (if d.kind.BridgeKind? then Some("Bridge") else None)
      && n.STP == (if d.kind.BridgeKind? then d.kind.stp else None)
      && n.DELAY == (if d.kind.BridgeKind? then d.kind.delay else None)
      && n.VLAN == (if d.kind.VlanKind? then Some("yes") else None)
      && n.BONDING_OPTS == (if d.kind.BondKind? then Some(BondOpts.Print(d.kind.bond)) else None)
      && n.BRIDGE == None && n.MASTER == None
  {
    RootTreeKind(d);
  }

  // ---- ports and slaves ----

  /** Below the root there is no addressing and no bridge. */
  lemma CompiledBelow(d: Interface, t: Tree)
    requires Get(d).Ok? && t in Get(d).value[1..]
    ensures t.nodes.TYPE == None && t.nodes.STP == None && t.nodes.DELAY == None
    ensures t.nodes.v4 == IPv4Labels(None, None, None, None, None, None)
    ensures t.nodes.v6 == IPv6Labels(None, None, None, None, None, None)
  {
    BelowShares(d, t);
    CommonMeaning(d);
  }

  /** A port of the bridge, or a slave of the root bond or of a port. */
  lemma BelowParts(d: Interface, t: Tree)
    requires Get(d).Ok? && t in Get(d).value[1..]
    ensures (d.kind.BridgeKind? && exists p | p in d.kind.ports :: PlaysPart(t, d.kind.name, CommonNodes(d), p))
      || (d.kind.BondKind? && exists e | e in d.kind.bond.slaves :: t == SlaveTree(d.kind.name, CommonNodes(d), e))
  {
    assert Get(d).value[1..] == SubTrees(d);
    if d.kind.BridgeKind? {
      PortCompiled(d.kind.name, CommonNodes(d), d.kind.ports, t);
    } else {
      SlaveCompiled(d.kind.name, CommonNodes(d), d.kind.bond.slaves, t);
    }
  }

  lemma {:induction false} PortTreesIn(bridge: string, common: Nodes, ports: seq<Port>, p: Port)
    requires p in ports
    ensures forall t | t in PortForest(bridge, common, p) :: t in PortsForest(bridge, common, ports)
  {
    if p != ports[0] {
      PortTreesIn(bridge, common, ports[1..], p);
    }
  }

  lemma {:induction false} SlaveTreeIn(bond: string, common: Nodes, slaves: seq<Ethernet>, e: Ethernet)
    requires e in slaves
    ensures SlaveTree(bond, common, e) in SlaveTrees(bond, common, slaves)
  {
    if e != slaves[0] {
      SlaveTreeIn(bond, common, slaves[1..], e);
    }
  }

  /** Each port of a bridge has its tree: what it is, and the bridge it is enslaved to. */
  lemma CompiledPort(d: Interface, p: Port) returns (t: Tree)
    requires Get(d).Ok? && d.kind.BridgeKind? && p in d.kind.ports
    ensures t in Get(d).value[1..]
    ensures t.file == match p
                      case EthernetPort(e) => e.name
                      case VlanPort(v) => v.base + "." + v.tag
                      case BondPort(name, _) => name
    ensures t.nodes.BRIDGE == Some(d.kind.name) && t.nodes.MASTER == None
    ensures t.nodes.HWADDR == if p.EthernetPort? then p.ethernet.mac else None
    ensures t.nodes.VLAN == if p.VlanPort? then Some("yes") else None
    ensures t.nodes.BONDING_OPTS == if p.BondPort? then Some(BondOpts.Print(p.bond)) else None
  {
    t := PortTree(d.kind.name, CommonNodes(d), p);
    PortTreesIn(d.kind.name, CommonNodes(d), d.kind.ports, p);
    assert t in PortForest(d.kind.name, CommonNodes(d), p);
    assert Get(d).value[1..] == SubTrees(d);
  }

  /** The bonds of a document, by name: the root, or ports of the root. */
  predicate HasBond(k: Kind, name: string, bond: Bond) {
    k == BondKind(name, bond) || (k.BridgeKind? && BondPort(name, bond) in k.ports)
  }

  /** Each slave of a bond has its tree, enslaved to the bond. */
  lemma CompiledSlave(d: Interface, name: string, bond: Bond, e: Ethernet) returns (t: Tree)
    requires Get(d).Ok? && HasBond(d.kind, name, bond) && e in bond.slaves
    ensures t in Get(d).value[1..]
    ensures t.file == e.name && t.nodes.HWADDR == e.mac
    ensures t.nodes.MASTER == Some(name) && t.nodes.BRIDGE == None
    ensures t.nodes.VLAN == None && t.nodes.BONDING_OPTS == None
  {
    t := SlaveTree(name, CommonNodes(d), e);
    SlaveTreeIn(name, CommonNodes(d), bond.slaves, e);
    assert Get(d).value[1..] == SubTrees(d);
    if d.kind.BridgeKind? {
      PortTreesIn(d.kind.name, CommonNodes(d), d.kind.ports, BondPort(name, bond));
    }
  }

  // ---- addressing of the root ----

  /** Without IPv4 no IPv4 label is written; with dhcp only BOOTPROTO and PEERDNS are. */
  lemma CompiledDhcp(d: Interface)
    requires Get(d).Ok?
    ensures d.addressing.ipv4.None? ==>
      Get(d).value[0].nodes.v4 == IPv4Labels(None, None, None, None, None, None)
    ensures d.addressing.ipv4.Some? && d.addressing.ipv4.value.Dhcp4? ==>
      var n := Get(d).value[0].nodes.v4;
      n.BOOTPROTO == Some("dhcp") && n.PEERDNS == d.addressing.ipv4.value.peerdns
      && n.IPADDR == None && n.NETMASK == None && n.PREFIX == None && n.GATEWAY == None
  {
  }

  /** A static address is written with the dotted mask of its prefix and its route. */
  lemma CompiledStatic(d: Interface, address: string, prefix: Option<string>, gateway: Option<string>)
    requires Get(d).Ok? && d.addressing.ipv4 == Some(Static4(address, prefix, gateway))
    ensures var n := Get(d).value[0].nodes.v4;
      n.BOOTPROTO == Some("none") && n.IPADDR == Some(address) && n.GATEWAY == gateway
      && n.PEERDNS == None && n.PREFIX == None && (n.NETMASK.Some? <==> prefix.Some?)
    ensures prefix.Some? ==>
      Digits(prefix.value) && 1 <= Number(prefix.value) <= 31
      && Get(d).value[0].nodes.v4.NETMASK == Some(Quad(Netmask(Number(prefix.value))))
  {
  }

  /** An IPv4 document fails to compile only for its prefix. */
  lemma CompilesWhen(d: Interface)
    ensures Get(d).Ok? <==>
      (d.addressing.ipv4.Some? && d.addressing.ipv4.value.Static4? && d.addressing.ipv4.value.prefix.Some? ==>
        var prefix := d.addressing.ipv4.value.prefix.value; Digits(prefix) && 1 <= Number(prefix) <= 31)
  {
  }

  /** The IPv6 labels: the first address alone, the others in one quoted list. */
  lemma CompiledIPv6(d: Interface)
    requires Get(d).Ok?
    ensures d.addressing.ipv6.None? ==>
      Get(d).value[0].nodes.v6 == IPv6Labels(None, None, None, None, None, None)
    ensures d.addressing.ipv6.Some? ==>
      var n, p := Get(d).value[0].nodes.v6, d.addressing.ipv6.value;
      n.IPV6INIT == Some("yes") && n.IPV6_AUTOCONF == Some(if p.autoconf then "yes" else "no")
      && n.DHCPV6 == Some(if p.dhcp.Some? then "yes" else "no")
      && n.IPV6_DEFAULTGW == p.gateway
      && n.IPV6ADDR == (if p.ips == [] then None else Some(SlashForm(p.ips[0])))
      && n.IPV6ADDR_SECONDARIES == if |p.ips| < 2 then None else Some("'" + BlankForm(p.ips[1..]) + "'")
  {
    if d.addressing.ipv6.Some? {
      var ips := d.addressing.ipv6.value.ips;
      if ips != [] {
        SlashText(ips[0]);
      }
      if |ips| > 1 {
        BlankFormJoin(ips[1..]);
      }
    }
  }

  lemma SlashText(ip: IPv6Address)
    ensures AddressText(ip) == SlashForm(ip)
  {
    NoneBeside(ip.address);
  }

  function SlashForm(ip: IPv6Address): string {
    match ip.prefix
    case None => ip.address
    case Some(prefix) => ip.address + ("/" + prefix)
  }

  /** Addresses with a blank after each but the last. */
  function BlankForm(ips: seq<IPv6Address>): string
    requires ips != []
  {
    if |ips| == 1 then SlashForm(ips[0]) else SlashForm(ips[0]) + " " + BlankForm(ips[1..])
  }

  lemma {:induction false} BlankFormJoin(ips: seq<IPv6Address>)
    requires ips != []
    ensures Join(AddressTexts(ips), ' ') == BlankForm(ips)
  {
    SlashText(ips[0]);
    if |ips| > 1 {
      BlankFormJoin(ips[1..]);
      assert AddressTexts(ips)[1..] == AddressTexts(ips[1..]);
    }
  }

  // ---- dotted masks ----

  lemma FourBytes(m: Mask, a: nat, b: nat, c: nat, e: nat)
    requires b < 256 && c < 256 && e < 256 && m == ((a * 256 + b) * 256 + c) * 256 + e
    ensures Octets(m) == [a, b, c, e]
  {
    var abc, ab := (a * 256 + b) * 256 + c, a * 256 + b;
    assert m / 0x100 == abc && m % 0x100 == e;
    assert abc / 0x100 == ab && abc % 0x100 == c;
    assert m / 0x1_0000 == ab;
    assert m / 0x100_0000 == a;
  }

  function Dotted(a: string, b: string, c: string, e: string): string {
    a + ['.'] + (b + ['.'] + (c + ['.'] + e))
  }

  lemma JoinFour(a: string, b: string, c: string, e: string)
    ensures Join([a, b, c, e], '.') == Dotted(a, b, c, e)
  {
    assert [a, b, c, e] == [a] + [b, c, e] && [b, c, e] == [b] + [c, e] && [c, e] == [c] + [e];
    JoinFirst(a, [b, c, e], '.');
    JoinFirst(b, [c, e], '.');
    JoinFirst(c, [e], '.');
    JoinFirst(e, [], '.');
  }

  /** A dotted quad is the four bytes of the mask, the highest first. */
  lemma QuadBytes(m: Mask, a: nat, b: nat, c: nat, e: nat)
    requires b < 256 && c < 256 && e < 256 && m == ((a * 256 + b) * 256 + c) * 256 + e
    ensures Quad(m) == Dotted(Decimal(a), Decimal(b), Decimal(c), Decimal(e))
  {
    FourBytes(m, a, b, c, e);
    FourDecimals(a, b, c, e);
    JoinFour(Decimal(a), Decimal(b), Decimal(c), Decimal(e));
  }

  lemma FourDecimals(a: nat, b: nat, c: nat, e: nat)
    ensures Decimals([a, b, c, e]) == [Decimal(a), Decimal(b), Decimal(c), Decimal(e)]
  {
    var o := [a, b, c, e];
    assert o[0] == a && o[1] == b && o[2] == c && o[3] == e;
  }

  /** The mask of a prefix has its ones at the top: bit i is set exactly when at most the prefix is above it. */
  lemma NetmaskBits(p: nat, i: nat)
    requires 1 <= p <= 31 && i < 32
    ensures Bit(Netmask(p), i) <==> i >= 32 - p
  {
    PrefixOfNetmask(p);
    NetmaskOfPrefix(Netmask(p));
    LowBitsZero(Netmask(p), 32 - p);
    LowBitsClear(Netmask(p), 32 - p);
    LowBitsZero(Netmask(p), 33 - p);
    LowBitsClear(Netmask(p), 33 - p);
    if i > 32 - p {
      assert Bit(Netmask(p), 32 - p);
    }
  }
}
