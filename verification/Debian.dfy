// The Debian stylesheets: data/xml/debian-get.xsl compiles an interface into the stanzas of
// /etc/network/interfaces, data/xml/debian-put.xsl rebuilds an interface from stanzas.
module Debian {
  import opened Text
  import opened Document
  import opened RedHat

  /** The labels the stylesheets write or read. */
  datatype Label =
    | FAMILY | METHOD | ADDRESS | NETMASK | GATEWAY | UP | DOWN | PRE_UP | POST_DOWN
    | MTU | HWADDRESS
    | BRIDGE_PORTS | BRIDGE_STP | BRIDGE_FD
    | BOND_SLAVES | BOND_PRIMARY | BOND_MODE | BOND_MIIMON | BOND_DOWNDELAY | BOND_UPDELAY | BOND_USE_CARRIER
    | BOND_ARP_INTERVAL | BOND_ARP_IP_TARGET | BOND_ARP_VALIDATE
    | VLAN_RAW_DEVICE

  datatype Node = Node(name: Label, value: string)

  /** An element of the iface array; a label may occur more than once. */
  datatype Stanza = Stanza(key: string, nodes: seq<Node>)

  /** The values of the auto array and the elements of the iface array. */
  datatype Stanzas = Stanzas(auto: seq<string>, iface: seq<Stanza>)

  /** A node that is written when there is a value for it. */
  datatype Entry = Entry(name: Label, value: Option<string>)

  function Written(entries: seq<Entry>): seq<Node> {
    if entries == [] then []
    else
      var e := entries[0];
      (if e.value.Some? then [Node(e.name, e.value.value)] else []) + Written(entries[1..])
  }

  // ==== debian-get.xsl ====

  /** interface/@name; empty when a VLAN leaves it out. */
  function NameAttr(k: Kind): string {
    match k
    case VlanKind(v) => Value(v.name)
    case _ => KindName(k)
  }

  function PortAttr(p: Port): string {
    match p
    case VlanPort(v) => Value(v.name)
    case _ => PortName(p)
  }

  function PortAttrs(ports: seq<Port>): seq<string> {
    seq(|ports|, i requires 0 <= i < |ports| => PortAttr(ports[i]))
  }

  function NameList(names: seq<string>): string {
    if names == [] then "none" else Join(names, ' ')
  }

  function BridgeEntries(stp: Option<string>, delay: Option<string>, ports: seq<Port>): seq<Entry> {
    [Entry(BRIDGE_PORTS, Some(NameList(PortAttrs(ports)))), Entry(BRIDGE_STP, stp), Entry(BRIDGE_FD, delay)]
  }

  function CarrierFlag(carrier: Option<string>): Option<string> {
    if carrier == Some("ioctl") then Some("0") else if carrier == Some("netif") then Some("1") else None
  }

  function MiimonEntries(m: Miimon): seq<Entry> {
    [Entry(BOND_MIIMON, Some(m.freq)), Entry(BOND_DOWNDELAY, m.downdelay), Entry(BOND_UPDELAY, m.updelay),
     Entry(BOND_USE_CARRIER, CarrierFlag(m.carrier))]
  }

  function ArpmonEntries(a: Arpmon): seq<Entry> {
    [Entry(BOND_ARP_INTERVAL, Some(a.interval)), Entry(BOND_ARP_IP_TARGET, Some(a.target)),
     Entry(BOND_ARP_VALIDATE, a.validate)]
  }

  function SlaveEntries(b: Bond): seq<Entry> {
    [Entry(BOND_SLAVES, Some(NameList(SlaveNames(b.slaves)))),
     Entry(BOND_PRIMARY, if b.slaves == [] then None else Some(b.slaves[0].name)),
     Entry(BOND_MODE, b.mode)]
  }

  function MonitorNodes(b: Bond): seq<Node> {
    (if b.miimon.Some? then Written(MiimonEntries(b.miimon.value)) else [])
    + (if b.arpmon.Some? then Written(ArpmonEntries(b.arpmon.value)) else [])
  }

  function BondNodes(b: Bond): seq<Node> {
    Written(SlaveEntries(b)) + MonitorNodes(b)
  }

  function VlanNodes(v: Vlan): seq<Node> {
    [Node(VLAN_RAW_DEVICE, v.base)]
  }

  function KindNodes(k: Kind): seq<Node> {
    match k
    case EthernetKind(_) => []
    case VlanKind(v) => VlanNodes(v)
    case BridgeKind(_, stp, delay, ports) => Written(BridgeEntries(stp, delay, ports))
    case BondKind(_, bond) => BondNodes(bond)
  }

  function Mac(k: Kind): Option<string> {
    if k.EthernetKind? then k.ethernet.mac else None
  }

  function MiscEntries(d: Interface): seq<Entry> {
    [Entry(HWADDRESS, if Mac(d.kind).Some? then Some("ether " + Mac(d.kind).value) else None), Entry(MTU, d.mtu)]
  }

  /** Bonds among the ports, and VLANs too when the interface has a protocol, are brought up first. */
  function Hooked(p: Port, vlans: bool): bool {
    p.BondPort? || (vlans && p.VlanPort?)
  }

  function Hooks(ports: seq<Port>, vlans: bool): seq<Node> {
    if ports == [] then []
    else
      (if Hooked(ports[0], vlans)
       then [Node(PRE_UP, "ifup " + PortAttr(ports[0])), Node(POST_DOWN, "ifdown " + PortAttr(ports[0]))]
       else [])
      + Hooks(ports[1..], vlans)
  }

  function Ports(k: Kind): seq<Port> {
    if k.BridgeKind? then k.ports else []
  }

  function Manual(): seq<Node> {
    [Node(FAMILY, "inet"), Node(METHOD, "manual")]
  }

  function IPv4Nodes(p: IPv4): Result<seq<Node>> {
    match p
    case Dhcp4(_) => Ok([Node(FAMILY, "inet"), Node(METHOD, "dhcp")])
    case Static4(address, prefix, gateway) =>
      var mask :- NetmaskNode(prefix);
      Ok(Written([Entry(FAMILY, Some("inet")), Entry(METHOD, Some("static")), Entry(ADDRESS, Some(address)),
                  Entry(NETMASK, mask), Entry(GATEWAY, gateway)]))
  }

  function AutoconfCommand(digit: string, name: string): string {
    "echo " + digit + " > /proc/sys/net/ipv6/conf/" + name + "/autoconf"
  }

  function AutoconfNodes(name: string, autoconf: bool): seq<Node> {
    if autoconf then []
    else [Node(PRE_UP, AutoconfCommand("0", name)), Node(POST_DOWN, AutoconfCommand("1", name))]
  }

  function AddCommand(name: string): string {
    "/sbin/ifconfig " + name + " inet6 add "
  }

  function DelCommand(name: string): string {
    "/sbin/ifconfig " + name + " inet6 del "
  }

  /** The text {@address}/{@prefix}. */
  function AddressText(ip: IPv6Address): string {
    ip.address + "/" + Value(ip.prefix)
  }

  /** One up (or down) node for each further address. */
  function MoreAddresses(name: Label, command: string, ips: seq<IPv6Address>): seq<Node> {
    if ips == [] then []
    else [Node(name, command + AddressText(ips[0]))] + MoreAddresses(name, command, ips[1..])
  }

  /** Of the two templates that match when there are addresses and dhcp, the later one is chosen. */
  function IPv6Method(p: IPv6): string {
    if p.ips != [] then "static" else if p.dhcp.Some? then "dhcp" else "manual"
  }

  function IPv6Entries(p: IPv6): seq<Entry> {
    [Entry(FAMILY, Some("inet6")), Entry(METHOD, Some(IPv6Method(p))),
     Entry(ADDRESS, if p.ips == [] then None else Some(p.ips[0].address)),
     Entry(NETMASK, if p.ips == [] then None else p.ips[0].prefix),
     Entry(GATEWAY, if p.ips == [] then None else p.gateway)]
  }

  function MoreNodes(name: string, ips: seq<IPv6Address>): seq<Node> {
    if ips == [] then []
    else MoreAddresses(UP, AddCommand(name), ips[1..]) + MoreAddresses(DOWN, DelCommand(name), ips[1..])
  }

  function IPv6Nodes(name: string, p: IPv6): seq<Node> {
    Written(IPv6Entries(p)) + (AutoconfNodes(name, p.autoconf) + MoreNodes(name, p.ips))
  }

  datatype Protocol = P4(ipv4: IPv4) | P6(ipv6: IPv6)

  /** The protocol elements in document order. */
  function Protocols(a: Addressing): seq<Protocol> {
    match (a.ipv4, a.ipv6)
    case (None, None) => []
    case (Some(v4), None) => [P4(v4)]
    case (None, Some(v6)) => [P6(v6)]
    case (Some(v4), Some(v6)) => if a.v6First then [P6(v6), P4(v4)] else [P4(v4), P6(v6)]
  }

  function ProtocolNodes(name: string, p: Protocol): Result<seq<Node>> {
    match p
    case P4(ipv4) => IPv4Nodes(ipv4)
    case P6(ipv6) => Ok(IPv6Nodes(name, ipv6))
  }

  /** What the first stanza holds beside the protocol. */
  function Rest(d: Interface, vlans: bool): seq<Node> {
    Written(MiscEntries(d)) + (KindNodes(d.kind) + Hooks(Ports(d.kind), vlans))
  }

  /** The first stanza is there even without a protocol. */
  function FirstNodes(name: string, protocols: seq<Protocol>): Result<seq<Node>> {
    if protocols == [] then Ok(Manual()) else ProtocolNodes(name, protocols[0])
  }

  function SecondStanza(name: string, protocols: seq<Protocol>): Result<seq<Stanza>> {
    if |protocols| < 2 then Ok([])
    else
      var nodes :- ProtocolNodes(name, protocols[1]);
      Ok([Stanza(name, nodes)])
  }

  /** The stanzas of the root interface: one for each protocol. */
  function Heads(d: Interface): Result<seq<Stanza>> {
    var name := NameAttr(d.kind);
    var protocols := Protocols(d.addressing);
    var first :- FirstNodes(name, protocols);
    var second :- SecondStanza(name, protocols);
    Ok([Stanza(name, first + Rest(d, protocols != []))] + second)
  }

  function PortStanza(p: Port): seq<Stanza> {
    match p
    case EthernetPort(_) => []
    case VlanPort(v) => [Stanza(PortAttr(p), Manual() + VlanNodes(v))]
    case BondPort(_, bond) => [Stanza(PortAttr(p), Manual() + BondNodes(bond))]
  }

  function PortStanzas(ports: seq<Port>): seq<Stanza> {
    if ports == [] then [] else PortStanza(ports[0]) + PortStanzas(ports[1..])
  }

  /** The stylesheet. */
  function Get(d: Interface): Result<Stanzas> {
    var heads :- Heads(d);
    Ok(Stanzas(if d.start.OnBoot? then [NameAttr(d.kind)] else [], heads + PortStanzas(Ports(d.kind))))
  }

  // ==== debian-put.xsl ====

  /** The elements debian-put.xsl writes; types is the text of the type attribute, piece by piece. */
  datatype IfType = EthernetType | BridgeType | BondType | VlanType

  datatype ProtocolElement =
    | Family4(dhcp: Option<Dhcp6>, ips: seq<IPv6Address>, gateway: Option<string>)
    | Family6(ipv6: IPv6)

  datatype ArpmonElement = ArpmonElement(interval: Option<string>, target: string, validate: Option<string>)

  datatype BondElement = BondElement(
    mode: Option<string>, miimon: Option<Miimon>, arpmon: Option<ArpmonElement>, slaves: seq<Ethernet>)

  datatype VlanElement = VlanElement(tag: string, base: string)

  datatype PortElement = PortElement(
    name: Option<string>, types: seq<IfType>, macs: seq<string>, mtus: seq<string>,
    bonds: seq<BondElement>, vlans: seq<VlanElement>)

  datatype BridgeElement = BridgeElement(stp: Option<string>, delay: Option<string>, ports: seq<PortElement>)

  datatype Element = Element(
    name: Option<string>, iftype: IfType, start: StartMode, macs: seq<string>, mtus: seq<string>,
    protocols: seq<ProtocolElement>, bridges: seq<BridgeElement>, bonds: seq<BondElement>, vlans: seq<VlanElement>)

  /** node[@label = name]/@value, in order. */
  function Values(nodes: seq<Node>, name: Label): seq<string> {
    if nodes == [] then []
    else (if nodes[0].name == name then [nodes[0].value] else []) + Values(nodes[1..], name)
  }

  predicate Has(nodes: seq<Node>, name: Label) {
    Values(nodes, name) != []
  }

  /** The string value of a node set is that of its first node. */
  function First(nodes: seq<Node>, name: Label): string {
    if Has(nodes, name) then Values(nodes, name)[0] else ""
  }

  function Optional(nodes: seq<Node>, name: Label): Option<string> {
    if Has(nodes, name) then Some(First(nodes, name)) else None
  }

  function PutType(nodes: seq<Node>): IfType {
    if Has(nodes, BRIDGE_PORTS) then BridgeType
    else if Has(nodes, BOND_SLAVES) then BondType
    else if Has(nodes, VLAN_RAW_DEVICE) then VlanType
    else EthernetType
  }

  predicate IsEther(value: string) {
    "ether " <= value
  }

  function PutMacs(nodes: seq<Node>): seq<string> {
    if exists v | v in Values(nodes, HWADDRESS) :: IsEther(v) then
      var first := First(nodes, HWADDRESS);
      [if |first| >= 6 then first[6..] else ""]
    else []
  }

  function PutMtus(nodes: seq<Node>): seq<string> {
    if Has(nodes, MTU) then [First(nodes, MTU)] else []
  }

  function PutIPv4Address(nodes: seq<Node>): Result<seq<IPv6Address>> {
    if !Has(nodes, ADDRESS) then Ok([])
    else if !Has(nodes, NETMASK) then Ok([IPv6Address(First(nodes, ADDRESS), None)])
    else
      var prefix :- PrefixText(First(nodes, NETMASK));
      Ok([IPv6Address(First(nodes, ADDRESS), Some(prefix))])
  }

  function PutIPv4(nodes: seq<Node>): Result<seq<ProtocolElement>> {
    var methods := Values(nodes, METHOD);
    if "static" in methods then
      var ips :- PutIPv4Address(nodes);
      Ok([Family4(None, ips, Optional(nodes, GATEWAY))])
    else if "dhcp" in methods then Ok([Family4(Some(Dhcp6(None)), [], None)])
    else if "loopback" in methods then Ok([Family4(None, [IPv6Address("127.0.0.1", Some("8"))], None)])
    else Ok([])
  }

  /** The addresses of the up commands that add one. */
  function PutMore(command: string, ups: seq<string>): seq<IPv6Address> {
    if ups == [] then []
    else
      (if command <= ups[0] then
         var text := ups[0][|command|..];
         [IPv6Address(Before(text, '/'), Some(After(text, '/')))]
       else [])
      + PutMore(command, ups[1..])
  }

  function PutFirstAddress(nodes: seq<Node>): seq<IPv6Address> {
    if Has(nodes, ADDRESS) then [IPv6Address(First(nodes, ADDRESS), Some(First(nodes, NETMASK)))] else []
  }

  function Loopback(nodes: seq<Node>): seq<IPv6Address> {
    if "loopback" in Values(nodes, METHOD) then [IPv6Address("::1", Some("8"))] else []
  }

  function PutIPv6(s: Stanza): ProtocolElement {
    var methods := Values(s.nodes, METHOD);
    Family6(IPv6(
      "loopback" !in methods && AutoconfCommand("0", s.key) !in Values(s.nodes, PRE_UP),
      if "dhcp" in methods then Some(Dhcp6(None)) else None,
      PutFirstAddress(s.nodes) + (PutMore(AddCommand(s.key), Values(s.nodes, UP)) + Loopback(s.nodes)),
      Optional(s.nodes, GATEWAY)))
  }

  function PutOneIPv6(s: Stanza): seq<ProtocolElement> {
    if "inet6" in Values(s.nodes, FAMILY) then [PutIPv6(s)] else []
  }

  /** Every stanza of the family, whatever its key. */
  function PutAllIPv6(stanzas: seq<Stanza>): seq<ProtocolElement> {
    if stanzas == [] then [] else PutOneIPv6(stanzas[0]) + PutAllIPv6(stanzas[1..])
  }

  /** With IPv6 first, IPv4 is looked for under a family that is never written. */
  function PutAllIPv4(stanzas: seq<Stanza>): Result<seq<ProtocolElement>> {
    if stanzas == [] then Ok([])
    else
      var first :- if "inet4" in Values(stanzas[0].nodes, FAMILY) then PutIPv4(stanzas[0].nodes) else Ok([]);
      var rest :- PutAllIPv4(stanzas[1..]);
      Ok(first + rest)
  }

  function PutProtocols(s: Stanza, stanzas: seq<Stanza>): Result<seq<ProtocolElement>> {
    var families := Values(s.nodes, FAMILY);
    if "inet" in families then
      var v4 :- PutIPv4(s.nodes);
      Ok(v4 + PutAllIPv6(stanzas))
    else if "inet6" in families then
      var v4 :- PutAllIPv4(stanzas);
      Ok([PutIPv6(s)] + v4)
    else Ok([])
  }

  /** A node has no text of its own, so the carrier is never netif. */
  function PutMiimon(nodes: seq<Node>): Option<Miimon> {
    if Has(nodes, BOND_MIIMON) then
      Some(Miimon(First(nodes, BOND_MIIMON), Optional(nodes, BOND_DOWNDELAY), Optional(nodes, BOND_UPDELAY),
                  if Has(nodes, BOND_USE_CARRIER) then Some("ioctl") else None))
    else None
  }

  function PutArpmon(nodes: seq<Node>): Option<ArpmonElement> {
    if Has(nodes, BOND_ARP_IP_TARGET) then
      Some(ArpmonElement(Optional(nodes, BOND_ARP_INTERVAL), First(nodes, BOND_ARP_IP_TARGET),
                         Optional(nodes, BOND_ARP_VALIDATE)))
    else None
  }

  function Bare(names: seq<string>): seq<Ethernet> {
    seq(|names|, i requires 0 <= i < |names| => Ethernet(names[i], None))
  }

  function PutBonds(nodes: seq<Node>): seq<BondElement> {
    if Has(nodes, BOND_SLAVES) then
      [BondElement(Optional(nodes, BOND_MODE), PutMiimon(nodes), PutArpmon(nodes),
                   Bare(Tokens(First(nodes, BOND_SLAVES), ' ')))]
    else []
  }

  /** The tag is what follows the base name and one more character of the key. */
  function PutVlans(s: Stanza): seq<VlanElement> {
    if Has(s.nodes, VLAN_RAW_DEVICE) then
      var base := First(s.nodes, VLAN_RAW_DEVICE);
      [VlanElement(if |s.key| > |base| then s.key[|base| + 1..] else "", base)]
    else []
  }

  function Keyed(stanzas: seq<Stanza>, key: string): seq<Stanza> {
    if stanzas == [] then []
    else (if stanzas[0].key == key then [stanzas[0]] else []) + Keyed(stanzas[1..], key)
  }

  function ForEach<T>(f: Stanza -> seq<T>, stanzas: seq<Stanza>): seq<T> {
    if stanzas == [] then [] else f(stanzas[0]) + ForEach(f, stanzas[1..])
  }

  function PutPort(stanzas: seq<Stanza>, name: string): PortElement {
    var own := Keyed(stanzas, name);
    PortElement(
      Some(name),
      if own == [] then [EthernetType] else ForEach((s: Stanza) => [PutType(s.nodes)], own),
      ForEach((s: Stanza) => PutMacs(s.nodes), own), ForEach((s: Stanza) => PutMtus(s.nodes), own),
      ForEach((s: Stanza) => PutBonds(s.nodes), own), ForEach((s: Stanza) => PutVlans(s), own))
  }

  function PutPorts(stanzas: seq<Stanza>, names: seq<string>): seq<PortElement> {
    seq(|names|, i requires 0 <= i < |names| => PutPort(stanzas, names[i]))
  }

  function PutBridges(nodes: seq<Node>, stanzas: seq<Stanza>): seq<BridgeElement> {
    if !Has(nodes, BRIDGE_PORTS) then []
    else
      var text := First(nodes, BRIDGE_PORTS);
      [BridgeElement(Optional(nodes, BRIDGE_STP), Optional(nodes, BRIDGE_FD),
                     if forall v | v in Values(nodes, BRIDGE_PORTS) :: v == "none" then []
                     else PutPorts(stanzas, Tokens(text, ' ')))]
  }

  function PutStart(f: Stanzas, key: string): StartMode {
    if key in f.auto then OnBoot else NoStart
  }

  /** The stylesheet: the interface of the first stanza, if there is one. */
  function Put(f: Stanzas): Result<Option<Element>> {
    if f.iface == [] then Ok(None)
    else
      var s := f.iface[0];
      var protocols :- PutProtocols(s, f.iface);
      Ok(Some(Element(
        Some(s.key), PutType(s.nodes), PutStart(f, s.key), PutMacs(s.nodes), PutMtus(s.nodes), protocols,
        PutBridges(s.nodes, f.iface), PutBonds(s.nodes), PutVlans(s))))
  }
}
