// The Red Hat stylesheets: data/xml/redhat-get.xsl compiles an interface into a flat forest of
// label/value trees, data/xml/redhat-put.xsl rebuilds interfaces from a forest.
module RedHat {
  import opened Text
  import opened IpCalc
  import opened Document
  import BondOpts

  /** The labels the IPv4 templates write and read; None stands for an absent node. */
  datatype IPv4Labels = IPv4Labels(
    BOOTPROTO: Option<string>, PEERDNS: Option<string>, IPADDR: Option<string>, NETMASK: Option<string>,
    PREFIX: Option<string>, GATEWAY: Option<string>)

  /** The labels the IPv6 templates write and read. */
  datatype IPv6Labels = IPv6Labels(
    IPV6INIT: Option<string>, IPV6_AUTOCONF: Option<string>, DHCPV6: Option<string>, IPV6ADDR: Option<string>,
    IPV6ADDR_SECONDARIES: Option<string>, IPV6_DEFAULTGW: Option<string>)

  /** The nodes of one ifcfg file, by label; others holds the labels the stylesheets never mention. */
  datatype Nodes = Nodes(
    DEVICE: Option<string>, ONBOOT: Option<string>, HOTPLUG: Option<string>, MTU: Option<string>,
    HWADDR: Option<string>, TYPE: Option<string>, STP: Option<string>, DELAY: Option<string>,
    BRIDGE: Option<string>, VLAN: Option<string>, BONDING_OPTS: Option<string>,
    MASTER: Option<string>, SLAVE: Option<string>,
    v4: IPv4Labels, v6: IPv6Labels, others: map<string, string>)

  const NO_IPV4 := IPv4Labels(None, None, None, None, None, None)
  const NO_IPV6 := IPv6Labels(None, None, None, None, None, None)
  const NO_NODES := Nodes(
    None, None, None, None, None, None, None, None, None, None, None, None, None, NO_IPV4, NO_IPV6, map[])

  /** The tree at /files/etc/sysconfig/network-scripts/ifcfg-FILE. */
  datatype Tree = Tree(file: string, nodes: Nodes)

  type Forest = seq<Tree>

  /**
   * PrefixRejected: ipcalc:netmask reports an error. ShiftUndefined: it shifts a 32-bit operand by 32.
   * NetmaskUndefined: ipcalc:prefix goes on with an address inet_pton did not fill in.
   */
  datatype Fault = PrefixRejected | ShiftUndefined | NetmaskUndefined

  datatype Result<+T> = Ok(value: T) | Err(fault: Fault) {
    predicate IsFailure() {
      Err?
    }
    function PropagateFailure<U>(): Result<U>
      requires Err?
    {
      Err(fault)
    }
    function Extract(): T
      requires Ok?
    {
      value
    }
  }

  // ==== redhat-get.xsl ====

  function StartNodes(start: StartMode, n: Nodes): Nodes {
    match start
    case OnBoot => n.(ONBOOT := Some("yes"))
    case NoStart => n.(ONBOOT := Some("no"))
    case HotPlug => n.(ONBOOT := Some("no"), HOTPLUG := Some("yes"))
  }

  function MtuNodes(mtu: Option<string>, n: Nodes): Nodes {
    if mtu.Some? && mtu.value != "" then n.(MTU := mtu) else n
  }

  /** ipcalc:netmask; a text that is not a number is rejected as well. */
  function NetmaskText(prefix: string): Result<string> {
    if !Digits(prefix) then Err(PrefixRejected)
    else
      var n := Number(prefix);
      if n == 0 || n > 32 then Err(PrefixRejected)
      else if n == 32 then Err(ShiftUndefined)
      else Ok(Quad(Netmask(n)))
  }

  function NetmaskNode(prefix: Option<string>): Result<Option<string>> {
    if prefix.None? then Ok(None)
    else
      var mask :- NetmaskText(prefix.value);
      Ok(Some(mask))
  }

  function IPv4Nodes(p: IPv4): Result<IPv4Labels> {
    match p
    case Dhcp4(peerdns) => Ok(NO_IPV4.(BOOTPROTO := Some("dhcp"), PEERDNS := peerdns))
    case Static4(address, prefix, gateway) =>
      var mask :- NetmaskNode(prefix);
      Ok(NO_IPV4.(BOOTPROTO := Some("none"), IPADDR := Some(address), NETMASK := mask, GATEWAY := gateway))
  }

  function AddressText(ip: IPv6Address): string {
    ip.address + if ip.prefix.Some? then "/" + ip.prefix.value else ""
  }

  function AddressTexts(ips: seq<IPv6Address>): seq<string> {
    seq(|ips|, i requires 0 <= i < |ips| => AddressText(ips[i]))
  }

  function YesNo(b: bool): string {
    if b then "yes" else "no"
  }

  function Secondaries(ips: seq<IPv6Address>): Option<string> {
    if |ips| > 1 then Some("'" + Join(AddressTexts(ips[1..]), ' ') + "'") else None
  }

  function IPv6Nodes(p: IPv6): IPv6Labels {
    IPv6Labels(
      Some("yes"), Some(YesNo(p.autoconf)), Some(YesNo(p.dhcp.Some?)),
      if |p.ips| > 0 then Some(AddressText(p.ips[0])) else None,
      Secondaries(p.ips),
      p.gateway)
  }

  function AddressingNodes(a: Addressing, n: Nodes): Result<Nodes> {
    var v4 :- if a.ipv4.Some? then IPv4Nodes(a.ipv4.value) else Ok(NO_IPV4);
    Ok(n.(v4 := v4, v6 := if a.ipv6.Some? then IPv6Nodes(a.ipv6.value) else NO_IPV6))
  }

  /** Start mode and MTU are global: every tree of the document gets them. */
  function CommonNodes(d: Interface): Nodes {
    MtuNodes(d.mtu, StartNodes(d.start, NO_NODES))
  }

  function EthernetNodes(e: Ethernet, common: Nodes): Nodes {
    common.(DEVICE := Some(e.name), HWADDR := e.mac)
  }

  function VlanNodes(v: Vlan, common: Nodes): Nodes {
    common.(DEVICE := Some(VlanName(v)), VLAN := Some("yes"))
  }

  function BondNodes(name: string, bond: Bond, common: Nodes): Nodes {
    common.(DEVICE := Some(name), BONDING_OPTS := Some(BondOpts.Print(bond)))
  }

  function KindNodes(k: Kind, common: Nodes): Nodes {
    match k
    case EthernetKind(e) => EthernetNodes(e, common)
    case VlanKind(v) => VlanNodes(v, common)
    case BridgeKind(name, stp, delay, _) =>
      common.(DEVICE := Some(name), TYPE := Some("Bridge"), STP := stp, DELAY := delay)
    case BondKind(name, bond) => BondNodes(name, bond, common)
  }

  function RootTree(d: Interface): Result<Tree> {
    var nodes :- AddressingNodes(d.addressing, KindNodes(d.kind, CommonNodes(d)));
    Ok(Tree(KindName(d.kind), nodes))
  }

  function PortNodes(p: Port, common: Nodes): Nodes {
    match p
    case EthernetPort(e) => EthernetNodes(e, common)
    case VlanPort(v) => VlanNodes(v, common)
    case BondPort(name, bond) => BondNodes(name, bond, common)
  }

  function PortTree(bridge: string, common: Nodes, p: Port): Tree {
    Tree(PortName(p), PortNodes(p, common).(BRIDGE := Some(bridge)))
  }

  function SlaveTree(bond: string, common: Nodes, e: Ethernet): Tree {
    Tree(e.name, EthernetNodes(e, common).(MASTER := Some(bond), SLAVE := Some("yes")))
  }

  function SlaveTrees(bond: string, common: Nodes, slaves: seq<Ethernet>): Forest {
    if slaves == [] then [] else [SlaveTree(bond, common, slaves[0])] + SlaveTrees(bond, common, slaves[1..])
  }

  function PortForest(bridge: string, common: Nodes, p: Port): Forest {
    [PortTree(bridge, common, p)] + if p.BondPort? then SlaveTrees(p.name, common, p.bond.slaves) else []
  }

  function PortsForest(bridge: string, common: Nodes, ports: seq<Port>): Forest {
    if ports == [] then []
    else PortForest(bridge, common, ports[0]) + PortsForest(bridge, common, ports[1..])
  }

  function SubTrees(d: Interface): Forest {
    match d.kind
    case BridgeKind(name, _, _, ports) => PortsForest(name, CommonNodes(d), ports)
    case BondKind(name, bond) => SlaveTrees(name, CommonNodes(d), bond.slaves)
    case _ => []
  }

  /** The stylesheet: the tree of the root interface, then the trees of what is enslaved to it. */
  function Get(d: Interface): Result<Forest> {
    var root :- RootTree(d);
    Ok([root] + SubTrees(d))
  }

  // ==== redhat-put.xsl ====

  function PutStart(n: Nodes): StartMode {
    if n.HOTPLUG == Some("yes") then HotPlug else if n.ONBOOT == Some("yes") then OnBoot else NoStart
  }

  /** ipcalc:prefix. */
  function PrefixText(netmask: string): Result<string> {
    if netmask == "" then Ok("")
    else
      var mask := ParseQuad(netmask);
      if mask.None? then Err(NetmaskUndefined) else Ok(Decimal(PrefixLength(mask.value)))
  }

  function PutPrefix(n: IPv4Labels): Result<Option<string>> {
    if n.PREFIX.Some? then Ok(n.PREFIX)
    else if n.NETMASK.Some? then
      var p :- PrefixText(n.NETMASK.value);
      Ok(Some(p))
    else Ok(None)
  }

  function PutIPv4(n: IPv4Labels): Result<Option<IPv4>> {
    if n.BOOTPROTO == Some("dhcp") then Ok(Some(Dhcp4(n.PEERDNS)))
    else if n.IPADDR.Some? then
      var prefix :- PutPrefix(n);
      Ok(Some(Static4(n.IPADDR.value, prefix, n.GATEWAY)))
    else Ok(None)
  }

  function PutAddress(text: string): IPv6Address {
    IPv6Address(Before(text, '/'), BondOpts.NonEmptyOption(After(text, '/')))
  }

  function PutAddresses(texts: seq<string>): seq<IPv6Address> {
    seq(|texts|, i requires 0 <= i < |texts| => PutAddress(texts[i]))
  }

  function Unquote(s: string): string {
    if s != "" && s[0] == '\'' then (if |s| >= 2 then s[1..|s| - 1] else "") else s
  }

  function PutFirst(n: IPv6Labels): seq<IPv6Address> {
    if n.IPV6ADDR.Some? then [PutAddress(n.IPV6ADDR.value)] else []
  }

  function PutSecondaries(n: IPv6Labels): seq<IPv6Address> {
    if n.IPV6ADDR_SECONDARIES.Some? then PutAddresses(Tokens(Unquote(n.IPV6ADDR_SECONDARIES.value), ' ')) else []
  }

  /** The route belongs to the first address: without IPV6ADDR it is not looked at. */
  function PutIPv6(n: IPv6Labels): Option<IPv6> {
    if n.IPV6INIT != Some("yes") then None
    else Some(IPv6(
      n.IPV6_AUTOCONF == Some("yes"),
      if n.DHCPV6 == Some("yes") then Some(Dhcp6(None)) else None,
      PutFirst(n) + PutSecondaries(n),
      if n.IPV6ADDR.Some? then n.IPV6_DEFAULTGW else None))
  }

  function PutAddressing(n: Nodes): Result<Addressing> {
    var v4 :- PutIPv4(n.v4);
    Ok(Addressing(v4, PutIPv6(n.v6), false))
  }

  function PutEthernet(n: Nodes): Ethernet {
    Ethernet(Value(n.DEVICE), n.HWADDR)
  }

  function PutVlan(n: Nodes): Vlan {
    var name := Value(n.DEVICE);
    Vlan(Some(name), Before(name, '.'), After(name, '.'))
  }

  datatype Link = ToBridge | ToMaster

  /** The device a tree is enslaved to by BRIDGE or by MASTER. */
  function Target(n: Nodes, link: Link): Option<string> {
    if link.ToBridge? then n.BRIDGE else n.MASTER
  }

  /** The trees of f, in order, that are linked to the device. */
  function Select(f: Forest, link: Link, device: Option<string>): Forest {
    if f == [] then []
    else (if device.Some? && Target(f[0].nodes, link) == device then [f[0]] else []) + Select(f[1..], link, device)
  }

  /** Bare ethernet interfaces of the trees whose DEVICE is (or is not) the primary. */
  function Slaves(f: Forest, primary: string, want: bool): seq<Ethernet> {
    if f == [] then []
    else
      var n := f[0].nodes;
      (if n.DEVICE.Some? && (n.DEVICE.value == primary) == want then [PutEthernet(n)] else [])
      + Slaves(f[1..], primary, want)
  }

  /** The primary first, then the others. */
  function Arrange(f: Forest, primary: string): seq<Ethernet> {
    Slaves(f, primary, true) + Slaves(f, primary, false)
  }

  function PutBond(f: Forest, n: Nodes): Bond {
    var opts := Value(n.BONDING_OPTS);
    BondOpts.Parse(opts, Arrange(Select(f, ToMaster, n.DEVICE), BondOpts.BondOption(opts, "primary")))
  }

  /** What a tree enslaved to a bridge becomes; a tree with both VLAN and BONDING_OPTS gives two ports. */
  function PutPort(f: Forest, n: Nodes): seq<Port> {
    (if n.VLAN.None? && n.BONDING_OPTS.None? then [EthernetPort(PutEthernet(n))] else [])
    + (if n.BONDING_OPTS.Some? then [BondPort(Value(n.DEVICE), PutBond(f, n))] else [])
    + (if n.VLAN.Some? then [VlanPort(PutVlan(n))] else [])
  }

  function PutPorts(f: Forest, enslaved: Forest): seq<Port> {
    if enslaved == [] then [] else PutPort(f, enslaved[0].nodes) + PutPorts(f, enslaved[1..])
  }

  function PutBridge(f: Forest, n: Nodes): Kind {
    BridgeKind(Value(n.DEVICE), n.STP, n.DELAY, PutPorts(f, Select(f, ToBridge, n.DEVICE)))
  }

  predicate BondMatch(f: Forest, n: Nodes) {
    n.DEVICE.Some? && Select(f, ToMaster, n.DEVICE) != [] && n.BRIDGE.None?
  }

  predicate BridgeMatch(n: Nodes) {
    n.TYPE == Some("Bridge")
  }

  predicate VlanMatch(n: Nodes) {
    n.VLAN == Some("yes") && n.MASTER.None? && n.BRIDGE.None?
  }

  predicate EthernetMatch(n: Nodes) {
    n.MASTER.None? && n.BRIDGE.None? && n.VLAN.None?
  }

  /**
   * Of the templates that match, the last one in the stylesheet is chosen (section 5.5 of XSLT 1.0):
   * bond after bridge after vlan after ethernet. A tree no template matches falls to the built-in
   * rules and leaves nothing (section 5.8 of XSLT 1.0).
   */
  function PutKind(f: Forest, n: Nodes): Option<Kind> {
    if BondMatch(f, n) then Some(BondKind(Value(n.DEVICE), PutBond(f, n)))
    else if BridgeMatch(n) then Some(PutBridge(f, n))
    else if VlanMatch(n) then Some(VlanKind(PutVlan(n)))
    else if EthernetMatch(n) then Some(EthernetKind(PutEthernet(n)))
    else None
  }

  function PutTree(f: Forest, n: Nodes): Result<seq<Interface>> {
    var kind := PutKind(f, n);
    if kind.None? then Ok([])
    else
      var addressing :- PutAddressing(n);
      Ok([Interface(kind.value, PutStart(n), n.MTU, addressing)])
  }

  function PutTrees(f: Forest, trees: Forest): Result<seq<Interface>> {
    if trees == [] then Ok([])
    else
      var first :- PutTree(f, trees[0].nodes);
      var rest :- PutTrees(f, trees[1..]);
      Ok(first + rest)
  }

  /** The stylesheet: the interfaces it writes at the top level, in order. */
  function Put(f: Forest): Result<seq<Interface>> {
    PutTrees(f, f)
  }
}
