// The labels of compiled nodes, part by part: what a bond, a VLAN, a protocol or a port stanza holds.
module DebianNodes {
  import opened Text
  import opened Document
  import IpCalc
  import RedHat
  import opened Debian
  import opened DebianImage
  import opened DebianAddressing

  /** No value, or this one. */
  function Opt(o: Option<string>): seq<string> {
    match o
    case None => []
    case Some(value) => [value]
  }

  // ---- the labels of each kind ----

  /** The labels of a bond, and none of a bridge or VLAN. */
  ghost predicate HoldsBond(n: seq<Node>, b: Bond) {
    HoldsSlaves(n, b) && HoldsMiimon(n, b.miimon) && HoldsArpmon(n, b.arpmon)
    && Values(n, BRIDGE_PORTS) == [] && Values(n, VLAN_RAW_DEVICE) == []
  }

  ghost predicate HoldsSlaves(n: seq<Node>, b: Bond) {
    Values(n, BOND_SLAVES) == [if b.slaves == [] then "none" else Join(SlaveNames(b.slaves), ' ')]
    && Values(n, BOND_PRIMARY) == (if b.slaves == [] then [] else [b.slaves[0].name])
    && Values(n, BOND_MODE) == Opt(b.mode)
  }

  ghost predicate HoldsMiimon(n: seq<Node>, m: Option<Miimon>) {
    Values(n, BOND_MIIMON) == (if m.Some? then [m.value.freq] else [])
    && Values(n, BOND_DOWNDELAY) == (if m.Some? then Opt(m.value.downdelay) else [])
    && Values(n, BOND_UPDELAY) == (if m.Some? then Opt(m.value.updelay) else [])
    && Values(n, BOND_USE_CARRIER) ==
       if m.Some? && m.value.carrier == Some("ioctl") then ["0"]
       else if m.Some? && m.value.carrier == Some("netif") then ["1"] else []
  }

  ghost predicate HoldsArpmon(n: seq<Node>, a: Option<Arpmon>) {
    Values(n, BOND_ARP_INTERVAL) == (if a.Some? then [a.value.interval] else [])
    && Values(n, BOND_ARP_IP_TARGET) == (if a.Some? then [a.value.target] else [])
    && Values(n, BOND_ARP_VALIDATE) == if a.Some? then Opt(a.value.validate) else []
  }

  /** The labels of a VLAN, and none of a bridge or bond. */
  ghost predicate HoldsVlan(n: seq<Node>, v: Vlan) {
    Values(n, VLAN_RAW_DEVICE) == [v.base] && Values(n, BRIDGE_PORTS) == [] && Values(n, BOND_SLAVES) == []
  }

  lemma BondAlone(n: seq<Node>, b: Bond)
    requires OfBond(n, b)
    ensures Values(n, BRIDGE_PORTS) == [] && Values(n, VLAN_RAW_DEVICE) == []
  {
    BondTyped(n, b);
  }

  lemma BondLabels(n: seq<Node>, b: Bond)
    requires OfBond(n, b)
    ensures HoldsBond(n, b)
  {
    SlaveLabels(n, b);
    BondAlone(n, b);
    MiimonLabels(n, b);
    ArpmonLabels(n, b);
  }

  lemma SlaveLabels(n: seq<Node>, b: Bond)
    requires OfBond(n, b)
    ensures HoldsSlaves(n, b)
  {
    assert Values(n, BOND_SLAVES) == OptSeq(BondValue(b, BOND_SLAVES));
    assert Values(n, BOND_PRIMARY) == OptSeq(BondValue(b, BOND_PRIMARY));
    assert Values(n, BOND_MODE) == OptSeq(BondValue(b, BOND_MODE));
  }

  lemma MiimonFields(m: Option<Miimon>, b: Bond)
    requires b.miimon == m
    ensures BondValue(b, BOND_MIIMON) == if m.Some? then Some(m.value.freq) else None
    ensures BondValue(b, BOND_DOWNDELAY) == if m.Some? then m.value.downdelay else None
    ensures BondValue(b, BOND_UPDELAY) == if m.Some? then m.value.updelay else None
    ensures BondValue(b, BOND_USE_CARRIER) == if m.Some? then CarrierFlag(m.value.carrier) else None
  {
  }

  lemma MiimonLabels(n: seq<Node>, b: Bond)
    requires OfBond(n, b)
    ensures HoldsMiimon(n, b.miimon)
  {
    MiimonFields(b.miimon, b);
    assert Values(n, BOND_MIIMON) == OptSeq(BondValue(b, BOND_MIIMON));
    assert Values(n, BOND_DOWNDELAY) == OptSeq(BondValue(b, BOND_DOWNDELAY));
    assert Values(n, BOND_UPDELAY) == OptSeq(BondValue(b, BOND_UPDELAY));
    assert Values(n, BOND_USE_CARRIER) == OptSeq(BondValue(b, BOND_USE_CARRIER));
  }

  lemma ArpmonFields(a: Option<Arpmon>, b: Bond)
    requires b.arpmon == a
    ensures BondValue(b, BOND_ARP_INTERVAL) == if a.Some? then Some(a.value.interval) else None
    ensures BondValue(b, BOND_ARP_IP_TARGET) == if a.Some? then Some(a.value.target) else None
    ensures BondValue(b, BOND_ARP_VALIDATE) == if a.Some? then a.value.validate else None
  {
  }

  lemma ArpmonLabels(n: seq<Node>, b: Bond)
    requires OfBond(n, b)
    ensures HoldsArpmon(n, b.arpmon)
  {
    ArpmonFields(b.arpmon, b);
    assert Values(n, BOND_ARP_INTERVAL) == OptSeq(BondValue(b, BOND_ARP_INTERVAL));
    assert Values(n, BOND_ARP_IP_TARGET) == OptSeq(BondValue(b, BOND_ARP_IP_TARGET));
    assert Values(n, BOND_ARP_VALIDATE) == OptSeq(BondValue(b, BOND_ARP_VALIDATE));
  }

  lemma VlanLabels(n: seq<Node>, v: Vlan)
    requires OwnNodes(n, VlanNodes(v))
    ensures HoldsVlan(n, v)
  {
    var own := VlanNodes(v);
    assert own[1..] == [];
    assert Values(n, VLAN_RAW_DEVICE) == Values(own, VLAN_RAW_DEVICE);
    assert Values(n, BRIDGE_PORTS) == Values(own, BRIDGE_PORTS);
    assert Values(n, BOND_SLAVES) == Values(own, BOND_SLAVES);
  }

  lemma EthernetLabels(n: seq<Node>)
    requires OwnNodes(n, [])
    ensures Values(n, BRIDGE_PORTS) == [] && Values(n, BOND_SLAVES) == [] && Values(n, VLAN_RAW_DEVICE) == []
  {
    assert Values(n, BRIDGE_PORTS) == Values([], BRIDGE_PORTS);
    assert Values(n, BOND_SLAVES) == Values([], BOND_SLAVES);
    assert Values(n, VLAN_RAW_DEVICE) == Values([], VLAN_RAW_DEVICE);
  }

  lemma BridgeLabels(n: seq<Node>, text: string, stp: Option<string>, delay: Option<string>)
    requires OwnNodes(n, Written(
      [Entry(BRIDGE_PORTS, Some(text)), Entry(BRIDGE_STP, stp), Entry(BRIDGE_FD, delay)]))
    ensures Values(n, BRIDGE_PORTS) == [text] && Values(n, BRIDGE_STP) == Opt(stp) && Values(n, BRIDGE_FD) == Opt(delay)
  {
    BridgeValue(n, text, stp, delay, BRIDGE_PORTS);
    BridgeValue(n, text, stp, delay, BRIDGE_STP);
    BridgeValue(n, text, stp, delay, BRIDGE_FD);
  }

  // ---- addressing ----

  /** The addressing of the stanza, and no IPv6 command. */
  ghost predicate Addressed(n: seq<Node>, family: string, how: string, address: seq<string>, netmask: seq<string>,
                            gateway: seq<string>)
  {
    Values(n, FAMILY) == [family] && Values(n, METHOD) == [how] && Values(n, ADDRESS) == address
    && Values(n, NETMASK) == netmask && Values(n, GATEWAY) == gateway
  }

  ghost predicate HoldsIPv4(n: seq<Node>, p: IPv4) {
    Values(n, UP) == [] && Values(n, DOWN) == [] &&
    match p
    case Dhcp4(_) => Addressed(n, "inet", "dhcp", [], [], [])
    case Static4(address, prefix, gateway) =>
      Addressed(n, "inet", "static", [address], Values(n, NETMASK), Opt(gateway))
      && if prefix.Some? then |Values(n, NETMASK)| == 1 && IsMask(Values(n, NETMASK)[0], prefix.value)
         else Values(n, NETMASK) == []
  }

  /** The dotted netmask of the prefix. */
  predicate IsMask(mask: string, prefix: string) {
    Digits(prefix) && 1 <= Number(prefix) <= 31 && mask == IpCalc.Quad(IpCalc.Netmask(Number(prefix)))
  }

  ghost predicate IPv6Addressing(n: seq<Node>, p: IPv6) {
    if p.ips != [] then Addressed(n, "inet6", "static", [p.ips[0].address], Opt(p.ips[0].prefix), Opt(p.gateway))
    else Addressed(n, "inet6", if p.dhcp.Some? then "dhcp" else "manual", [], [], [])
  }

  /** The first address is that of the stanza; each other is added when it goes up and deleted when it goes down. */
  ghost predicate HoldsIPv6(n: seq<Node>, key: string, p: IPv6) {
    IPv6Addressing(n, p)
    && Lists(Values(n, UP), "/sbin/ifconfig " + key + " inet6 add ", p.ips)
    && Lists(Values(n, DOWN), "/sbin/ifconfig " + key + " inet6 del ", p.ips)
  }

  /** One command for each address after the first. */
  ghost predicate Lists(commands: seq<string>, command: string, ips: seq<IPv6Address>) {
    if ips == [] then commands == []
    else
      |commands| == |ips| - 1 && forall i | 0 <= i < |commands| ::
        var ip := ips[i + 1];
        commands[i] == command + ip.address + "/" + if ip.prefix.Some? then ip.prefix.value else ""
  }

  lemma {:induction false} CommandsList(command: string, ips: seq<IPv6Address>)
    ensures |Commands(command, ips)| == |ips|
    ensures forall i | 0 <= i < |ips| ::
      var ip := ips[i];
      Commands(command, ips)[i] == command + ip.address + "/" + if ip.prefix.Some? then ip.prefix.value else ""
  {
    if ips != [] {
      CommandsList(command, ips[1..]);
      var text := if ips[0].prefix.Some? then ips[0].prefix.value else "";
      assert command + Debian.AddressText(ips[0]) == command + ips[0].address + "/" + text;
    }
  }

  lemma DownValues(name: string, ips: seq<IPv6Address>)
    ensures Values(MoreNodes(name, ips), DOWN) == if ips == [] then [] else Commands(DelCommand(name), ips[1..])
  {
    if ips != [] {
      var up, down := MoreAddresses(UP, AddCommand(name), ips[1..]), MoreAddresses(DOWN, DelCommand(name), ips[1..]);
      AddressesValues(DOWN, DelCommand(name), ips[1..]);
      AddressesWithin(UP, AddCommand(name), ips[1..]);
      ValuesConcat(up, down, DOWN);
      ValuesAbsent(up, DOWN);
    }
  }

  lemma IPv6Down(name: string, p: IPv6)
    ensures Values(IPv6Nodes(name, p), DOWN) == if p.ips == [] then [] else Commands(DelCommand(name), p.ips[1..])
  {
    IPv6Values(name, p, DOWN);
    AutoconfValues(name, p.autoconf);
    ValuesAbsent(AutoconfNodes(name, p.autoconf), DOWN);
    DownValues(name, p.ips);
  }

  lemma IPv6Addressed(name: string, p: IPv6)
    ensures IPv6Addressing(IPv6Nodes(name, p), p)
  {
    IPv6Address5(name, p, FAMILY);
    IPv6Address5(name, p, METHOD);
    IPv6Address5(name, p, ADDRESS);
    IPv6Address5(name, p, NETMASK);
    IPv6Address5(name, p, GATEWAY);
  }

  lemma FurtherListed(commands: seq<string>, command: string, ips: seq<IPv6Address>)
    requires commands == if ips == [] then [] else Commands(command, ips[1..])
    ensures Lists(commands, command, ips)
  {
    if ips != [] {
      CommandsList(command, ips[1..]);
    }
  }

  lemma IPv6Labels(name: string, p: IPv6)
    ensures HoldsIPv6(IPv6Nodes(name, p), name, p)
  {
    var n := IPv6Nodes(name, p);
    IPv6Addressed(name, p);
    IPv6Up(name, p);
    IPv6Down(name, p);
    FurtherListed(Values(n, UP), AddCommand(name), p.ips);
    FurtherListed(Values(n, DOWN), DelCommand(name), p.ips);
  }

  lemma EntriesValues(e: seq<Entry>)
    requires AddressLabels(e)
    ensures Values(Written(e), FAMILY) == OptSeq(e[0].value) && Values(Written(e), METHOD) == OptSeq(e[1].value)
    ensures Values(Written(e), UP) == [] && Values(Written(e), DOWN) == []
  {
    AddressValues(e, FAMILY);
    AddressValues(e, METHOD);
    AddressValues(e, UP);
    AddressValues(e, DOWN);
  }

  lemma EntriesAddress(e: seq<Entry>)
    requires AddressLabels(e)
    ensures Values(Written(e), ADDRESS) == OptSeq(e[2].value)
    ensures Values(Written(e), NETMASK) == OptSeq(e[3].value)
    ensures Values(Written(e), GATEWAY) == OptSeq(e[4].value)
  {
    AddressValues(e, ADDRESS);
    AddressValues(e, NETMASK);
    AddressValues(e, GATEWAY);
  }

  lemma EntriesAddressed(e: seq<Entry>, family: string, how: string)
    requires AddressLabels(e) && e[0].value == Some(family) && e[1].value == Some(how)
    ensures var n := Written(e);
      Addressed(n, family, how, OptSeq(e[2].value), OptSeq(e[3].value), OptSeq(e[4].value))
      && Values(n, UP) == [] && Values(n, DOWN) == []
  {
    EntriesValues(e);
    EntriesAddress(e);
  }

  lemma NetmaskLabel(prefix: Option<string>)
    requires RedHat.NetmaskNode(prefix).Ok?
    ensures var mask := RedHat.NetmaskNode(prefix).value;
      if prefix.Some? then mask.Some? && IsMask(mask.value, prefix.value) else mask == None
  {
  }

  lemma StaticNodes(p: IPv4)
    requires p.Static4? && IPv4Nodes(p).Ok?
    ensures RedHat.NetmaskNode(p.prefix).Ok? && IPv4Nodes(p).value == Written(IPv4Entries(p))
  {
  }

  lemma StaticLabels(n: seq<Node>, p: IPv4, mask: Option<string>)
    requires p.Static4? && Values(n, UP) == [] && Values(n, DOWN) == []
    requires Addressed(n, "inet", "static", [p.address], OptSeq(mask), OptSeq(p.gateway))
    requires if p.prefix.Some? then mask.Some? && IsMask(mask.value, p.prefix.value) else mask == None
    ensures HoldsIPv4(n, p)
  {
  }

  lemma IPv4Labels(p: IPv4)
    requires IPv4Nodes(p).Ok?
    ensures HoldsIPv4(IPv4Nodes(p).value, p)
  {
    if p.Static4? {
      StaticNodes(p);
      EntriesAddressed(IPv4Entries(p), "inet", "static");
      NetmaskLabel(p.prefix);
      StaticLabels(IPv4Nodes(p).value, p, RedHat.NetmaskNode(p.prefix).value);
    } else {
      ValuesPairs("dhcp");
    }
  }

  lemma ValuesPairs(how: string)
    ensures var n := [Node(FAMILY, "inet"), Node(METHOD, how)];
      Addressed(n, "inet", how, [], [], []) && Values(n, UP) == [] && Values(n, DOWN) == []
      && Values(n, PRE_UP) == [] && Values(n, POST_DOWN) == []
  {
    var a, b := Node(FAMILY, "inet"), Node(METHOD, how);
    TwoNodes("inet", how);
    ValuesPair(a, b, ADDRESS);
    ValuesPair(a, b, NETMASK);
    ValuesPair(a, b, GATEWAY);
    ValuesPair(a, b, UP);
    ValuesPair(a, b, DOWN);
    ValuesPair(a, b, PRE_UP);
    ValuesPair(a, b, POST_DOWN);
  }

  // ---- what runs around an interface ----

  /** The command for each port that must be up first: bonds, and VLANs when the bridge has a protocol. */
  function HookTexts(word: string, ports: seq<Port>, vlans: bool): seq<string> {
    if ports == [] then []
    else
      (match ports[0]
       case EthernetPort(_) => []
       case VlanPort(v) => if vlans then [word + if v.name.Some? then v.name.value else ""] else []
       case BondPort(name, _) => [word + name])
      + HookTexts(word, ports[1..], vlans)
  }

  lemma HookPair(up: string, down: string, rest: seq<Node>)
    ensures Values([Node(PRE_UP, up), Node(POST_DOWN, down)] + rest, PRE_UP) == [up] + Values(rest, PRE_UP)
    ensures Values([Node(PRE_UP, up), Node(POST_DOWN, down)] + rest, POST_DOWN) == [down] + Values(rest, POST_DOWN)
  {
    var a, b := Node(PRE_UP, up), Node(POST_DOWN, down);
    ValuesPair(a, b, PRE_UP);
    ValuesPair(a, b, POST_DOWN);
    ValuesConcat([a, b], rest, PRE_UP);
    ValuesConcat([a, b], rest, POST_DOWN);
  }

  lemma {:induction false} HookValues(ports: seq<Port>, vlans: bool)
    ensures Values(Hooks(ports, vlans), PRE_UP) == HookTexts("ifup ", ports, vlans)
    ensures Values(Hooks(ports, vlans), POST_DOWN) == HookTexts("ifdown ", ports, vlans)
  {
    if ports != [] {
      var rest := Hooks(ports[1..], vlans);
      HookValues(ports[1..], vlans);
      if Hooked(ports[0], vlans) {
        HookPair("ifup " + PortAttr(ports[0]), "ifdown " + PortAttr(ports[0]), rest);
      } else {
        NoneBeside(rest);
        NoneBeside(Values(rest, PRE_UP));
        NoneBeside(Values(rest, POST_DOWN));
      }
    }
  }

  /** Turning address configuration off and, afterwards, on again. */
  ghost predicate Autoconf(up: seq<string>, down: seq<string>, key: string, autoconf: bool) {
    up == (if autoconf then [] else ["echo " + "0" + " > /proc/sys/net/ipv6/conf/" + key + "/autoconf"])
    && down == (if autoconf then [] else ["echo " + "1" + " > /proc/sys/net/ipv6/conf/" + key + "/autoconf"])
  }

  lemma AutoconfBoth(name: string, autoconf: bool)
    ensures Autoconf(Values(AutoconfNodes(name, autoconf), PRE_UP), Values(AutoconfNodes(name, autoconf), POST_DOWN),
                     name, autoconf)
  {
    if !autoconf {
      var up, down := Node(PRE_UP, AutoconfCommand("0", name)), Node(POST_DOWN, AutoconfCommand("1", name));
      ValuesPair(up, down, PRE_UP);
      ValuesPair(up, down, POST_DOWN);
    }
  }

  lemma IPv6Hooks(name: string, p: IPv6)
    ensures Autoconf(Values(IPv6Nodes(name, p), PRE_UP), Values(IPv6Nodes(name, p), POST_DOWN), name, p.autoconf)
  {
    IPv6Values(name, p, PRE_UP);
    IPv6Values(name, p, POST_DOWN);
    AutoconfBoth(name, p.autoconf);
    MoreValues(name, p.ips, PRE_UP);
    MoreValues(name, p.ips, POST_DOWN);
  }

  lemma StaticHooks(p: IPv4)
    requires p.Static4? && IPv4Nodes(p).Ok?
    ensures Values(IPv4Nodes(p).value, PRE_UP) == [] && Values(IPv4Nodes(p).value, POST_DOWN) == []
  {
    StaticNodes(p);
    AddressValues(IPv4Entries(p), PRE_UP);
    AddressValues(IPv4Entries(p), POST_DOWN);
  }

  lemma FirstHooks(name: string, protocols: seq<Protocol>)
    requires FirstNodes(name, protocols).Ok?
    ensures var n := FirstNodes(name, protocols).value;
      Autoconf(Values(n, PRE_UP), Values(n, POST_DOWN), name,
               protocols == [] || protocols[0].P4? || protocols[0].ipv6.autoconf)
  {
    if protocols == [] {
      ValuesPairs("manual");
    } else if protocols[0].P6? {
      IPv6Hooks(name, protocols[0].ipv6);
    } else if protocols[0].ipv4.Dhcp4? {
      ValuesPairs("dhcp");
    } else {
      StaticHooks(protocols[0].ipv4);
    }
  }

  // ---- the stanzas of the ports ----

  /** A port stanza is manual and holds the labels of the port. */
  ghost predicate HoldsPort(s: Stanza, p: Port) {
    Addressed(s.nodes, "inet", "manual", [], [], []) && Values(s.nodes, MTU) == [] && Values(s.nodes, HWADDRESS) == []
    && match p
       case EthernetPort(_) => false
       case VlanPort(v) => s.key == (if v.name.Some? then v.name.value else "") && HoldsVlan(s.nodes, v)
       case BondPort(name, bond) => s.key == name && HoldsBond(s.nodes, bond)
  }

  lemma PortHolds(p: Port)
    requires !p.EthernetPort?
    ensures |PortStanza(p)| == 1 && HoldsPort(PortStanza(p)[0], p)
  {
    if p.VlanPort? {
      VlanHolds(p.vlan);
      ManualAddressed(VlanNodes(p.vlan));
    } else {
      BondWithin(p.bond);
      BondPortOf(Manual() + BondNodes(p.bond), p.bond);
      BondLabels(Manual() + BondNodes(p.bond), p.bond);
      ManualAddressed(BondNodes(p.bond));
      ManualMisc(BondNodes(p.bond));
    }
  }

  lemma VlanHolds(v: Vlan)
    ensures HoldsVlan(Manual() + VlanNodes(v), v) && Within(VlanNodes(v), {Own})
    ensures Values(Manual() + VlanNodes(v), MTU) == [] && Values(Manual() + VlanNodes(v), HWADDRESS) == []
  {
    var own := VlanNodes(v);
    assert own[1..] == [];
    ManualValues(own, VLAN_RAW_DEVICE);
    ManualValues(own, BRIDGE_PORTS);
    ManualValues(own, BOND_SLAVES);
    ManualMisc(own);
  }

  lemma ManualMisc(own: seq<Node>)
    requires Within(own, {Own})
    ensures Values(Manual() + own, MTU) == [] && Values(Manual() + own, HWADDRESS) == []
  {
    ManualValues(own, MTU);
    ManualValues(own, HWADDRESS);
    ValuesAbsent(own, MTU);
    ValuesAbsent(own, HWADDRESS);
  }

  lemma ManualAddressed(own: seq<Node>)
    requires Within(own, {Own})
    ensures Addressed(Manual() + own, "inet", "manual", [], [], [])
  {
    ValuesPairs("manual");
    assert Besides(own);
    BesidesValues(Manual(), own, FAMILY);
    BesidesValues(Manual(), own, METHOD);
    BesidesValues(Manual(), own, ADDRESS);
    BesidesValues(Manual(), own, NETMASK);
    BesidesValues(Manual(), own, GATEWAY);
  }

  /** The stanzas follow the order of the ports; an Ethernet port has none. */
  ghost predicate HoldPorts(stanzas: seq<Stanza>, ports: seq<Port>)
    decreases |ports|
  {
    if ports == [] then stanzas == []
    else if ports[0].EthernetPort? then HoldPorts(stanzas, ports[1..])
    else stanzas != [] && HoldsPort(stanzas[0], ports[0]) && HoldPorts(stanzas[1..], ports[1..])
  }

  lemma {:induction false} PortsHold(ports: seq<Port>)
    ensures HoldPorts(PortStanzas(ports), ports)
  {
    if ports != [] {
      PortsHold(ports[1..]);
      if ports[0].EthernetPort? {
        NoneBeside(PortStanzas(ports[1..]));
      } else {
        PortHolds(ports[0]);
        var first := PortStanza(ports[0]);
        assert first == [first[0]];
        assert (first + PortStanzas(ports[1..]))[1..] == PortStanzas(ports[1..]);
      }
    }
  }
}
