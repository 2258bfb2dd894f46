// What debian-put.xsl reads from any stanzas, written by hand or not: which type, start mode, addresses, bond,
// VLAN and ports an interface has, by the labels of its stanza.
module DebianRead {
  import opened Text
  import opened Document
  import RedHat
  import IpCalc
  import opened Debian
  import opened DebianImage
  import opened DebianAddressing

  // ---- type, start mode, hardware address, mtu ----

  /** bridge_ports decides before bond_slaves, and that before vlan_raw_device. */
  lemma ReadType(n: seq<Node>)
    ensures PutType(n) == BridgeType <==> Values(n, BRIDGE_PORTS) != []
    ensures PutType(n) == BondType <==> Values(n, BRIDGE_PORTS) == [] && Values(n, BOND_SLAVES) != []
    ensures PutType(n) == VlanType <==>
      Values(n, BRIDGE_PORTS) == [] && Values(n, BOND_SLAVES) == [] && Values(n, VLAN_RAW_DEVICE) != []
  {
  }

  /** A stanza named in the auto array starts on boot, any other not at all. */
  lemma ReadStart(f: Stanzas, key: string)
    ensures PutStart(f, key) == OnBoot <==> key in f.auto
    ensures PutStart(f, key) == NoStart <==> key !in f.auto
  {
  }

  /** The address is what follows "ether ", and six characters when it is not the first hwaddress that has it. */
  lemma ReadMac(n: seq<Node>, six: string, mac: string, others: seq<string>)
    requires Values(n, HWADDRESS) == [six + mac] + others && |six| == 6
    requires six == "ether " || exists v | v in others :: "ether " <= v
    ensures PutMacs(n) == [mac]
  {
    var v := six + mac;
    assert v in Values(n, HWADDRESS);
    if six == "ether " {
      assert IsEther(v);
    } else {
      var w :| w in others && "ether " <= w;
      assert w in Values(n, HWADDRESS) && IsEther(w);
    }
    assert First(n, HWADDRESS) == v && v[6..] == mac;
  }

  /** An address too short for that is empty. */
  lemma ReadShortMac(n: seq<Node>, short: string, others: seq<string>)
    requires Values(n, HWADDRESS) == [short] + others && |short| < 6 && exists v | v in others :: "ether " <= v
    ensures PutMacs(n) == [""]
  {
    var w :| w in others && "ether " <= w;
    assert w in Values(n, HWADDRESS) && IsEther(w);
    assert First(n, HWADDRESS) == short;
  }

  lemma ReadNoMac(n: seq<Node>)
    requires forall v | v in Values(n, HWADDRESS) :: !("ether " <= v)
    ensures PutMacs(n) == []
  {
  }

  lemma ReadMtu(n: seq<Node>)
    ensures Values(n, MTU) == [] ==> PutMtus(n) == []
    ensures forall m, others | Values(n, MTU) == [m] + others :: PutMtus(n) == [m]
  {
  }

  // ---- IPv4 ----

  lemma ReadIPv4(n: seq<Node>)
    ensures "static" !in Values(n, METHOD) && "dhcp" in Values(n, METHOD) ==>
      PutIPv4(n) == RedHat.Ok([Family4(Some(Dhcp6(None)), [], None)])
    ensures "static" !in Values(n, METHOD) && "dhcp" !in Values(n, METHOD) && "loopback" in Values(n, METHOD) ==>
      PutIPv4(n) == RedHat.Ok([Family4(None, [IPv6Address("127.0.0.1", Some("8"))], None)])
    ensures (forall m | m in Values(n, METHOD) :: m !in ["static", "dhcp", "loopback"]) ==> PutIPv4(n) == RedHat.Ok([])
  {
    assert "static" in ["static", "dhcp", "loopback"] && "dhcp" in ["static", "dhcp", "loopback"];
    assert "loopback" in ["static", "dhcp", "loopback"];
  }

  /** A static stanza: the address, the numeral of the netmask's prefix when there is a netmask, the gateway. */
  lemma ReadStatic(n: seq<Node>)
    requires "static" in Values(n, METHOD)
    ensures Values(n, ADDRESS) == [] ==> PutIPv4(n) == RedHat.Ok([Family4(None, [], Optional(n, GATEWAY))])
    ensures forall address, others | Values(n, ADDRESS) == [address] + others && Values(n, NETMASK) == [] ::
      PutIPv4(n) == RedHat.Ok([Family4(None, [IPv6Address(address, None)], Optional(n, GATEWAY))])
  {
  }

  lemma ReadNetmask(n: seq<Node>, address: string, netmask: string, others: seq<string>, more: seq<string>)
    requires "static" in Values(n, METHOD)
    requires Values(n, ADDRESS) == [address] + others && Values(n, NETMASK) == [netmask] + more
    ensures netmask == "" ==>
      PutIPv4(n) == RedHat.Ok([Family4(None, [IPv6Address(address, Some(""))], Optional(n, GATEWAY))])
    ensures netmask != "" && IpCalc.ParseQuad(netmask).Some? ==>
      var prefix := Decimal(IpCalc.PrefixLength(IpCalc.ParseQuad(netmask).value));
      PutIPv4(n) == RedHat.Ok([Family4(None, [IPv6Address(address, Some(prefix))], Optional(n, GATEWAY))])
    ensures netmask != "" && IpCalc.ParseQuad(netmask).None? ==> PutIPv4(n) == RedHat.Err(RedHat.NetmaskUndefined)
  {
  }

  /** The first value of a label is the one that counts. */
  lemma ReadFirst(n: seq<Node>, name: Label)
    ensures Values(n, name) == [] ==> Optional(n, name) == None
    ensures forall v, others | Values(n, name) == [v] + others :: Optional(n, name) == Some(v) && First(n, name) == v
  {
  }

  // ---- IPv6 ----

  /** Autoconf unless the stanza turns it off or is a loopback; dhcp by its method; the gateway when there is one. */
  lemma ReadIPv6(s: Stanza)
    ensures PutIPv6(s).Family6?
    ensures PutIPv6(s).ipv6.autoconf <==>
      "loopback" !in Values(s.nodes, METHOD) && AutoconfCommand("0", s.key) !in Values(s.nodes, PRE_UP)
    ensures PutIPv6(s).ipv6.dhcp == if "dhcp" in Values(s.nodes, METHOD) then Some(Dhcp6(None)) else None
    ensures PutIPv6(s).ipv6.gateway == Optional(s.nodes, GATEWAY)
  {
  }

  /** The addresses: that of the stanza, those added by commands, that of a loopback. */
  lemma ReadAddresses(s: Stanza, first: seq<IPv6Address>)
    requires Values(s.nodes, ADDRESS) == [] ==> first == []
    requires Values(s.nodes, ADDRESS) != [] ==>
      first == [IPv6Address(First(s.nodes, ADDRESS), Some(First(s.nodes, NETMASK)))]
    ensures PutIPv6(s).ipv6.ips
         == first + (PutMore("/sbin/ifconfig " + s.key + " inet6 add ", Values(s.nodes, UP))
                     + if "loopback" in Values(s.nodes, METHOD) then [IPv6Address("::1", Some("8"))] else [])
  {
  }

  /** Command after command; one that does not begin as it should adds nothing. */
  lemma {:induction false} ReadCommands(command: string, a: seq<string>, b: seq<string>)
    ensures PutMore(command, a + b) == PutMore(command, a) + PutMore(command, b)
  {
    if a == [] {
      NoneBeside(PutMore(command, b));
      assert a + b == b;
    } else {
      assert (a + b)[0] == a[0] && (a + b)[1..] == a[1..] + b;
      ReadCommands(command, a[1..], b);
      Assoc(PutOneMore(command, a[0]), PutMore(command, a[1..]), PutMore(command, b));
    }
  }

  function PutOneMore(command: string, up: string): seq<IPv6Address> {
    if command <= up then
      var text := up[|command|..];
      [IPv6Address(Before(text, '/'), Some(After(text, '/')))]
    else []
  }

  lemma ReadCommand(command: string, address: string, prefix: string)
    requires '/' !in address
    ensures PutMore(command, [command + (address + "/" + prefix)]) == [IPv6Address(address, Some(prefix))]
    ensures PutMore(command, [command + address]) == [IPv6Address("", Some(""))]
  {
    var text := address + "/" + prefix;
    assert (command + text)[|command|..] == text && text == address + ['/'] + prefix;
    BeforeAfter(address, '/', prefix);
    assert [command + text][1..] == [] && [command + address][1..] == [];
    assert (command + address)[|command|..] == address;
  }

  lemma ReadOther(command: string, up: string)
    requires !(command <= up)
    ensures PutMore(command, [up]) == []
  {
    assert [up][1..] == [];
  }

  // ---- which stanzas make the protocols ----

  /** A first stanza of family inet gives its IPv4 protocol, and every inet6 stanza an IPv6 protocol. */
  lemma ReadInet(s: Stanza, stanzas: seq<Stanza>)
    requires "inet" in Values(s.nodes, FAMILY)
    ensures PutIPv4(s.nodes).Ok? ==>
      PutProtocols(s, stanzas) == RedHat.Ok(PutIPv4(s.nodes).value + PutAllIPv6(stanzas))
    ensures PutIPv4(s.nodes).Err? ==> PutProtocols(s, stanzas) == RedHat.Err(PutIPv4(s.nodes).fault)
  {
  }

  /** One of family inet6 gives its IPv6 protocol; IPv4 stanzas behind it are not read, unless their family is inet4. */
  lemma ReadInet6(s: Stanza, stanzas: seq<Stanza>)
    requires "inet" !in Values(s.nodes, FAMILY) && "inet6" in Values(s.nodes, FAMILY)
    ensures PutAllIPv4(stanzas).Ok? ==>
      PutProtocols(s, stanzas) == RedHat.Ok([PutIPv6(s)] + PutAllIPv4(stanzas).value)
    ensures (forall t | t in stanzas :: "inet4" !in Values(t.nodes, FAMILY)) ==>
      PutProtocols(s, stanzas) == RedHat.Ok([PutIPv6(s)])
  {
    if forall t | t in stanzas :: "inet4" !in Values(t.nodes, FAMILY) {
      NoInet4(stanzas);
      NoneBeside([PutIPv6(s)]);
    }
  }

  lemma {:induction false} NoInet4(stanzas: seq<Stanza>)
    requires forall t | t in stanzas :: "inet4" !in Values(t.nodes, FAMILY)
    ensures PutAllIPv4(stanzas) == RedHat.Ok([])
  {
    if stanzas != [] {
      assert stanzas[0] in stanzas;
      NoInet4(stanzas[1..]);
      var none: seq<ProtocolElement> := [];
      assert none + none == none;
    }
  }

  /** Stanza after stanza; only those of family inet4 count. */
  lemma ReadInet4(s: Stanza, rest: seq<Stanza>)
    requires PutAllIPv4(rest).Ok?
    ensures "inet4" !in Values(s.nodes, FAMILY) ==> PutAllIPv4([s] + rest) == PutAllIPv4(rest)
    ensures "inet4" in Values(s.nodes, FAMILY) && PutIPv4(s.nodes).Ok? ==>
      PutAllIPv4([s] + rest) == RedHat.Ok(PutIPv4(s.nodes).value + PutAllIPv4(rest).value)
    ensures "inet4" in Values(s.nodes, FAMILY) && PutIPv4(s.nodes).Err? ==> PutAllIPv4([s] + rest).Err?
  {
    assert ([s] + rest)[1..] == rest;
    NoneBeside(PutAllIPv4(rest).value);
  }

  lemma ReadNoFamily(s: Stanza, stanzas: seq<Stanza>)
    requires "inet" !in Values(s.nodes, FAMILY) && "inet6" !in Values(s.nodes, FAMILY)
    ensures PutProtocols(s, stanzas) == RedHat.Ok([])
  {
  }

  /** The IPv6 protocols stand in the order of their stanzas. */
  lemma ReadIPv6Stanzas(a: seq<Stanza>, s: Stanza, b: seq<Stanza>)
    ensures "inet6" in Values(s.nodes, FAMILY) ==>
      PutAllIPv6(a + [s] + b) == PutAllIPv6(a) + [PutIPv6(s)] + PutAllIPv6(b)
    ensures "inet6" !in Values(s.nodes, FAMILY) ==> PutAllIPv6(a + [s] + b) == PutAllIPv6(a) + PutAllIPv6(b)
  {
    AllIPv6Concat(a + [s], b);
    AllIPv6Concat(a, [s]);
    assert [s][1..] == [];
    NoneBeside(PutOneIPv6(s));
    NoneBeside(PutAllIPv6(a));
  }

  // ---- bonds and VLANs ----

  /** bond_miimon makes a miimon element; its carrier is ioctl whatever bond_use_carrier says. */
  lemma ReadMiimon(n: seq<Node>)
    ensures Values(n, BOND_MIIMON) == [] ==> PutMiimon(n) == None
    ensures Values(n, BOND_MIIMON) != [] ==>
      PutMiimon(n) == Some(Miimon(
        First(n, BOND_MIIMON), Optional(n, BOND_DOWNDELAY), Optional(n, BOND_UPDELAY),
        if Values(n, BOND_USE_CARRIER) == [] then None else Some("ioctl")))
  {
  }

  /** bond_arp_ip_target makes an arpmon element. */
  lemma ReadArpmon(n: seq<Node>)
    ensures Values(n, BOND_ARP_IP_TARGET) == [] ==> PutArpmon(n) == None
    ensures Values(n, BOND_ARP_IP_TARGET) != [] ==>
      PutArpmon(n) == Some(ArpmonElement(
        Optional(n, BOND_ARP_INTERVAL), First(n, BOND_ARP_IP_TARGET), Optional(n, BOND_ARP_VALIDATE)))
  {
  }

  /** The slaves are the blank-separated names of bond_slaves, in order. */
  lemma ReadBond(n: seq<Node>)
    ensures Values(n, BOND_SLAVES) == [] ==> PutBonds(n) == []
    ensures Values(n, BOND_SLAVES) != [] ==>
      var names := Tokens(First(n, BOND_SLAVES), ' ');
      |PutBonds(n)| == 1 && PutBonds(n)[0].mode == Optional(n, BOND_MODE)
      && PutBonds(n)[0].miimon == PutMiimon(n) && PutBonds(n)[0].arpmon == PutArpmon(n)
      && |PutBonds(n)[0].slaves| == |names|
      && forall i | 0 <= i < |names| :: PutBonds(n)[0].slaves[i] == Ethernet(names[i], None)
  {
  }

  /** The key of a VLAN is its base, one character, and the tag; a key no longer than the base has no tag. */
  lemma ReadVlan(key: string, n: seq<Node>, base: string, others: seq<string>, same: string, dot: char, tag: string)
    requires Values(n, VLAN_RAW_DEVICE) == [base] + others && |same| == |base|
    ensures PutVlans(Stanza(same + [dot] + tag, n)) == [VlanElement(tag, base)]
    ensures |key| <= |base| ==> PutVlans(Stanza(key, n)) == [VlanElement("", base)]
  {
    var whole := same + [dot] + tag;
    assert whole[|base| + 1..] == tag;
  }

  lemma ReadNoVlan(s: Stanza)
    requires Values(s.nodes, VLAN_RAW_DEVICE) == []
    ensures PutVlans(s) == []
  {
  }

  // ---- bridges and their ports ----

  /** A bridge has a port for each name in bridge_ports, except that "none" stands for no port. */
  lemma ReadBridge(n: seq<Node>, stanzas: seq<Stanza>, text: string)
    requires Values(n, BRIDGE_PORTS) == [text]
    ensures |PutBridges(n, stanzas)| == 1
    ensures PutBridges(n, stanzas)[0].stp == Optional(n, BRIDGE_STP)
    ensures PutBridges(n, stanzas)[0].delay == Optional(n, BRIDGE_FD)
    ensures text == "none" ==> PutBridges(n, stanzas)[0].ports == []
    ensures text != "none" ==>
      var names, ports := Tokens(text, ' '), PutBridges(n, stanzas)[0].ports;
      |ports| == |names| && forall i | 0 <= i < |names| :: ports[i] == PutPort(stanzas, names[i])
  {
    assert text in Values(n, BRIDGE_PORTS);
  }

  lemma ReadNoBridge(n: seq<Node>, stanzas: seq<Stanza>)
    requires Values(n, BRIDGE_PORTS) == []
    ensures PutBridges(n, stanzas) == []
  {
  }

  /** A port without a stanza is an Ethernet interface. */
  lemma ReadBarePort(stanzas: seq<Stanza>, name: string)
    requires forall s | s in stanzas :: s.key != name
    ensures PutPort(stanzas, name) == PortElement(Some(name), [EthernetType], [], [], [], [])
  {
    UnkeyedNone(stanzas, name);
  }

  lemma {:induction false} UnkeyedNone(stanzas: seq<Stanza>, name: string)
    requires forall s | s in stanzas :: s.key != name
    ensures Keyed(stanzas, name) == []
  {
    if stanzas != [] {
      assert stanzas[0] in stanzas;
      UnkeyedNone(stanzas[1..], name);
    }
  }

  /** A port takes its parts from its own stanza, wherever that stands. */
  lemma ReadPort(a: seq<Stanza>, s: Stanza, b: seq<Stanza>)
    requires forall t | t in a || t in b :: t.key != s.key
    ensures PutPort(a + [s] + b, s.key)
         == PortElement(
              Some(s.key), [PutType(s.nodes)], PutMacs(s.nodes), PutMtus(s.nodes), PutBonds(s.nodes), PutVlans(s))
  {
    KeyedConcat(a + [s], b, s.key);
    KeyedConcat(a, [s], s.key);
    UnkeyedNone(a, s.key);
    UnkeyedNone(b, s.key);
    assert [s][1..] == [] && Keyed([s], s.key) == [s];
    PutPortAlone(a + [s] + b, s.key, s);
  }

  // ---- the interface ----

  /** The first stanza makes the interface; without one there is none. */
  lemma ReadInterface(f: Stanzas)
    ensures f.iface == [] ==> Put(f) == RedHat.Ok(None)
    ensures f.iface != [] && PutProtocols(f.iface[0], f.iface).Ok? ==>
      var s := f.iface[0];
      Put(f).Ok? && Put(f).value.Some? && Put(f).value.value.name == Some(s.key)
      && Put(f).value.value.iftype == PutType(s.nodes) && Put(f).value.value.start == PutStart(f, s.key)
      && Put(f).value.value.protocols == PutProtocols(s, f.iface).value
  {
  }

  lemma ReadParts(f: Stanzas)
    requires f.iface != [] && PutProtocols(f.iface[0], f.iface).Ok?
    ensures var s, e := f.iface[0], Put(f).value.value;
      e.macs == PutMacs(s.nodes) && e.mtus == PutMtus(s.nodes) && e.bonds == PutBonds(s.nodes)
      && e.vlans == PutVlans(s) && e.bridges == PutBridges(s.nodes, f.iface)
  {
  }
}
