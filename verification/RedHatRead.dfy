// What redhat-put.xsl makes of any tree, compiled or written by hand, in terms of its labels.
module RedHatRead {
  import opened Text
  import opened Document
  import opened RedHat
  import opened IpCalc
  import BondOpts
  import RedHatCompiled

  // ---- IPv4 ----

  /** dhcp wins over addresses, and takes PEERDNS with it. */
  lemma ReadDhcp(n: IPv4Labels)
    requires n.BOOTPROTO == Some("dhcp")
    ensures PutIPv4(n) == Ok(Some(Dhcp4(n.PEERDNS)))
  {
  }

  /** Without dhcp it is IPADDR that makes an IPv4 protocol. */
  lemma ReadNoAddress(n: IPv4Labels)
    requires n.BOOTPROTO != Some("dhcp") && n.IPADDR.None?
    ensures PutIPv4(n) == Ok(None)
  {
  }

  /** PREFIX comes before NETMASK, and is taken as it stands. */
  lemma ReadPrefix(n: IPv4Labels, address: string, prefix: string)
    requires n.BOOTPROTO != Some("dhcp") && n.IPADDR == Some(address) && n.PREFIX == Some(prefix)
    ensures PutIPv4(n) == Ok(Some(Static4(address, Some(prefix), n.GATEWAY)))
  {
  }

  /** Without PREFIX the prefix is the length of the mask. */
  lemma ReadNetmask(n: IPv4Labels, address: string, netmask: string)
    requires n.BOOTPROTO != Some("dhcp") && n.IPADDR == Some(address) && n.PREFIX.None?
    requires n.NETMASK == Some(netmask) && netmask != ""
    ensures ParseQuad(netmask).Some? ==>
      PutIPv4(n) == Ok(Some(Static4(address, Some(Decimal(PrefixLength(ParseQuad(netmask).value))), n.GATEWAY)))
    ensures ParseQuad(netmask).None? ==> PutIPv4(n) == Err(NetmaskUndefined)
  {
  }

  /** An empty NETMASK gives an empty prefix, no NETMASK gives none. */
  lemma ReadNoNetmask(n: IPv4Labels, address: string)
    requires n.BOOTPROTO != Some("dhcp") && n.IPADDR == Some(address) && n.PREFIX.None?
    ensures n.NETMASK == Some("") ==> PutIPv4(n) == Ok(Some(Static4(address, Some(""), n.GATEWAY)))
    ensures n.NETMASK == None ==> PutIPv4(n) == Ok(Some(Static4(address, None, n.GATEWAY)))
  {
  }

  /** The texts that parse as masks are the dotted quads, each as the mask it was made of. */
  lemma ReadQuad(netmask: string, m: Mask)
    ensures ParseQuad(netmask) == Some(m) <==> netmask == Quad(m)
  {
    ParseQuadOfQuad(m);
    if ParseQuad(netmask) == Some(m) {
      var parts := Split(netmask, '.');
      JoinSplit(netmask, '.');
      var a, b, c, e := Number(parts[0]), Number(parts[1]), Number(parts[2]), Number(parts[3]);
      RedHatCompiled.FourBytes(m, a, b, c, e);
      RedHatCompiled.FourDecimals(a, b, c, e);
      assert parts == [parts[0], parts[1], parts[2], parts[3]];
    }
  }

  // ---- IPv6 ----

  /** "address/prefix"; without the slash, or with nothing behind it, there is no prefix. */
  lemma ReadAddress(address: string, prefix: string)
    requires '/' !in address
    ensures PutAddress(address + ['/'] + prefix) == IPv6Address(address, if prefix == "" then None else Some(prefix))
    ensures PutAddress(address) == IPv6Address("", None)
  {
    BeforeAfter(address, '/', prefix);
    var i := IndexOf(address, '/');
    assert i == |address|;
  }

  lemma ReadIPv6(n: IPv6Labels)
    ensures PutIPv6(n).Some? <==> n.IPV6INIT == Some("yes")
    ensures PutIPv6(n).Some? ==>
      var p := PutIPv6(n).value;
      (p.autoconf <==> n.IPV6_AUTOCONF == Some("yes"))
      && p.dhcp == (if n.DHCPV6 == Some("yes") then Some(Dhcp6(None)) else None)
      && p.gateway == (if n.IPV6ADDR.Some? then n.IPV6_DEFAULTGW else None)
      && (n.IPV6ADDR.Some? ==> p.ips != [] && p.ips[0] == PutAddress(n.IPV6ADDR.value))
      && (n.IPV6ADDR.Some? ==> p.ips[1..] == PutSecondaries(n))
      && (n.IPV6ADDR.None? ==> p.ips == PutSecondaries(n))
  {
    if n.IPV6ADDR.None? {
      NoneBeside(PutSecondaries(n));
    }
  }

  /** The further addresses are the blank-separated pieces of the list, with or without quotes around it. */
  lemma ReadSecondaries(n: IPv6Labels, list: string)
    ensures n.IPV6ADDR_SECONDARIES == None ==> PutSecondaries(n) == []
    ensures n.IPV6ADDR_SECONDARIES == Some("'" + list + "'") ==> PutSecondaries(n) == PutAddresses(Tokens(list, ' '))
    ensures n.IPV6ADDR_SECONDARIES == Some(list) && !("'" <= list) ==>
      PutSecondaries(n) == PutAddresses(Tokens(list, ' '))
  {
    var quoted := "'" + list + "'";
    assert quoted[0] == '\'' && quoted[1..|quoted| - 1] == list;
    assert list != "" && list[0] == '\'' ==> "'" <= list;
  }

  /** Each piece is one address, in order. */
  lemma ReadEach(texts: seq<string>, i: nat)
    requires i < |texts|
    ensures |PutAddresses(texts)| == |texts| && PutAddresses(texts)[i] == PutAddress(texts[i])
  {
  }

  // ---- trees ----

  /** Whether a tree of the forest is enslaved to the device. */
  ghost predicate HasSlave(f: Forest, device: string) {
    exists t | t in f :: t.nodes.MASTER == Some(device)
  }

  lemma {:induction false} SelectedAre(f: Forest, link: Link, device: string, t: Tree)
    ensures t in Select(f, link, Some(device))
       <==> t in f && (if link.ToBridge? then t.nodes.BRIDGE else t.nodes.MASTER) == Some(device)
    ensures Select(f, link, None) == []
  {
    if f != [] {
      SelectedAre(f[1..], link, device, t);
    }
  }

  /** Trees keep their order when they are selected. */
  lemma {:induction false} SelectInOrder(a: Forest, b: Forest, link: Link, device: Option<string>)
    ensures Select(a + b, link, device) == Select(a, link, device) + Select(b, link, device)
  {
    if a == [] {
      NoneBeside(Select(b, link, device));
      assert a + b == b;
    } else {
      assert (a + b)[0] == a[0] && (a + b)[1..] == a[1..] + b;
      SelectInOrder(a[1..], b, link, device);
      Assoc(if device.Some? && Target(a[0].nodes, link) == device then [a[0]] else [],
            Select(a[1..], link, device), Select(b, link, device));
    }
  }

  lemma BondMatches(f: Forest, n: Nodes)
    ensures BondMatch(f, n) <==> n.BRIDGE.None? && n.DEVICE.Some? && HasSlave(f, n.DEVICE.value)
  {
    if n.DEVICE.Some? {
      var slaves := Select(f, ToMaster, n.DEVICE);
      if slaves != [] {
        SelectedAre(f, ToMaster, n.DEVICE.value, slaves[0]);
      }
      if HasSlave(f, n.DEVICE.value) {
        var t :| t in f && t.nodes.MASTER == n.DEVICE;
        SelectedAre(f, ToMaster, n.DEVICE.value, t);
      }
    }
  }

  /**
   * What a tree becomes: a bond if another tree is enslaved to it, else a bridge by its TYPE, else a VLAN,
   * else an ethernet interface; a tree that is enslaved itself becomes nothing of the last two.
   */
  lemma ReadKind(f: Forest, n: Nodes)
    ensures var bond, enslaved := n.BRIDGE.None? && n.DEVICE.Some? && HasSlave(f, n.DEVICE.value),
        n.MASTER.Some? || n.BRIDGE.Some?;
      var kind, name := PutKind(f, n), Value(n.DEVICE);
      (bond ==> kind == Some(BondKind(name, PutBond(f, n))))
      && (!bond && n.TYPE == Some("Bridge") ==>
        kind == Some(BridgeKind(name, n.STP, n.DELAY, PutPorts(f, Select(f, ToBridge, n.DEVICE)))))
      && (!bond && n.TYPE != Some("Bridge") && n.VLAN == Some("yes") && !enslaved ==>
        kind == Some(VlanKind(Vlan(Some(name), Before(name, '.'), After(name, '.')))))
      && (!bond && n.TYPE != Some("Bridge") && n.VLAN == None && !enslaved ==>
        kind == Some(EthernetKind(Ethernet(name, n.HWADDR))))
      && (!bond && n.TYPE != Some("Bridge") && (enslaved || (n.VLAN.Some? && n.VLAN != Some("yes"))) ==> kind == None)
  {
    BondMatches(f, n);
  }

  /** What every interface that is read takes from its tree. */
  lemma ReadCommon(f: Forest, n: Nodes)
    ensures PutTree(f, n).Ok? ==> |PutTree(f, n).value| == if PutKind(f, n).Some? then 1 else 0
    ensures PutTree(f, n).Ok? && PutKind(f, n).Some? ==>
      var i := PutTree(f, n).value[0];
      i.kind == PutKind(f, n).value && i.mtu == n.MTU
      && i.start == (if n.HOTPLUG == Some("yes") then HotPlug else if n.ONBOOT == Some("yes") then OnBoot else NoStart)
      && PutIPv4(n.v4) == Ok(i.addressing.ipv4) && i.addressing.ipv6 == PutIPv6(n.v6) && !i.addressing.v6First
    ensures PutTree(f, n).Err? <==> PutKind(f, n).Some? && PutIPv4(n.v4).Err?
  {
  }

  /** The interfaces come in the order of the trees; one fault spoils all. */
  lemma {:induction false} ReadInOrder(f: Forest, a: Forest, b: Forest)
    ensures PutTrees(f, a).Ok? && PutTrees(f, b).Ok? ==>
      PutTrees(f, a + b) == Ok(PutTrees(f, a).value + PutTrees(f, b).value)
    ensures PutTrees(f, a).Err? || PutTrees(f, b).Err? ==> PutTrees(f, a + b).Err?
    ensures forall t | a == [t] :: PutTrees(f, a) == PutTree(f, t.nodes)
  {
    if a == [] {
      assert a + b == b;
      if PutTrees(f, b).Ok? {
        NoneBeside(PutTrees(f, b).value);
      }
    } else {
      assert (a + b)[0] == a[0] && (a + b)[1..] == a[1..] + b;
      ReadInOrder(f, a[1..], b);
      if PutTree(f, a[0].nodes).Ok? {
        NoneBeside(PutTree(f, a[0].nodes).value);
        if PutTrees(f, a[1..]).Ok? && PutTrees(f, b).Ok? {
          Assoc(PutTree(f, a[0].nodes).value, PutTrees(f, a[1..]).value, PutTrees(f, b).value);
        }
      }
    }
  }

  // ---- ports and slaves ----

  /** A tree enslaved to a bridge: a bond if it has BONDING_OPTS, a VLAN if it has VLAN, else ethernet. */
  lemma ReadPort(f: Forest, n: Nodes)
    ensures var name := Value(n.DEVICE);
      PutPort(f, n)
      == (if n.VLAN.None? && n.BONDING_OPTS.None? then [EthernetPort(Ethernet(name, n.HWADDR))] else [])
       + ((if n.BONDING_OPTS.Some? then [BondPort(name, PutBond(f, n))] else [])
       + (if n.VLAN.Some? then [VlanPort(Vlan(Some(name), Before(name, '.'), After(name, '.')))] else []))
  {
    var ethernet := if n.VLAN.None? && n.BONDING_OPTS.None? then [EthernetPort(PutEthernet(n))] else [];
    Assoc(ethernet, if n.BONDING_OPTS.Some? then [BondPort(Value(n.DEVICE), PutBond(f, n))] else [],
          if n.VLAN.Some? then [VlanPort(PutVlan(n))] else []);
  }

  lemma {:induction false} ReadPortsInOrder(f: Forest, a: Forest, b: Forest)
    ensures PutPorts(f, a + b) == PutPorts(f, a) + PutPorts(f, b)
    ensures forall t | a == [t] :: PutPorts(f, a) == PutPort(f, t.nodes)
  {
    if a == [] {
      NoneBeside(PutPorts(f, b));
      assert a + b == b;
    } else {
      assert (a + b)[0] == a[0] && (a + b)[1..] == a[1..] + b;
      ReadPortsInOrder(f, a[1..], b);
      Assoc(PutPort(f, a[0].nodes), PutPorts(f, a[1..]), PutPorts(f, b));
      NoneBeside(PutPort(f, a[0].nodes));
    }
  }

  /** The slaves named like the primary come first, then the others, each group in the order of the trees. */
  lemma ReadBond(f: Forest, n: Nodes)
    ensures var opts, enslaved := Value(n.BONDING_OPTS), Select(f, ToMaster, n.DEVICE);
      var primary := BondOpts.BondOption(opts, "primary");
      PutBond(f, n) == BondOpts.Parse(opts, Slaves(enslaved, primary, true) + Slaves(enslaved, primary, false))
  {
  }

  lemma {:induction false} ReadSlavesInOrder(a: Forest, b: Forest, primary: string, want: bool)
    ensures Slaves(a + b, primary, want) == Slaves(a, primary, want) + Slaves(b, primary, want)
  {
    if a == [] {
      NoneBeside(Slaves(b, primary, want));
      assert a + b == b;
    } else {
      assert (a + b)[0] == a[0] && (a + b)[1..] == a[1..] + b;
      ReadSlavesInOrder(a[1..], b, primary, want);
      var n := a[0].nodes;
      Assoc(if n.DEVICE.Some? && (n.DEVICE.value == primary) == want then [PutEthernet(n)] else [],
            Slaves(a[1..], primary, want), Slaves(b, primary, want));
    }
  }

  lemma ReadSlave(t: Tree, primary: string, want: bool)
    ensures Slaves([t], primary, want)
         == match t.nodes.DEVICE
            case None => []
            case Some(name) => if want == (name == primary) then [Ethernet(name, t.nodes.HWADDR)] else []
  {
    assert [t][1..] == [];
  }
}
