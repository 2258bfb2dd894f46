// The Debian round trip: put after get, and exactly when that is the document.
module DebianRoundTrip {
  import opened Text
  import opened Document
  import RedHat
  import opened Debian
  import opened DebianImage
  import opened DebianAddressing
  import RedHatAddressing

  // ---- the first stanza ----

  function Ether(d: Interface): Option<string> {
    if Mac(d.kind).Some? then Some("ether " + Mac(d.kind).value) else None
  }

  /** Beside its protocol the stanza holds what Rest writes. */
  ghost predicate OfRest(nodes: seq<Node>, d: Interface) {
    OwnNodes(nodes, KindNodes(d.kind))
    && Values(nodes, HWADDRESS) == OptSeq(Ether(d)) && Values(nodes, MTU) == OptSeq(d.mtu)
  }

  lemma MiscValues(d: Interface, name: Label)
    ensures Values(Written(MiscEntries(d)), name)
         == if name == HWADDRESS then OptSeq(Ether(d)) else if name == MTU then OptSeq(d.mtu) else []
    ensures Within(Written(MiscEntries(d)), {Misc})
  {
    var e := MiscEntries(d);
    WrittenValues(e, name);
    assert e[1..] == [e[1]] && [e[1]][1..] == [];
    assert Pick(e[1..], name) == PickOne(e[1], name) + [];
    WrittenWithin(e, {Misc});
  }

  lemma RestBeside(d: Interface, vlans: bool)
    ensures Besides(Rest(d, vlans))
    ensures forall v | v in Values(Rest(d, vlans), PRE_UP) :: "ifup " <= v
  {
    var misc, own, hooks := Written(MiscEntries(d)), KindNodes(d.kind), Hooks(Ports(d.kind), vlans);
    MiscValues(d, PRE_UP);
    KindWithin(d.kind);
    HooksWithin(Ports(d.kind), vlans);
    ValuesThree(misc, own, hooks, PRE_UP);
    ValuesAbsent(own, PRE_UP);
  }

  lemma RestValues(d: Interface, vlans: bool, name: Label)
    requires PartOf(name) in {Misc, Own}
    ensures Values(Rest(d, vlans), name) == Values(Written(MiscEntries(d)), name) + Values(KindNodes(d.kind), name)
  {
    var misc, own, hooks := Written(MiscEntries(d)), KindNodes(d.kind), Hooks(Ports(d.kind), vlans);
    HooksWithin(Ports(d.kind), vlans);
    ValuesThree(misc, own, hooks, name);
    ValuesAbsent(hooks, name);
  }

  lemma FirstRest(first: seq<Node>, d: Interface, vlans: bool, name: Label)
    requires Within(first, {Proto, Hook}) && PartOf(name) in {Misc, Own}
    ensures Values(first + Rest(d, vlans), name)
         == Values(Written(MiscEntries(d)), name) + Values(KindNodes(d.kind), name)
  {
    Elsewhere(Rest(d, vlans), first, {Proto, Hook}, name);
    RestValues(d, vlans, name);
  }

  lemma FirstOwn(first: seq<Node>, d: Interface, vlans: bool, name: Label)
    requires Within(first, {Proto, Hook}) && PartOf(name) == Own
    ensures Values(first + Rest(d, vlans), name) == Values(KindNodes(d.kind), name)
  {
    FirstRest(first, d, vlans, name);
    MiscValues(d, name);
  }

  lemma FirstMisc(first: seq<Node>, d: Interface, vlans: bool, name: Label)
    requires Within(first, {Proto, Hook}) && PartOf(name) == Misc
    ensures Values(first + Rest(d, vlans), name) == Values(Written(MiscEntries(d)), name)
  {
    FirstRest(first, d, vlans, name);
    KindWithin(d.kind);
    ValuesAbsent(KindNodes(d.kind), name);
  }

  lemma RestHolds(first: seq<Node>, d: Interface, vlans: bool)
    requires Within(first, {Proto, Hook})
    ensures OfRest(first + Rest(d, vlans), d)
  {
    var nodes := first + Rest(d, vlans);
    forall name | PartOf(name) == Own
      ensures Values(nodes, name) == Values(KindNodes(d.kind), name)
    {
      FirstOwn(first, d, vlans, name);
    }
    FirstMisc(first, d, vlans, HWADDRESS);
    FirstMisc(first, d, vlans, MTU);
    MiscValues(d, HWADDRESS);
    MiscValues(d, MTU);
  }

  lemma MiscBack(nodes: seq<Node>, d: Interface)
    requires OfRest(nodes, d)
    ensures PutMacs(nodes) == OptSeq(Mac(d.kind)) && PutMtus(nodes) == OptSeq(d.mtu)
  {
    Picked(nodes, HWADDRESS, Ether(d));
    Picked(nodes, MTU, d.mtu);
    if Mac(d.kind).Some? {
      var text := "ether " + Mac(d.kind).value;
      assert IsEther(text) && text[6..] == Mac(d.kind).value;
    }
  }

  lemma NoBridges(nodes: seq<Node>, stanzas: seq<Stanza>)
    requires !Has(nodes, BRIDGE_PORTS)
    ensures PutBridges(nodes, stanzas) == []
  {
  }

  lemma NoneList(names: seq<string>)
    requires forall n | n in names :: DeviceName(n)
    ensures NameList(names) == "none" <==> names == [] || names == ["none"]
  {
    if names != [] && NameList(names) == "none" {
      NamesBack(names);
      assert ["none"] == Tokens(NameList(["none"]), ' ') by {
        assert DeviceName("none");
        NamesBack(["none"]);
      }
    }
  }

  lemma BridgeRead(nodes: seq<Node>, stanzas: seq<Stanza>, stp: Option<string>, delay: Option<string>, text: string)
    requires Values(nodes, BRIDGE_PORTS) == [text]
    requires Optional(nodes, BRIDGE_STP) == stp && Optional(nodes, BRIDGE_FD) == delay
    ensures PutBridges(nodes, stanzas)
         == [BridgeElement(stp, delay, if text == "none" then [] else PutPorts(stanzas, Tokens(text, ' ')))]
    ensures PutType(nodes) == BridgeType
  {
    assert text in Values(nodes, BRIDGE_PORTS);
  }

  lemma PortNamesValid(ports: seq<Port>)
    requires PortsNamed(ports) && forall p | p in ports :: ValidPort(p)
    ensures forall n | n in PortAttrs(ports) :: DeviceName(n)
  {
    var names := PortAttrs(ports);
    forall n | n in names
      ensures DeviceName(n)
    {
      var i :| 0 <= i < |names| && names[i] == n;
      assert ports[i] in ports;
    }
  }

  lemma ListedPorts(heads: seq<Stanza>, k: Kind)
    requires k.BridgeKind? && ValidKind(k) && DistinctNames(k) && PortsNamed(k.ports) && AllKeyed(heads, NameAttr(k))
    ensures var text := NameList(PortAttrs(k.ports));
      (if text == "none" then [] else PutPorts(heads + PortStanzas(k.ports), Tokens(text, ' '))) == ImagePorts(k.ports)
  {
    PortNamesValid(k.ports);
    NoneList(PortAttrs(k.ports));
    if k.ports != [] {
      PortsBack(heads, k);
    }
  }

  lemma BridgeBack(nodes: seq<Node>, heads: seq<Stanza>, k: Kind)
    requires k.BridgeKind? && ValidKind(k) && DistinctNames(k) && PortsNamed(k.ports) && AllKeyed(heads, NameAttr(k))
    requires OwnNodes(nodes, KindNodes(k))
    ensures PutBridges(nodes, heads + PortStanzas(k.ports)) == [BridgeElement(k.stp, k.delay, ImagePorts(k.ports))]
    ensures PutType(nodes) == BridgeType && !Has(nodes, BOND_SLAVES) && !Has(nodes, VLAN_RAW_DEVICE)
  {
    BridgeOwned(nodes, NameList(PortAttrs(k.ports)), k.stp, k.delay);
    BridgeOnly(nodes, NameList(PortAttrs(k.ports)), k.stp, k.delay);
    ListedPorts(heads, k);
    BridgeRead(nodes, heads + PortStanzas(k.ports), k.stp, k.delay, NameList(PortAttrs(k.ports)));
  }

  /** The parts of the interface that its kind decides. */
  ghost predicate KindRead(s: Stanza, stanzas: seq<Stanza>, e: Element) {
    PutType(s.nodes) == e.iftype && PutBridges(s.nodes, stanzas) == e.bridges
    && PutBonds(s.nodes) == e.bonds && PutVlans(s) == e.vlans
  }

  lemma KindBack(s: Stanza, heads: seq<Stanza>, d: Interface)
    requires ValidKind(d.kind) && DistinctNames(d.kind) && PortsNamed(Ports(d.kind))
    requires Compiled(d.addressing) && AllKeyed(heads, NameAttr(d.kind))
    requires s.key == NameAttr(d.kind) && OwnNodes(s.nodes, KindNodes(d.kind))
    ensures KindRead(s, heads + PortStanzas(Ports(d.kind)), Image(d))
  {
    var stanzas := heads + PortStanzas(Ports(d.kind));
    match d.kind {
      case EthernetKind(_) =>
        EthernetOwned(s.nodes);
        NoBridges(s.nodes, stanzas);
      case VlanKind(v) =>
        VlanOwned(s.nodes, s.key, v);
        NoBridges(s.nodes, stanzas);
      case BridgeKind(_, _, _, _) =>
        BridgeBack(s.nodes, heads, d.kind);
      case BondKind(_, bond) =>
        BondOwned(s.nodes, bond);
        ValidReadable(bond);
        BondBack(s.nodes, bond);
        BondTyped(s.nodes, bond);
        NoBridges(s.nodes, stanzas);
    }
  }

  // ---- the round trip ----

  lemma HeadsOk(d: Interface)
    ensures Heads(d).Ok? <==> Compiled(d.addressing)
  {
  }

  lemma FirstHolds(d: Interface, s: Stanza, second: seq<Stanza>)
    requires ValidAddressing(d.addressing) && Compiled(d.addressing)
    requires var name, protocols := NameAttr(d.kind), Protocols(d.addressing);
      FirstNodes(name, protocols).Ok? && SecondStanza(name, protocols) == RedHat.Ok(second)
      && s == Stanza(name, FirstNodes(name, protocols).value + Rest(d, protocols != []))
    ensures OfRest(s.nodes, d)
    ensures PutProtocols(s, [s] + second + PortStanzas(Ports(d.kind))) == RedHat.Ok(Image(d).protocols)
  {
    var name, protocols := NameAttr(d.kind), Protocols(d.addressing);
    RestBeside(d, protocols != []);
    PortFamilies(Ports(d.kind));
    ProtocolsRead(d.addressing, name, Rest(d, protocols != []), PortStanzas(Ports(d.kind)));
    FirstWithin(name, protocols);
    RestHolds(FirstNodes(name, protocols).value, d, protocols != []);
    ImageMisc(d);
  }

  function Auto(d: Interface): seq<string> {
    if d.start.OnBoot? then [NameAttr(d.kind)] else []
  }

  lemma GetForm(d: Interface) returns (s: Stanza, second: seq<Stanza>)
    requires ValidAddressing(d.addressing) && Compiled(d.addressing)
    ensures Get(d) == RedHat.Ok(Stanzas(Auto(d), [s] + second + PortStanzas(Ports(d.kind))))
    ensures s.key == NameAttr(d.kind) && AllKeyed([s] + second, NameAttr(d.kind)) && OfRest(s.nodes, d)
    ensures PutProtocols(s, [s] + second + PortStanzas(Ports(d.kind))) == RedHat.Ok(Image(d).protocols)
  {
    var name, protocols := NameAttr(d.kind), Protocols(d.addressing);
    HeadsOk(d);
    s := Stanza(name, FirstNodes(name, protocols).value + Rest(d, protocols != []));
    second := SecondStanza(name, protocols).value;
    FirstHolds(d, s, second);
  }

  lemma PutForm(d: Interface, s: Stanza, heads: seq<Stanza>, f: Stanzas)
    requires ValidKind(d.kind) && DistinctNames(d.kind) && PortsNamed(Ports(d.kind)) && Compiled(d.addressing)
    requires heads != [] && heads[0] == s && AllKeyed(heads, NameAttr(d.kind)) && OfRest(s.nodes, d)
    requires f == Stanzas(Auto(d), heads + PortStanzas(Ports(d.kind)))
    requires PutProtocols(s, f.iface) == RedHat.Ok(Image(d).protocols)
    ensures Put(f) == RedHat.Ok(Some(Image(d)))
  {
    KindBack(s, heads, d);
    MiscBack(s.nodes, d);
    ImageMisc(d);
    PutRead(f, s, Image(d));
  }

  /** The stanzas of a document are read back as its image. */
  lemma PutGet(d: Interface)
    requires ValidInterface(d) && DistinctNames(d.kind) && PortsNamed(Ports(d.kind)) && Get(d).Ok?
    ensures Compiled(d.addressing) && Put(Get(d).value) == RedHat.Ok(Some(Image(d)))
  {
    HeadsOk(d);
    var s, second := GetForm(d);
    PutForm(d, s, [s] + second, Get(d).value);
  }

  lemma PutRead(f: Stanzas, s: Stanza, e: Element)
    requires f.iface != [] && f.iface[0] == s && KindRead(s, f.iface, e)
    requires PutProtocols(s, f.iface) == RedHat.Ok(e.protocols)
    requires e.name == Some(s.key) && e.start == PutStart(f, s.key)
    requires e.macs == PutMacs(s.nodes) && e.mtus == PutMtus(s.nodes)
    ensures Put(f) == RedHat.Ok(Some(e))
  {
  }

  lemma ImageMisc(d: Interface)
    requires Compiled(d.addressing)
    ensures var e := Image(d);
      e.name == Some(NameAttr(d.kind)) && e.start == (if d.start.OnBoot? then OnBoot else NoStart)
      && e.macs == OptSeq(Mac(d.kind)) && e.mtus == OptSeq(d.mtu)
      && e.protocols == ImageProtocols(Protocols(d.addressing))
  {
  }

  // ---- exactly when the document comes back ----

  /** The name ends in the tag, one character after as many as the base has. */
  predicate VlanSurvives(v: Vlan) {
    v.name.Some? && |v.name.value| > |v.base| && v.name.value[|v.base| + 1..] == v.tag
  }

  predicate BondSurvives(b: Bond) {
    (forall e | e in b.slaves :: e.mac.None?) && (b.miimon.Some? ==> b.miimon.value.carrier != Some("netif"))
  }

  predicate PortSurvives(p: Port) {
    match p
    case EthernetPort(e) => e.mac.None?
    case VlanPort(v) => VlanSurvives(v)
    case BondPort(_, bond) => BondSurvives(bond)
  }

  predicate AllSurvive(ports: seq<Port>) {
    forall p | p in ports :: PortSurvives(p)
  }

  predicate KindSurvives(k: Kind) {
    match k
    case EthernetKind(_) => true
    case VlanKind(v) => VlanSurvives(v)
    case BridgeKind(_, _, _, ports) => PortAttrs(ports) != ["none"] && AllSurvive(ports)
    case BondKind(_, bond) => BondSurvives(bond)
  }

  predicate IPv4Survives(p: IPv4) {
    match p
    case Dhcp4(peerdns) => peerdns.None?
    case Static4(_, prefix, _) => RedHatAddressing.PrefixSurvives(prefix)
  }

  predicate IPv6Survives(p: IPv6) {
    (p.dhcp.Some? ==> p.dhcp.value.peerdns.None? && p.ips == [])
    && (forall ip | ip in p.ips :: ip.prefix.Some?)
    && (p.gateway.Some? ==> p.ips != [])
  }

  predicate AddressingSurvives(a: Addressing) {
    (a.ipv4.Some? ==> IPv4Survives(a.ipv4.value)) && (a.ipv6.Some? ==> IPv6Survives(a.ipv6.value))
    && !(a.ipv4.Some? && a.ipv6.Some? && a.v6First)
  }

  predicate RoundTrips(d: Interface) {
    !d.start.HotPlug? && KindSurvives(d.kind) && AddressingSurvives(d.addressing)
  }

  lemma BareFixed(slaves: seq<Ethernet>)
    ensures Bare(SlaveNames(slaves)) == slaves <==> forall e | e in slaves :: e.mac.None?
  {
    var bare := Bare(SlaveNames(slaves));
    if bare == slaves {
      forall e | e in slaves
        ensures e.mac.None?
      {
        var i :| 0 <= i < |slaves| && slaves[i] == e;
        assert bare[i].mac.None?;
      }
    }
    if forall e | e in slaves :: e.mac.None? {
      forall i | 0 <= i < |slaves|
        ensures bare[i] == slaves[i]
      {
        assert slaves[i] in slaves;
      }
    }
  }

  lemma MiimonFixed(m: Miimon)
    requires ValidMiimon(m)
    ensures ImageMiimon(m) == m <==> m.carrier != Some("netif")
  {
  }

  lemma BondFixed(b: Bond)
    requires b.miimon.Some? ==> ValidMiimon(b.miimon.value)
    ensures ImageBond(b) == AsBond(b) <==> BondSurvives(b)
  {
    BareFixed(b.slaves);
    if b.miimon.Some? {
      MiimonFixed(b.miimon.value);
    }
  }

  lemma OneEqual<T>(a: T, b: T)
    ensures [a] == [b] <==> a == b
  {
    assert [a][0] == a && [b][0] == b;
  }

  lemma VlanFixed(v: Vlan)
    requires Digits(v.tag)
    ensures VlanSurvives(v)
       <==> v.name == Some(Value(v.name)) && ImageVlan(Value(v.name), v) == VlanElement(v.tag, v.base)
  {
  }

  lemma PortFixed(p: Port)
    requires (p.VlanPort? ==> Digits(p.vlan.tag))
    requires p.BondPort? ==> p.bond.miimon.Some? ==> ValidMiimon(p.bond.miimon.value)
    ensures ImagePort(p) == AsPort(p) <==> PortSurvives(p)
  {
    match p {
      case EthernetPort(e) =>
        assert OptSeq(e.mac) == [] <==> e.mac.None?;
      case VlanPort(v) =>
        VlanFixed(v);
        OneEqual(ImageVlan(PortAttr(p), v), VlanElement(v.tag, v.base));
      case BondPort(_, bond) =>
        BondFixed(bond);
        OneEqual(ImageBond(bond), AsBond(bond));
    }
  }

  lemma PortsFixed(ports: seq<Port>)
    requires forall p | p in ports :: ValidPort(p)
    ensures ImagePorts(ports) == AsPorts(ports) <==> PortAttrs(ports) != ["none"] && AllSurvive(ports)
  {
    assert |AsPorts(ports)| == |ports| == |PortAttrs(ports)|;
    forall i | 0 <= i < |ports|
      ensures ImagePort(ports[i]) == AsPort(ports[i]) <==> PortSurvives(ports[i])
    {
      assert ports[i] in ports;
      PortFixed(ports[i]);
    }
    if PortAttrs(ports) != ["none"] {
      var image, doc := ImagePorts(ports), AsPorts(ports);
      assert forall i | 0 <= i < |ports| :: image[i] == ImagePort(ports[i]) && doc[i] == AsPort(ports[i]);
      assert image == doc <==> forall i | 0 <= i < |ports| :: image[i] == doc[i];
      assert forall p | p in ports :: exists i :: 0 <= i < |ports| && ports[i] == p;
    }
  }

  lemma KindFixed(d: Interface)
    requires ValidKind(d.kind) && Compiled(d.addressing)
    ensures var e, f := Image(d), AsElement(d);
      e.name == f.name && e.bridges == f.bridges && e.bonds == f.bonds && e.vlans == f.vlans <==> KindSurvives(d.kind)
  {
    match d.kind {
      case EthernetKind(_) =>
      case VlanKind(v) =>
        VlanFixed(v);
        OneEqual(ImageVlan(NameAttr(d.kind), v), VlanElement(v.tag, v.base));
      case BridgeKind(_, stp, delay, ports) =>
        PortsFixed(ports);
        OneEqual(BridgeElement(stp, delay, ImagePorts(ports)), BridgeElement(stp, delay, AsPorts(ports)));
      case BondKind(_, bond) =>
        BondFixed(bond);
        OneEqual(ImageBond(bond), AsBond(bond));
    }
  }

  lemma {:induction false} AddressesFixed(ips: seq<IPv6Address>)
    ensures |ImageAddresses(ips)| == |ips|
    ensures ImageAddresses(ips) == ips <==> forall ip | ip in ips :: ip.prefix.Some?
  {
    if ips != [] {
      AddressesFixed(ips[1..]);
      var image := ImageAddresses(ips);
      assert image[0] == ImageAddress(ips[0]) && image[1..] == ImageAddresses(ips[1..]);
      assert image == ips <==> image[0] == ips[0] && image[1..] == ips[1..] by {
        assert image == [image[0]] + image[1..] && ips == [ips[0]] + ips[1..];
      }
      assert ips[0] in ips;
      assert forall ip | ip in ips :: ip == ips[0] || ip in ips[1..];
    }
  }

  lemma ProtocolFixed(p: Protocol)
    requires p.P4? ==> IPv4Nodes(p.ipv4).Ok?
    ensures ImageProtocol(p) == AsProtocol(p) <==> if p.P4? then IPv4Survives(p.ipv4) else IPv6Survives(p.ipv6)
  {
    match p {
      case P4(Dhcp4(_)) =>
      case P4(Static4(address, prefix, gateway)) =>
        OneEqual(IPv6Address(address, RedHatAddressing.ImagePrefix4(prefix)), IPv6Address(address, prefix));
      case P6(ipv6) => AddressesFixed(ipv6.ips);
    }
  }

  lemma MaskSurvives(p: IPv4)
    requires IPv4Survives(p)
    ensures IPv4Nodes(p).Ok?
  {
  }

  lemma OneProtocol(p: Protocol)
    requires p.P4? ==> IPv4Nodes(p.ipv4).Ok?
    ensures ImageProtocols([p]) == AsProtocols([p]) <==> ImageProtocol(p) == AsProtocol(p)
  {
    assert AsProtocols([p]) == [AsProtocol(p)];
    OneEqual(ImageProtocol(p), AsProtocol(p));
  }

  lemma TwoProtocols(p: Protocol, q: Protocol)
    requires (p.P4? ==> IPv4Nodes(p.ipv4).Ok?) && (q.P4? ==> IPv4Nodes(q.ipv4).Ok?)
    ensures ImageProtocols([p, q]) == AsProtocols([p, q])
       <==> q.P6? && ImageProtocol(p) == AsProtocol(p) && ImageProtocol(q) == AsProtocol(q)
  {
    var image, doc := ImageProtocols([p, q]), AsProtocols([p, q]);
    assert doc == [AsProtocol(p), AsProtocol(q)] && |doc| == 2;
    if q.P6? {
      assert image == [ImageProtocol(p), ImageProtocol(q)];
      assert image[0] == ImageProtocol(p) && image[1] == ImageProtocol(q);
      assert doc[0] == AsProtocol(p) && doc[1] == AsProtocol(q);
    } else {
      assert |image| == 1;
    }
  }

  lemma AddressingFixed(a: Addressing)
    requires Compiled(a)
    ensures ImageProtocols(Protocols(a)) == AsProtocols(Protocols(a)) <==> AddressingSurvives(a)
  {
    if a.ipv4.Some? {
      ProtocolFixed(P4(a.ipv4.value));
    }
    if a.ipv6.Some? {
      ProtocolFixed(P6(a.ipv6.value));
    }
    if a.ipv4.Some? && a.ipv6.Some? {
      if a.v6First {
        TwoProtocols(P6(a.ipv6.value), P4(a.ipv4.value));
      } else {
        TwoProtocols(P4(a.ipv4.value), P6(a.ipv6.value));
      }
    } else if a.ipv4.Some? {
      OneProtocol(P4(a.ipv4.value));
    } else if a.ipv6.Some? {
      OneProtocol(P6(a.ipv6.value));
    }
  }

  lemma ImageFixed(d: Interface)
    requires ValidKind(d.kind) && Compiled(d.addressing)
    ensures Image(d) == AsElement(d) <==> RoundTrips(d)
  {
    KindFixed(d);
    AddressingFixed(d.addressing);
    ImageMisc(d);
    SameRest(d);
  }

  lemma SameRest(d: Interface)
    requires Compiled(d.addressing)
    ensures Image(d).iftype == AsElement(d).iftype
    ensures Image(d).macs == AsElement(d).macs && Image(d).mtus == AsElement(d).mtus
    ensures Image(d).start == AsElement(d).start <==> !d.start.HotPlug?
    ensures AsElement(d).protocols == AsProtocols(Protocols(d.addressing))
  {
  }

  /** A VLAN port without a name attribute never comes back: every port that is read has a name. */
  lemma UnnamedLost(f: Stanzas, d: Interface)
    requires d.kind.BridgeKind? && !PortsNamed(d.kind.ports)
    ensures Put(f) != RedHat.Ok(Some(AsElement(d)))
  {
    var ports := d.kind.ports;
    var p :| p in ports && p.VlanPort? && p.vlan.name.None?;
    var i :| 0 <= i < |ports| && ports[i] == p;
    assert AsElement(d).bridges[0].ports[i].name == None;
    if f.iface != [] {
      AllNamed(f.iface[0].nodes, f.iface);
    }
  }

  lemma AllNamed(nodes: seq<Node>, stanzas: seq<Stanza>)
    ensures forall b, i | b in PutBridges(nodes, stanzas) && 0 <= i < |b.ports| :: b.ports[i].name.Some?
  {
  }

  /**
   * A valid document with different names is compiled and comes back, element for element, exactly
   * when it round-trips.
   */
  lemma RoundTrip(d: Interface)
    requires ValidInterface(d) && DistinctNames(d.kind)
    ensures Get(d).Ok? && Put(Get(d).value) == RedHat.Ok(Some(AsElement(d))) <==> RoundTrips(d)
  {
    HeadsOk(d);
    if Get(d).Ok? {
      if PortsNamed(Ports(d.kind)) {
        PutGet(d);
        ImageFixed(d);
      } else {
        UnnamedLost(Get(d).value, d);
        UnnamedDies(d);
      }
    } else {
      if RoundTrips(d) {
        MaskSurvives(d.addressing.ipv4.value);
        assert false;
      }
    }
  }

  lemma UnnamedDies(d: Interface)
    requires !PortsNamed(Ports(d.kind))
    ensures !RoundTrips(d)
  {
    var p :| p in Ports(d.kind) && p.VlanPort? && p.vlan.name.None?;
    assert !PortSurvives(p);
  }
}
