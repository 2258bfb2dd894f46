// What debian-put.xsl makes of the stanzas debian-get.xsl wrote: the elements of a document, their
// image, and the bond, vlan and bridge halves of reading it back.
module DebianImage {
  import opened Text
  import opened Document
  import RedHat
  import opened Debian
  import RedHatAddressing

  // ---- the document as elements ----

  function OptSeq<T>(o: Option<T>): seq<T> {
    if o.Some? then [o.value] else []
  }

  function AsArpmon(a: Arpmon): ArpmonElement {
    ArpmonElement(Some(a.interval), a.target, a.validate)
  }

  function AsBond(b: Bond): BondElement {
    BondElement(b.mode, b.miimon, if b.arpmon.Some? then Some(AsArpmon(b.arpmon.value)) else None, b.slaves)
  }

  function AsPort(p: Port): PortElement {
    match p
    case EthernetPort(e) => PortElement(Some(e.name), [EthernetType], OptSeq(e.mac), [], [], [])
    case VlanPort(v) => PortElement(v.name, [VlanType], [], [], [], [VlanElement(v.tag, v.base)])
    case BondPort(name, bond) => PortElement(Some(name), [BondType], [], [], [AsBond(bond)], [])
  }

  function AsPorts(ports: seq<Port>): seq<PortElement> {
    seq(|ports|, i requires 0 <= i < |ports| => AsPort(ports[i]))
  }

  function AsProtocol(p: Protocol): ProtocolElement {
    match p
    case P4(Dhcp4(peerdns)) => Family4(Some(Dhcp6(peerdns)), [], None)
    case P4(Static4(address, prefix, gateway)) => Family4(None, [IPv6Address(address, prefix)], gateway)
    case P6(ipv6) => Family6(ipv6)
  }

  function AsProtocols(protocols: seq<Protocol>): seq<ProtocolElement> {
    seq(|protocols|, i requires 0 <= i < |protocols| => AsProtocol(protocols[i]))
  }

  /** The elements of the document itself. */
  function AsElement(d: Interface): Element {
    var e := Element(None, EthernetType, d.start, [], OptSeq(d.mtu), AsProtocols(Protocols(d.addressing)), [], [], []);
    match d.kind
    case EthernetKind(eth) => e.(name := Some(eth.name), macs := OptSeq(eth.mac))
    case VlanKind(v) => e.(name := v.name, iftype := VlanType, vlans := [VlanElement(v.tag, v.base)])
    case BridgeKind(name, stp, delay, ports) =>
      e.(name := Some(name), iftype := BridgeType, bridges := [BridgeElement(stp, delay, AsPorts(ports))])
    case BondKind(name, bond) => e.(name := Some(name), iftype := BondType, bonds := [AsBond(bond)])
  }

  /** The order of the protocols matters only when there are both. */
  function Canonical(d: Interface): Interface {
    var a := d.addressing;
    d.(addressing := a.(v6First := a.v6First && a.ipv4.Some? && a.ipv6.Some?))
  }

  lemma BondInjective(a: Bond, b: Bond)
    requires AsBond(a) == AsBond(b)
    ensures a == b
  {
  }

  lemma PortInjective(a: Port, b: Port)
    requires AsPort(a) == AsPort(b)
    ensures a == b
  {
    if a.BondPort? && b.BondPort? {
      assert AsPort(a).bonds[0] == AsBond(a.bond) && AsPort(b).bonds[0] == AsBond(b.bond);
      BondInjective(a.bond, b.bond);
    } else {
      assert AsPort(a).types[0] == AsPort(b).types[0];
      if a.EthernetPort? {
        assert OptSeq(a.ethernet.mac) == OptSeq(b.ethernet.mac);
        OptSeqInjective(a.ethernet.mac, b.ethernet.mac);
      } else {
        assert AsPort(a).vlans[0] == AsPort(b).vlans[0];
      }
    }
  }

  lemma OptSeqInjective<T>(a: Option<T>, b: Option<T>)
    requires OptSeq(a) == OptSeq(b)
    ensures a == b
  {
    assert a.Some? ==> OptSeq(a)[0] == a.value;
    assert b.Some? ==> OptSeq(b)[0] == b.value;
  }

  lemma PortsInjective(a: seq<Port>, b: seq<Port>)
    requires AsPorts(a) == AsPorts(b)
    ensures a == b
  {
    assert |AsPorts(a)| == |a| && |AsPorts(b)| == |b|;
    forall i | 0 <= i < |a|
      ensures a[i] == b[i]
    {
      assert AsPorts(a)[i] == AsPorts(b)[i];
      PortInjective(a[i], b[i]);
    }
  }

  lemma KindInjective(a: Interface, b: Interface)
    requires AsElement(a) == AsElement(b)
    ensures a.kind == b.kind
  {
    var x, y := AsElement(a), AsElement(b);
    match a.kind {
      case EthernetKind(eth) => OptSeqInjective(eth.mac, b.kind.ethernet.mac);
      case VlanKind(v) => assert x.vlans[0] == y.vlans[0];
      case BridgeKind(_, _, _, ports) =>
        assert x.bridges[0] == y.bridges[0];
        PortsInjective(ports, b.kind.ports);
      case BondKind(_, bond) =>
        assert x.bonds[0] == y.bonds[0];
        BondInjective(bond, b.kind.bond);
    }
  }

  lemma ProtocolsInjective(a: Addressing, b: Addressing)
    requires AsProtocols(Protocols(a)) == AsProtocols(Protocols(b))
    ensures a.ipv4 == b.ipv4 && a.ipv6 == b.ipv6
    ensures a.ipv4.Some? && a.ipv6.Some? ==> a.v6First == b.v6First
  {
    var p, q := Protocols(a), Protocols(b);
    assert |AsProtocols(p)| == |p| && |AsProtocols(q)| == |q|;
    forall i | 0 <= i < |p|
      ensures p[i] == q[i]
    {
      assert AsProtocols(p)[i] == AsProtocols(q)[i];
      ProtocolInjective(p[i], q[i]);
    }
    assert p == q;
  }

  lemma ProtocolInjective(a: Protocol, b: Protocol)
    requires AsProtocol(a) == AsProtocol(b)
    ensures a == b
  {
    if a.P4? && a.ipv4.Static4? && b.P4? && b.ipv4.Static4? {
      assert AsProtocol(a).ips[0] == AsProtocol(b).ips[0];
    }
  }

  /** Documents with the same elements are the same. */
  lemma AsElementInjective(a: Interface, b: Interface)
    requires AsElement(a) == AsElement(b)
    ensures Canonical(a) == Canonical(b)
  {
    KindInjective(a, b);
    OptSeqInjective(a.mtu, b.mtu);
    ProtocolsInjective(a.addressing, b.addressing);
  }

  // ---- what comes back ----

  function ImageMiimon(m: Miimon): Miimon {
    m.(carrier := if m.carrier.Some? then Some("ioctl") else None)
  }

  function ImageBond(b: Bond): BondElement {
    AsBond(b).(miimon := if b.miimon.Some? then Some(ImageMiimon(b.miimon.value)) else None,
               slaves := Bare(SlaveNames(b.slaves)))
  }

  function ImageVlan(name: string, v: Vlan): VlanElement {
    VlanElement(if |name| > |v.base| then name[|v.base| + 1..] else "", v.base)
  }

  function ImagePort(p: Port): PortElement {
    match p
    case EthernetPort(e) => AsPort(p).(macs := [])
    case VlanPort(v) => AsPort(p).(name := Some(PortAttr(p)), vlans := [ImageVlan(PortAttr(p), v)])
    case BondPort(_, bond) => AsPort(p).(bonds := [ImageBond(bond)])
  }

  function ImagePorts(ports: seq<Port>): seq<PortElement> {
    if PortAttrs(ports) == ["none"] then []
    else seq(|ports|, i requires 0 <= i < |ports| => ImagePort(ports[i]))
  }

  function ImageAddress(ip: IPv6Address): IPv6Address {
    IPv6Address(ip.address, Some(Value(ip.prefix)))
  }

  function ImageAddresses(ips: seq<IPv6Address>): seq<IPv6Address> {
    if ips == [] then [] else [ImageAddress(ips[0])] + ImageAddresses(ips[1..])
  }

  function ImageIPv6(p: IPv6): IPv6 {
    IPv6(p.autoconf, if p.ips == [] && p.dhcp.Some? then Some(Dhcp6(None)) else None, ImageAddresses(p.ips),
         if p.ips == [] then None else p.gateway)
  }

  function ImageProtocol(p: Protocol): ProtocolElement
    requires p.P4? ==> IPv4Nodes(p.ipv4).Ok?
  {
    match p
    case P4(Dhcp4(_)) => Family4(Some(Dhcp6(None)), [], None)
    case P4(Static4(address, prefix, gateway)) =>
      Family4(None, [IPv6Address(address, RedHatAddressing.ImagePrefix4(prefix))], gateway)
    case P6(ipv6) => Family6(ImageIPv6(ipv6))
  }

  /** IPv4 after IPv6 is lost. */
  function ImageProtocols(protocols: seq<Protocol>): seq<ProtocolElement>
    requires |protocols| <= 2
    requires forall p | p in protocols && p.P4? :: IPv4Nodes(p.ipv4).Ok?
  {
    if protocols == [] then []
    else if |protocols| == 1 || protocols[1].P4? then [ImageProtocol(protocols[0])]
    else [ImageProtocol(protocols[0]), ImageProtocol(protocols[1])]
  }

  /** The IPv4 prefix, if there is one, has a netmask. */
  predicate Compiled(a: Addressing) {
    a.ipv4.Some? ==> IPv4Nodes(a.ipv4.value).Ok?
  }

  function Image(d: Interface): Element
    requires Compiled(d.addressing)
  {
    var name := NameAttr(d.kind);
    var e := AsElement(d).(
      name := Some(name), start := if d.start.HotPlug? then NoStart else d.start,
      protocols := ImageProtocols(Protocols(d.addressing)));
    match d.kind
    case EthernetKind(_) => e
    case VlanKind(v) => e.(vlans := [ImageVlan(name, v)])
    case BridgeKind(_, stp, delay, ports) => e.(bridges := [BridgeElement(stp, delay, ImagePorts(ports))])
    case BondKind(_, bond) => e.(bonds := [ImageBond(bond)])
  }

  // ---- values of nodes ----

  lemma {:induction false} ValuesConcat(a: seq<Node>, b: seq<Node>, name: Label)
    ensures Values(a + b, name) == Values(a, name) + Values(b, name)
  {
    if a == [] {
      assert a + b == b;
    } else {
      assert (a + b)[1..] == a[1..] + b;
      ValuesConcat(a[1..], b, name);
    }
  }

  lemma {:induction false} ValuesAbsent(nodes: seq<Node>, name: Label)
    requires forall n | n in nodes :: n.name != name
    ensures Values(nodes, name) == []
  {
    if nodes != [] {
      assert nodes[0] in nodes;
      ValuesAbsent(nodes[1..], name);
    }
  }

  lemma {:induction false} WrittenLabels(entries: seq<Entry>)
    ensures forall n | n in Written(entries) :: exists e | e in entries :: e.name == n.name
  {
    if entries != [] {
      WrittenLabels(entries[1..]);
      assert entries[0] in entries;
      assert forall e | e in entries[1..] :: e in entries;
    }
  }

  /** The values a list of entries has for a label. */
  function Pick(entries: seq<Entry>, name: Label): seq<string> {
    if entries == [] then [] else PickOne(entries[0], name) + Pick(entries[1..], name)
  }

  function PickOne(e: Entry, name: Label): seq<string> {
    if e.name == name then OptSeq(e.value) else []
  }

  lemma {:induction false} WrittenValues(entries: seq<Entry>, name: Label)
    ensures Values(Written(entries), name) == Pick(entries, name)
  {
    if entries != [] {
      var e, rest := entries[0], entries[1..];
      ValuesConcat(if e.value.Some? then [Node(e.name, e.value.value)] else [], Written(rest), name);
      WrittenValues(rest, name);
    }
  }

  lemma Written3(a: Entry, b: Entry, c: Entry, name: Label)
    ensures Values(Written([a, b, c]), name) == PickOne(a, name) + (PickOne(b, name) + PickOne(c, name))
  {
    WrittenValues([a, b, c], name);
    assert [a, b, c][1..] == [b, c] && [b, c][1..] == [c] && [c][1..] == [];
    assert Pick([c], name) == PickOne(c, name) + Pick([], name) == PickOne(c, name);
  }

  lemma Written4(a: Entry, b: Entry, c: Entry, d: Entry, name: Label)
    ensures Values(Written([a, b, c, d]), name)
         == PickOne(a, name) + (PickOne(b, name) + (PickOne(c, name) + PickOne(d, name)))
  {
    WrittenValues([a, b, c, d], name);
    WrittenValues([b, c, d], name);
    Written3(b, c, d, name);
    assert [a, b, c, d][1..] == [b, c, d];
  }

  /** Which part of a stanza a label belongs to. */
  datatype Part = Proto | Hook | Misc | Own

  function PartOf(name: Label): Part {
    match name
    case FAMILY | METHOD | ADDRESS | NETMASK | GATEWAY | UP | DOWN => Proto
    case PRE_UP | POST_DOWN => Hook
    case MTU | HWADDRESS => Misc
    case _ => Own
  }

  ghost predicate Within(nodes: seq<Node>, parts: set<Part>) {
    forall n | n in nodes :: PartOf(n.name) in parts
  }

  lemma WithinConcat(a: seq<Node>, b: seq<Node>, parts: set<Part>)
    requires Within(a, parts) && Within(b, parts)
    ensures Within(a + b, parts)
  {
  }

  /** Nodes of other parts do not matter. */
  lemma Elsewhere(a: seq<Node>, b: seq<Node>, parts: set<Part>, name: Label)
    requires Within(b, parts) && PartOf(name) !in parts
    ensures Values(a + b, name) == Values(a, name)
    ensures Values(b + a, name) == Values(a, name)
  {
    ValuesAbsent(b, name);
    ValuesConcat(a, b, name);
    ValuesConcat(b, a, name);
    assert Values(a, name) + [] == Values(a, name) == [] + Values(a, name);
  }

  lemma WrittenWithin(entries: seq<Entry>, parts: set<Part>)
    requires forall e | e in entries :: PartOf(e.name) in parts
    ensures Within(Written(entries), parts)
  {
    WrittenLabels(entries);
  }

  lemma BondWithin(b: Bond)
    ensures Within(BondNodes(b), {Own})
  {
    OwnEntries(SlaveEntries(b));
    MonitorWithin(b);
    WithinConcat(Written(SlaveEntries(b)), MonitorNodes(b), {Own});
  }

  lemma MonitorWithin(b: Bond)
    ensures Within(MonitorNodes(b), {Own})
  {
    if b.miimon.Some? {
      OwnEntries(MiimonEntries(b.miimon.value));
    }
    if b.arpmon.Some? {
      OwnEntries(ArpmonEntries(b.arpmon.value));
    }
  }

  lemma OwnEntries(entries: seq<Entry>)
    requires forall i | 0 <= i < |entries| :: PartOf(entries[i].name) == Own
    ensures Within(Written(entries), {Own})
  {
    WrittenWithin(entries, {Own});
  }

  lemma KindWithin(k: Kind)
    ensures Within(KindNodes(k), {Own})
  {
    match k {
      case EthernetKind(_) =>
      case VlanKind(_) =>
      case BridgeKind(_, stp, delay, ports) => WrittenWithin(BridgeEntries(stp, delay, ports), {Own});
      case BondKind(_, bond) => BondWithin(bond);
    }
  }

  lemma {:induction false} HooksWithin(ports: seq<Port>, vlans: bool)
    ensures Within(Hooks(ports, vlans), {Hook})
    ensures forall v | v in Values(Hooks(ports, vlans), PRE_UP) :: "ifup " <= v
  {
    if ports != [] {
      HooksWithin(ports[1..], vlans);
      var first := if Hooked(ports[0], vlans)
        then [Node(PRE_UP, "ifup " + PortAttr(ports[0])), Node(POST_DOWN, "ifdown " + PortAttr(ports[0]))]
        else [];
      ValuesConcat(first, Hooks(ports[1..], vlans), PRE_UP);
      WithinConcat(first, Hooks(ports[1..], vlans), {Hook});
    }
  }

  lemma IPv4Within(p: IPv4)
    requires IPv4Nodes(p).Ok?
    ensures Within(IPv4Nodes(p).value, {Proto})
  {
    if p.Static4? {
      var entries := IPv4Entries(p);
      WrittenWithin(entries, {Proto});
    }
  }

  function IPv4Entries(p: IPv4): seq<Entry>
    requires p.Static4? && RedHat.NetmaskNode(p.prefix).Ok?
  {
    [Entry(FAMILY, Some("inet")), Entry(METHOD, Some("static")), Entry(ADDRESS, Some(p.address)),
     Entry(NETMASK, RedHat.NetmaskNode(p.prefix).value), Entry(GATEWAY, p.gateway)]
  }

  lemma {:induction false} AddressesWithin(name: Label, command: string, ips: seq<IPv6Address>)
    ensures forall n | n in MoreAddresses(name, command, ips) :: n.name == name
  {
    if ips != [] {
      AddressesWithin(name, command, ips[1..]);
    }
  }

  lemma MoreWithin(name: string, ips: seq<IPv6Address>)
    ensures Within(MoreNodes(name, ips), {Proto})
    ensures Within(MoreNodes(name, ips), {Proto, Hook})
  {
    if ips != [] {
      AddressesWithin(UP, AddCommand(name), ips[1..]);
      AddressesWithin(DOWN, DelCommand(name), ips[1..]);
    }
  }

  lemma IPv6Within(name: string, p: IPv6)
    ensures Within(IPv6Nodes(name, p), {Proto, Hook})
  {
    WrittenWithin(IPv6Entries(p), {Proto, Hook});
    MoreWithin(name, p.ips);
    WithinConcat(AutoconfNodes(name, p.autoconf), MoreNodes(name, p.ips), {Proto, Hook});
    WithinConcat(Written(IPv6Entries(p)), AutoconfNodes(name, p.autoconf) + MoreNodes(name, p.ips), {Proto, Hook});
  }

  // ---- bonds ----

  lemma Picked(nodes: seq<Node>, name: Label, value: Option<string>)
    requires Values(nodes, name) == OptSeq(value)
    ensures Optional(nodes, name) == value && (Has(nodes, name) <==> value.Some?)
    ensures First(nodes, name) == Value(value)
  {
  }

  function SlaveValue(b: Bond, name: Label): Option<string> {
    match name
    case BOND_SLAVES => Some(NameList(SlaveNames(b.slaves)))
    case BOND_PRIMARY => if b.slaves == [] then None else Some(b.slaves[0].name)
    case BOND_MODE => b.mode
    case _ => None
  }

  function MiimonValue(m: Miimon, name: Label): Option<string> {
    match name
    case BOND_MIIMON => Some(m.freq)
    case BOND_DOWNDELAY => m.downdelay
    case BOND_UPDELAY => m.updelay
    case BOND_USE_CARRIER => CarrierFlag(m.carrier)
    case _ => None
  }

  function ArpmonValue(a: Arpmon, name: Label): Option<string> {
    match name
    case BOND_ARP_INTERVAL => Some(a.interval)
    case BOND_ARP_IP_TARGET => Some(a.target)
    case BOND_ARP_VALIDATE => a.validate
    case _ => None
  }

  lemma SlaveValues(b: Bond, name: Label)
    ensures Values(Written(SlaveEntries(b)), name) == OptSeq(SlaveValue(b, name))
  {
    var e := SlaveEntries(b);
    Written3(e[0], e[1], e[2], name);
  }

  lemma MiimonValues(m: Miimon, name: Label)
    ensures Values(Written(MiimonEntries(m)), name) == OptSeq(MiimonValue(m, name))
  {
    var e := MiimonEntries(m);
    Written4(e[0], e[1], e[2], e[3], name);
  }

  lemma ArpmonValues(a: Arpmon, name: Label)
    ensures Values(Written(ArpmonEntries(a)), name) == OptSeq(ArpmonValue(a, name))
  {
    var e := ArpmonEntries(a);
    Written3(e[0], e[1], e[2], name);
  }

  function BondValue(b: Bond, name: Label): Option<string> {
    match name
    case BOND_SLAVES | BOND_PRIMARY | BOND_MODE => SlaveValue(b, name)
    case BOND_MIIMON | BOND_DOWNDELAY | BOND_UPDELAY | BOND_USE_CARRIER =>
      if b.miimon.Some? then MiimonValue(b.miimon.value, name) else None
    case BOND_ARP_INTERVAL | BOND_ARP_IP_TARGET | BOND_ARP_VALIDATE =>
      if b.arpmon.Some? then ArpmonValue(b.arpmon.value, name) else None
    case _ => None
  }

  lemma BondValues(b: Bond, name: Label)
    ensures Values(BondNodes(b), name) == OptSeq(BondValue(b, name))
  {
    ValuesConcat(Written(SlaveEntries(b)), MonitorNodes(b), name);
    SlaveValues(b, name);
    MonitorValues(b, name);
  }

  lemma MonitorValues(b: Bond, name: Label)
    ensures Values(MonitorNodes(b), name)
         == (if b.miimon.Some? then OptSeq(MiimonValue(b.miimon.value, name)) else [])
          + (if b.arpmon.Some? then OptSeq(ArpmonValue(b.arpmon.value, name)) else [])
  {
    var miimon := if b.miimon.Some? then Written(MiimonEntries(b.miimon.value)) else [];
    var arpmon := if b.arpmon.Some? then Written(ArpmonEntries(b.arpmon.value)) else [];
    ValuesConcat(miimon, arpmon, name);
    if b.miimon.Some? {
      MiimonValues(b.miimon.value, name);
    }
    if b.arpmon.Some? {
      ArpmonValues(b.arpmon.value, name);
    }
  }

  lemma NamesBack(names: seq<string>)
    requires names != [] && forall n | n in names :: DeviceName(n)
    ensures Tokens(NameList(names), ' ') == names
  {
    forall n | n in names
      ensures ' ' !in n
    {
      assert !NameChar(' ');
    }
    TokensJoin(names, ' ');
  }

  /** The own nodes of a stanza are those of the bond. */
  ghost predicate OfBond(nodes: seq<Node>, b: Bond) {
    forall name | PartOf(name) == Own :: Values(nodes, name) == OptSeq(BondValue(b, name))
  }

  lemma BondPicked(nodes: seq<Node>, b: Bond, name: Label)
    requires OfBond(nodes, b) && PartOf(name) == Own
    ensures Optional(nodes, name) == BondValue(b, name)
  {
    Picked(nodes, name, BondValue(b, name));
  }

  predicate CarrierFlagged(m: Miimon) {
    CarrierFlag(m.carrier).Some? <==> m.carrier.Some?
  }

  lemma ValidFlagged(m: Miimon)
    requires ValidMiimon(m)
    ensures CarrierFlagged(m)
  {
  }

  lemma MiimonRead(nodes: seq<Node>, m: Miimon)
    requires CarrierFlagged(m) && Optional(nodes, BOND_MIIMON) == Some(m.freq)
    requires Optional(nodes, BOND_DOWNDELAY) == m.downdelay && Optional(nodes, BOND_UPDELAY) == m.updelay
    requires Optional(nodes, BOND_USE_CARRIER) == CarrierFlag(m.carrier)
    ensures PutMiimon(nodes) == Some(ImageMiimon(m))
  {
  }

  lemma MiimonBack(nodes: seq<Node>, b: Bond)
    requires OfBond(nodes, b) && (b.miimon.Some? ==> CarrierFlagged(b.miimon.value))
    ensures PutMiimon(nodes) == ImageBond(b).miimon
  {
    BondPicked(nodes, b, BOND_MIIMON);
    if b.miimon.Some? {
      BondPicked(nodes, b, BOND_DOWNDELAY);
      BondPicked(nodes, b, BOND_UPDELAY);
      BondPicked(nodes, b, BOND_USE_CARRIER);
      MiimonRead(nodes, b.miimon.value);
    }
  }

  lemma ArpmonBack(nodes: seq<Node>, b: Bond)
    requires OfBond(nodes, b)
    ensures PutArpmon(nodes) == ImageBond(b).arpmon
  {
    BondPicked(nodes, b, BOND_ARP_INTERVAL);
    BondPicked(nodes, b, BOND_ARP_IP_TARGET);
    BondPicked(nodes, b, BOND_ARP_VALIDATE);
  }

  lemma SlavesBack(slaves: seq<Ethernet>)
    requires slaves != [] && forall e | e in slaves :: DeviceName(e.name)
    ensures Tokens(NameList(SlaveNames(slaves)), ' ') == SlaveNames(slaves)
  {
    var names := SlaveNames(slaves);
    forall n | n in names
      ensures DeviceName(n)
    {
      var i :| 0 <= i < |names| && names[i] == n;
      assert slaves[i] in slaves;
    }
    NamesBack(names);
  }

  lemma BondRead(nodes: seq<Node>, b: Bond, text: string)
    requires Optional(nodes, BOND_SLAVES) == Some(text) && Tokens(text, ' ') == SlaveNames(b.slaves)
    requires Optional(nodes, BOND_MODE) == b.mode
    requires PutMiimon(nodes) == ImageBond(b).miimon && PutArpmon(nodes) == ImageBond(b).arpmon
    ensures PutBonds(nodes) == [ImageBond(b)]
  {
  }

  lemma SlavesPicked(nodes: seq<Node>, b: Bond)
    requires OfBond(nodes, b)
    ensures Optional(nodes, BOND_SLAVES) == Some(NameList(SlaveNames(b.slaves)))
    ensures Optional(nodes, BOND_MODE) == b.mode
  {
    BondPicked(nodes, b, BOND_SLAVES);
    BondPicked(nodes, b, BOND_MODE);
  }

  /** What reading a bond back asks of the document. */
  predicate Readable(b: Bond) {
    (b.miimon.Some? ==> CarrierFlagged(b.miimon.value))
    && Tokens(NameList(SlaveNames(b.slaves)), ' ') == SlaveNames(b.slaves)
  }

  lemma ValidReadable(b: Bond)
    requires ValidBond(b)
    ensures Readable(b)
  {
    if b.miimon.Some? {
      ValidFlagged(b.miimon.value);
    }
    SlavesBack(b.slaves);
  }

  lemma BondBack(nodes: seq<Node>, b: Bond)
    requires OfBond(nodes, b) && Readable(b)
    ensures PutBonds(nodes) == [ImageBond(b)]
  {
    MiimonBack(nodes, b);
    ArpmonBack(nodes, b);
    SlavesPicked(nodes, b);
    BondRead(nodes, b, NameList(SlaveNames(b.slaves)));
  }

  lemma BondTyped(nodes: seq<Node>, b: Bond)
    requires OfBond(nodes, b)
    ensures PutType(nodes) == BondType && !Has(nodes, BRIDGE_PORTS) && !Has(nodes, VLAN_RAW_DEVICE)
  {
    BondPicked(nodes, b, BOND_SLAVES);
    BondPicked(nodes, b, BRIDGE_PORTS);
    BondPicked(nodes, b, VLAN_RAW_DEVICE);
  }

  // ---- the other kinds ----

  /** The own nodes of a stanza are these. */
  ghost predicate OwnNodes(nodes: seq<Node>, own: seq<Node>) {
    forall name | PartOf(name) == Own :: Values(nodes, name) == Values(own, name)
  }

  lemma BondOwned(nodes: seq<Node>, b: Bond)
    requires OwnNodes(nodes, BondNodes(b))
    ensures OfBond(nodes, b)
  {
    forall name | PartOf(name) == Own
      ensures Values(nodes, name) == OptSeq(BondValue(b, name))
    {
      BondValues(b, name);
    }
  }

  lemma VlanOwned(nodes: seq<Node>, key: string, v: Vlan)
    requires OwnNodes(nodes, VlanNodes(v))
    ensures PutType(nodes) == VlanType && PutVlans(Stanza(key, nodes)) == [ImageVlan(key, v)]
    ensures !Has(nodes, BRIDGE_PORTS) && !Has(nodes, BOND_SLAVES)
  {
    var own := VlanNodes(v);
    assert own[1..] == [];
    assert Values(nodes, VLAN_RAW_DEVICE) == Values(own, VLAN_RAW_DEVICE) == [v.base];
    assert Values(nodes, BRIDGE_PORTS) == Values(own, BRIDGE_PORTS) == [];
    assert Values(nodes, BOND_SLAVES) == Values(own, BOND_SLAVES) == [];
  }

  lemma EthernetOwned(nodes: seq<Node>)
    requires OwnNodes(nodes, [])
    ensures PutType(nodes) == EthernetType
    ensures !Has(nodes, BRIDGE_PORTS) && !Has(nodes, BOND_SLAVES) && !Has(nodes, VLAN_RAW_DEVICE)
  {
    assert Values(nodes, BRIDGE_PORTS) == Values([], BRIDGE_PORTS);
    assert Values(nodes, BOND_SLAVES) == Values([], BOND_SLAVES);
    assert Values(nodes, VLAN_RAW_DEVICE) == Values([], VLAN_RAW_DEVICE);
  }

  lemma BridgeOwned(nodes: seq<Node>, text: string, stp: Option<string>, delay: Option<string>)
    requires OwnNodes(nodes, Written(
      [Entry(BRIDGE_PORTS, Some(text)), Entry(BRIDGE_STP, stp), Entry(BRIDGE_FD, delay)]))
    ensures Values(nodes, BRIDGE_PORTS) == [text]
    ensures Optional(nodes, BRIDGE_STP) == stp && Optional(nodes, BRIDGE_FD) == delay
  {
    BridgeValue(nodes, text, stp, delay, BRIDGE_PORTS);
    BridgeValue(nodes, text, stp, delay, BRIDGE_STP);
    BridgeValue(nodes, text, stp, delay, BRIDGE_FD);
    Picked(nodes, BRIDGE_STP, stp);
    Picked(nodes, BRIDGE_FD, delay);
  }

  lemma BridgeOnly(nodes: seq<Node>, text: string, stp: Option<string>, delay: Option<string>)
    requires OwnNodes(nodes, Written(
      [Entry(BRIDGE_PORTS, Some(text)), Entry(BRIDGE_STP, stp), Entry(BRIDGE_FD, delay)]))
    ensures !Has(nodes, BOND_SLAVES) && !Has(nodes, VLAN_RAW_DEVICE)
  {
    BridgeValue(nodes, text, stp, delay, BOND_SLAVES);
    BridgeValue(nodes, text, stp, delay, VLAN_RAW_DEVICE);
  }

  lemma BridgeValue(nodes: seq<Node>, text: string, stp: Option<string>, delay: Option<string>, name: Label)
    requires PartOf(name) == Own
    requires OwnNodes(nodes, Written(
      [Entry(BRIDGE_PORTS, Some(text)), Entry(BRIDGE_STP, stp), Entry(BRIDGE_FD, delay)]))
    ensures Values(nodes, name)
         == match name
            case BRIDGE_PORTS => [text]
            case BRIDGE_STP => OptSeq(stp)
            case BRIDGE_FD => OptSeq(delay)
            case _ => []
  {
    Written3(Entry(BRIDGE_PORTS, Some(text)), Entry(BRIDGE_STP, stp), Entry(BRIDGE_FD, delay), name);
  }

  // ---- the stanzas of the ports ----

  /** The name attributes that become keys are different. */
  ghost predicate DistinctNames(k: Kind) {
    NameAttr(k) !in PortAttrs(Ports(k)) && Distinct(PortAttrs(Ports(k)))
  }

  ghost predicate AllKeyed(stanzas: seq<Stanza>, key: string) {
    forall s | s in stanzas :: s.key == key
  }

  lemma {:induction false} KeyedConcat(a: seq<Stanza>, b: seq<Stanza>, key: string)
    ensures Keyed(a + b, key) == Keyed(a, key) + Keyed(b, key)
  {
    if a == [] {
      assert a + b == b;
    } else {
      assert (a + b)[0] == a[0] && (a + b)[1..] == a[1..] + b;
      KeyedConcat(a[1..], b, key);
      Assoc(if a[0].key == key then [a[0]] else [], Keyed(a[1..], key), Keyed(b, key));
    }
  }

  lemma {:induction false} KeyedOther(stanzas: seq<Stanza>, other: string, key: string)
    requires AllKeyed(stanzas, other) && key != other
    ensures Keyed(stanzas, key) == []
  {
    if stanzas != [] {
      assert stanzas[0] in stanzas;
      KeyedOther(stanzas[1..], other, key);
    }
  }

  lemma PortKeyed(p: Port, key: string)
    ensures Keyed(PortStanza(p), key) == if PortAttr(p) == key then PortStanza(p) else []
  {
    if PortStanza(p) != [] {
      assert PortStanza(p)[1..] == [];
    }
  }

  lemma RestAttrs(ports: seq<Port>, i: nat)
    requires i < |ports| && Distinct(PortAttrs(ports))
    ensures Distinct(PortAttrs(ports[1..]))
    ensures i > 0 ==> PortAttr(ports[0]) != PortAttr(ports[i])
    ensures forall j | 0 <= j < |ports| - 1 :: PortAttr(ports[1..][j]) != PortAttr(ports[0])
  {
    var attrs := PortAttrs(ports);
    assert attrs[1..] == PortAttrs(ports[1..]);
    assert forall j | 0 <= j < |ports| :: attrs[j] == PortAttr(ports[j]);
    assert forall j | 0 < j < |ports| :: attrs[0] != attrs[j];
    assert forall j | 0 <= j < |ports| - 1 :: ports[1..][j] == ports[j + 1];
  }

  lemma {:induction false} PortsKeyed(ports: seq<Port>, i: nat)
    requires i < |ports| && Distinct(PortAttrs(ports))
    ensures Keyed(PortStanzas(ports), PortAttr(ports[i])) == PortStanza(ports[i])
  {
    var key := PortAttr(ports[i]);
    KeyedConcat(PortStanza(ports[0]), PortStanzas(ports[1..]), key);
    PortKeyed(ports[0], key);
    RestAttrs(ports, i);
    if i == 0 {
      PortsUnkeyed(ports[1..], key);
    } else {
      PortsKeyed(ports[1..], i - 1);
    }
  }

  lemma {:induction false} PortsUnkeyed(ports: seq<Port>, key: string)
    requires forall j | 0 <= j < |ports| :: PortAttr(ports[j]) != key
    ensures Keyed(PortStanzas(ports), key) == []
  {
    if ports != [] {
      KeyedConcat(PortStanza(ports[0]), PortStanzas(ports[1..]), key);
      PortKeyed(ports[0], key);
      PortsUnkeyed(ports[1..], key);
    }
  }

  lemma ManualValues(own: seq<Node>, name: Label)
    requires PartOf(name) != Proto
    ensures Values(Manual() + own, name) == Values(own, name)
  {
    assert Within(Manual(), {Proto});
    Elsewhere(own, Manual(), {Proto}, name);
  }

  lemma ForOne<T>(f: Stanza -> seq<T>, s: Stanza)
    ensures ForEach(f, [s]) == f(s)
    ensures ForEach(f, []) == []
  {
    assert [s][1..] == [];
  }

  lemma PutPortAlone(stanzas: seq<Stanza>, name: string, s: Stanza)
    requires Keyed(stanzas, name) == [s]
    ensures PutPort(stanzas, name) == PortElement(
              Some(name), [PutType(s.nodes)], PutMacs(s.nodes), PutMtus(s.nodes), PutBonds(s.nodes), PutVlans(s))
  {
    ForOne((s: Stanza) => [PutType(s.nodes)], s);
    ForOne((s: Stanza) => PutMacs(s.nodes), s);
    ForOne((s: Stanza) => PutMtus(s.nodes), s);
    ForOne((s: Stanza) => PutBonds(s.nodes), s);
    ForOne((s: Stanza) => PutVlans(s), s);
  }

  lemma ManualOnly(nodes: seq<Node>, own: seq<Node>)
    requires nodes == Manual() + own && Within(own, {Own})
    ensures OwnNodes(nodes, own) && PutMacs(nodes) == [] && PutMtus(nodes) == []
  {
    forall name | PartOf(name) == Own
      ensures Values(nodes, name) == Values(own, name)
    {
      ManualValues(own, name);
    }
    ManualValues(own, HWADDRESS);
    ManualValues(own, MTU);
    ValuesAbsent(own, HWADDRESS);
    ValuesAbsent(own, MTU);
  }

  lemma VlanPortBack(nodes: seq<Node>, key: string, v: Vlan)
    requires nodes == Manual() + VlanNodes(v)
    ensures PutType(nodes) == VlanType && PutMacs(nodes) == [] && PutMtus(nodes) == [] && PutBonds(nodes) == []
    ensures PutVlans(Stanza(key, nodes)) == [ImageVlan(key, v)]
  {
    ManualOnly(nodes, VlanNodes(v));
    VlanOwned(nodes, key, v);
  }

  lemma BondPortOf(nodes: seq<Node>, b: Bond)
    requires nodes == Manual() + BondNodes(b)
    ensures OfBond(nodes, b) && PutMacs(nodes) == [] && PutMtus(nodes) == []
  {
    BondWithin(b);
    ManualOnly(nodes, BondNodes(b));
    BondOwned(nodes, b);
  }

  lemma BondPortBack(nodes: seq<Node>, key: string, b: Bond)
    requires OfBond(nodes, b) && Readable(b)
    ensures PutType(nodes) == BondType
    ensures PutBonds(nodes) == [ImageBond(b)] && PutVlans(Stanza(key, nodes)) == []
  {
    BondBack(nodes, b);
    BondTyped(nodes, b);
  }

  lemma PortBack(stanzas: seq<Stanza>, p: Port)
    requires (p.BondPort? ==> Readable(p.bond)) && Keyed(stanzas, PortAttr(p)) == PortStanza(p)
    ensures PutPort(stanzas, PortAttr(p)) == ImagePort(p)
  {
    var key := PortAttr(p);
    if !p.EthernetPort? {
      var s := PortStanza(p)[0];
      PutPortAlone(stanzas, key, s);
      if p.VlanPort? {
        VlanPortBack(s.nodes, key, p.vlan);
      } else {
        BondPortOf(s.nodes, p.bond);
        BondPortBack(s.nodes, key, p.bond);
      }
    }
  }

  /** Every VLAN port has a name attribute. */
  predicate PortsNamed(ports: seq<Port>) {
    forall p | p in ports :: p.VlanPort? ==> p.vlan.name.Some?
  }

  lemma PortNamesBack(ports: seq<Port>)
    requires PortsNamed(ports) && ports != [] && forall p | p in ports :: ValidPort(p)
    ensures Tokens(NameList(PortAttrs(ports)), ' ') == PortAttrs(ports)
  {
    var names := PortAttrs(ports);
    forall n | n in names
      ensures DeviceName(n)
    {
      var i :| 0 <= i < |names| && names[i] == n;
      assert ports[i] in ports;
    }
    NamesBack(names);
  }

  /** The ports listed in bridge_ports are read back one by one. */
  lemma PortsBack(heads: seq<Stanza>, k: Kind)
    requires ValidKind(k) && DistinctNames(k) && PortsNamed(Ports(k)) && AllKeyed(heads, NameAttr(k))
    requires Ports(k) != []
    ensures PutPorts(heads + PortStanzas(Ports(k)), Tokens(NameList(PortAttrs(Ports(k))), ' '))
         == seq(|Ports(k)|, i requires 0 <= i < |Ports(k)| => ImagePort(Ports(k)[i]))
  {
    var ports := Ports(k);
    var stanzas := heads + PortStanzas(ports);
    PortNamesBack(ports);
    forall i | 0 <= i < |ports|
      ensures PutPort(stanzas, PortAttrs(ports)[i]) == ImagePort(ports[i])
    {
      var key := PortAttr(ports[i]);
      assert PortAttrs(ports)[i] == key;
      KeyedConcat(heads, PortStanzas(ports), key);
      KeyedOther(heads, NameAttr(k), key);
      PortsKeyed(ports, i);
      assert ports[i] in ports;
      if ports[i].BondPort? {
        ValidReadable(ports[i].bond);
      }
      PortBack(stanzas, ports[i]);
    }
  }
}
