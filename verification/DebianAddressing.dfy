// The addressing half of the Debian round trip: what the protocol nodes of the first stanzas are read
// back as.
module DebianAddressing {
  import opened Text
  import opened Document
  import RedHat
  import opened Debian
  import opened DebianImage
  import RedHatAddressing

  // ---- addressing nodes ----

  lemma Written5(a: Entry, b: Entry, c: Entry, d: Entry, e: Entry, name: Label)
    ensures Values(Written([a, b, c, d, e]), name)
         == PickOne(a, name) + (PickOne(b, name) + (PickOne(c, name) + (PickOne(d, name) + PickOne(e, name))))
  {
    WrittenValues([a, b, c, d, e], name);
    WrittenValues([b, c, d, e], name);
    Written4(b, c, d, e, name);
    assert [a, b, c, d, e][1..] == [b, c, d, e];
  }

  /** The entries of the stanza that carry the addressing. */
  function AddressValue(e: seq<Entry>, name: Label): seq<string>
    requires |e| == 5
  {
    match name
    case FAMILY => OptSeq(e[0].value)
    case METHOD => OptSeq(e[1].value)
    case ADDRESS => OptSeq(e[2].value)
    case NETMASK => OptSeq(e[3].value)
    case GATEWAY => OptSeq(e[4].value)
    case _ => []
  }

  predicate AddressLabels(e: seq<Entry>) {
    |e| == 5 && e[0].name == FAMILY && e[1].name == METHOD && e[2].name == ADDRESS && e[3].name == NETMASK
    && e[4].name == GATEWAY
  }

  lemma AddressValues(e: seq<Entry>, name: Label)
    requires AddressLabels(e)
    ensures Values(Written(e), name) == AddressValue(e, name)
  {
    assert e == [e[0], e[1], e[2], e[3], e[4]];
    Written5(e[0], e[1], e[2], e[3], e[4], name);
  }

  /** The protocol nodes of a stanza are those of the entries. */
  ghost predicate OfAddress(nodes: seq<Node>, e: seq<Entry>)
    requires |e| == 5
  {
    forall name | name in {FAMILY, METHOD, ADDRESS, NETMASK, GATEWAY} :: Values(nodes, name) == AddressValue(e, name)
  }

  lemma AddressPicked(nodes: seq<Node>, e: seq<Entry>)
    requires |e| == 5 && OfAddress(nodes, e)
    ensures Values(nodes, FAMILY) == OptSeq(e[0].value) && Values(nodes, METHOD) == OptSeq(e[1].value)
    ensures Optional(nodes, ADDRESS) == e[2].value && Optional(nodes, NETMASK) == e[3].value
    ensures Optional(nodes, GATEWAY) == e[4].value
  {
    Picked(nodes, ADDRESS, e[2].value);
    Picked(nodes, NETMASK, e[3].value);
    Picked(nodes, GATEWAY, e[4].value);
  }

  // ---- IPv4 ----

  lemma PrefixBack(prefix: Option<string>)
    requires RedHat.NetmaskNode(prefix).Ok?
    ensures var mask := RedHat.NetmaskNode(prefix).value;
      mask.Some? ==> RedHat.PrefixText(mask.value) == RedHat.Ok(Value(RedHatAddressing.ImagePrefix4(prefix)))
    ensures RedHat.NetmaskNode(prefix).value.Some? <==> prefix.Some?
  {
    if prefix.Some? {
      RedHatAddressing.PutIPv4Get(Static4("", prefix, None));
    }
  }

  lemma Static4Read(nodes: seq<Node>, p: IPv4)
    requires p.Static4? && RedHat.NetmaskNode(p.prefix).Ok?
    requires Values(nodes, METHOD) == ["static"]
    requires Optional(nodes, ADDRESS) == Some(p.address) && Optional(nodes, GATEWAY) == p.gateway
    requires Optional(nodes, NETMASK) == RedHat.NetmaskNode(p.prefix).value
    ensures PutIPv4(nodes) == RedHat.Ok([ImageProtocol(P4(p))])
  {
    PrefixBack(p.prefix);
  }

  lemma Static4Back(nodes: seq<Node>, p: IPv4)
    requires p.Static4? && RedHat.NetmaskNode(p.prefix).Ok? && OfAddress(nodes, IPv4Entries(p))
    ensures Values(nodes, FAMILY) == ["inet"]
    ensures PutIPv4(nodes) == RedHat.Ok([ImageProtocol(P4(p))])
  {
    AddressPicked(nodes, IPv4Entries(p));
    Static4Read(nodes, p);
  }

  /** Nodes that do not bear on the addressing. */
  ghost predicate Besides(more: seq<Node>) {
    Within(more, {Hook, Misc, Own})
  }

  lemma BesidesValues(a: seq<Node>, more: seq<Node>, name: Label)
    requires Besides(more) && PartOf(name) == Proto
    ensures Values(a + more, name) == Values(a, name)
  {
    Elsewhere(a, more, {Hook, Misc, Own}, name);
  }

  lemma IPv4Back(p: IPv4, more: seq<Node>)
    requires IPv4Nodes(p).Ok? && Besides(more)
    ensures Values(IPv4Nodes(p).value + more, FAMILY) == ["inet"]
    ensures PutIPv4(IPv4Nodes(p).value + more) == RedHat.Ok([ImageProtocol(P4(p))])
  {
    var a := IPv4Nodes(p).value;
    if p.Static4? {
      var e := IPv4Entries(p);
      forall name | name in {FAMILY, METHOD, ADDRESS, NETMASK, GATEWAY}
        ensures Values(a + more, name) == AddressValue(e, name)
      {
        AddressValues(e, name);
        BesidesValues(a, more, name);
      }
      Static4Back(a + more, p);
    } else {
      BesidesValues(a, more, FAMILY);
      BesidesValues(a, more, METHOD);
      TwoNodes("inet", "dhcp");
    }
  }

  lemma ValuesPair(a: Node, b: Node, name: Label)
    ensures Values([a, b], name)
         == (if a.name == name then [a.value] else []) + (if b.name == name then [b.value] else [])
  {
    assert [a, b] == [a] + [b] && [a][1..] == [] && [b][1..] == [];
    ValuesConcat([a], [b], name);
  }

  lemma TwoNodes(family: string, how: string)
    ensures Values([Node(FAMILY, family), Node(METHOD, how)], FAMILY) == [family]
    ensures Values([Node(FAMILY, family), Node(METHOD, how)], METHOD) == [how]
  {
    ValuesPair(Node(FAMILY, family), Node(METHOD, how), FAMILY);
    ValuesPair(Node(FAMILY, family), Node(METHOD, how), METHOD);
  }

  lemma ManualBack(more: seq<Node>)
    requires Besides(more)
    ensures Values(Manual() + more, FAMILY) == ["inet"]
    ensures PutIPv4(Manual() + more) == RedHat.Ok([])
  {
    BesidesValues(Manual(), more, FAMILY);
    BesidesValues(Manual(), more, METHOD);
    TwoNodes("inet", "manual");
  }

  // ---- IPv6 ----

  function Commands(command: string, ips: seq<IPv6Address>): seq<string> {
    if ips == [] then [] else [command + Debian.AddressText(ips[0])] + Commands(command, ips[1..])
  }

  lemma {:induction false} AddressesValues(name: Label, command: string, ips: seq<IPv6Address>)
    ensures Values(MoreAddresses(name, command, ips), name) == Commands(command, ips)
  {
    if ips != [] {
      AddressesValues(name, command, ips[1..]);
    }
  }

  lemma MoreValues(name: string, ips: seq<IPv6Address>, l: Label)
    ensures Values(MoreNodes(name, ips), UP) == if ips == [] then [] else Commands(AddCommand(name), ips[1..])
    ensures l != UP && l != DOWN ==> Values(MoreNodes(name, ips), l) == []
  {
    if ips != [] {
      var up, down := MoreAddresses(UP, AddCommand(name), ips[1..]), MoreAddresses(DOWN, DelCommand(name), ips[1..]);
      AddressesValues(UP, AddCommand(name), ips[1..]);
      AddressesWithin(UP, AddCommand(name), ips[1..]);
      AddressesWithin(DOWN, DelCommand(name), ips[1..]);
      ValuesConcat(up, down, UP);
      ValuesAbsent(down, UP);
      if l != UP && l != DOWN {
        ValuesAbsent(up + down, l);
      }
    }
  }

  lemma AddressBack(ip: IPv6Address, command: string)
    requires '/' !in ip.address
    ensures command <= command + Debian.AddressText(ip)
    ensures (command + Debian.AddressText(ip))[|command|..] == Debian.AddressText(ip)
    ensures Before(Debian.AddressText(ip), '/') == ip.address
    ensures After(Debian.AddressText(ip), '/') == Value(ip.prefix)
  {
    assert Debian.AddressText(ip) == ip.address + ['/'] + Value(ip.prefix);
    BeforeAfter(ip.address, '/', Value(ip.prefix));
  }

  lemma {:induction false} PutMoreBack(command: string, ips: seq<IPv6Address>)
    requires forall ip | ip in ips :: '/' !in ip.address
    ensures PutMore(command, Commands(command, ips)) == ImageAddresses(ips)
  {
    if ips != [] {
      var text := command + Debian.AddressText(ips[0]);
      assert ips[0] in ips;
      AddressBack(ips[0], command);
      PutMoreBack(command, ips[1..]);
      assert Commands(command, ips)[0] == text && Commands(command, ips)[1..] == Commands(command, ips[1..]);
    }
  }

  /** What the IPv6 stanza of this key must hold. */
  ghost predicate OfIPv6(s: Stanza, p: IPv6) {
    OfAddress(s.nodes, IPv6Entries(p))
    && Values(s.nodes, UP) == (if p.ips == [] then [] else Commands(AddCommand(s.key), p.ips[1..]))
    && (AutoconfCommand("0", s.key) in Values(s.nodes, PRE_UP) <==> !p.autoconf)
  }

  lemma FirstBack(nodes: seq<Node>, p: IPv6)
    requires Optional(nodes, ADDRESS) == if p.ips == [] then None else Some(p.ips[0].address)
    requires Optional(nodes, NETMASK) == if p.ips == [] then None else p.ips[0].prefix
    ensures PutFirstAddress(nodes) == if p.ips == [] then [] else [ImageAddress(p.ips[0])]
  {
  }

  lemma MethodRead(p: IPv6, methods: seq<string>)
    requires methods == [IPv6Method(p)]
    ensures "loopback" !in methods && ("dhcp" in methods <==> p.ips == [] && p.dhcp.Some?)
  {
  }

  lemma AddressesRead(first: seq<IPv6Address>, more: seq<IPv6Address>, ips: seq<IPv6Address>)
    requires first == if ips == [] then [] else [ImageAddress(ips[0])]
    requires more == if ips == [] then [] else ImageAddresses(ips[1..])
    ensures first + (more + []) == ImageAddresses(ips)
  {
    NoneBeside(more);
  }

  lemma IPv6Read(s: Stanza, p: IPv6, more: seq<IPv6Address>)
    requires Values(s.nodes, METHOD) == [IPv6Method(p)]
    requires PutFirstAddress(s.nodes) == if p.ips == [] then [] else [ImageAddress(p.ips[0])]
    requires PutMore(AddCommand(s.key), Values(s.nodes, UP)) == more
    requires more == if p.ips == [] then [] else ImageAddresses(p.ips[1..])
    requires Optional(s.nodes, GATEWAY) == if p.ips == [] then None else p.gateway
    requires AutoconfCommand("0", s.key) in Values(s.nodes, PRE_UP) <==> !p.autoconf
    ensures PutIPv6(s) == Family6(ImageIPv6(p))
  {
    MethodRead(p, Values(s.nodes, METHOD));
    AddressesRead(PutFirstAddress(s.nodes), more, p.ips);
  }

  lemma IPv6Back(s: Stanza, p: IPv6)
    requires OfIPv6(s, p) && forall ip | ip in p.ips :: '/' !in ip.address
    ensures Values(s.nodes, FAMILY) == ["inet6"]
    ensures PutIPv6(s) == Family6(ImageIPv6(p))
  {
    AddressPicked(s.nodes, IPv6Entries(p));
    FirstBack(s.nodes, p);
    var more := if p.ips == [] then [] else ImageAddresses(p.ips[1..]);
    if p.ips != [] {
      assert forall ip | ip in p.ips[1..] :: ip in p.ips;
      PutMoreBack(AddCommand(s.key), p.ips[1..]);
    }
    IPv6Read(s, p, more);
  }

  lemma AutoconfValues(name: string, autoconf: bool)
    ensures Values(AutoconfNodes(name, autoconf), PRE_UP) == if autoconf then [] else [AutoconfCommand("0", name)]
    ensures Within(AutoconfNodes(name, autoconf), {Hook})
  {
    if !autoconf {
      ValuesPair(Node(PRE_UP, AutoconfCommand("0", name)), Node(POST_DOWN, AutoconfCommand("1", name)), PRE_UP);
    }
  }

  lemma ValuesThree(a: seq<Node>, b: seq<Node>, c: seq<Node>, name: Label)
    ensures Values(a + (b + c), name) == Values(a, name) + (Values(b, name) + Values(c, name))
  {
    ValuesConcat(b, c, name);
    ValuesConcat(a, b + c, name);
  }

  lemma IPv6Values(name: string, p: IPv6, l: Label)
    ensures Values(IPv6Nodes(name, p), l)
         == AddressValue(IPv6Entries(p), l)
          + (Values(AutoconfNodes(name, p.autoconf), l) + Values(MoreNodes(name, p.ips), l))
  {
    ValuesThree(Written(IPv6Entries(p)), AutoconfNodes(name, p.autoconf), MoreNodes(name, p.ips), l);
    AddressValues(IPv6Entries(p), l);
  }

  lemma IPv6Address5(name: string, p: IPv6, l: Label)
    requires l in {FAMILY, METHOD, ADDRESS, NETMASK, GATEWAY}
    ensures Values(IPv6Nodes(name, p), l) == AddressValue(IPv6Entries(p), l)
  {
    IPv6Values(name, p, l);
    AutoconfValues(name, p.autoconf);
    ValuesAbsent(AutoconfNodes(name, p.autoconf), l);
    MoreValues(name, p.ips, l);
  }

  lemma IPv6Up(name: string, p: IPv6)
    ensures Values(IPv6Nodes(name, p), UP) == if p.ips == [] then [] else Commands(AddCommand(name), p.ips[1..])
  {
    IPv6Values(name, p, UP);
    AutoconfValues(name, p.autoconf);
    ValuesAbsent(AutoconfNodes(name, p.autoconf), UP);
    MoreValues(name, p.ips, UP);
  }

  lemma IPv6PreUp(name: string, p: IPv6)
    ensures Values(IPv6Nodes(name, p), PRE_UP) == if p.autoconf then [] else [AutoconfCommand("0", name)]
  {
    IPv6Values(name, p, PRE_UP);
    AutoconfValues(name, p.autoconf);
    MoreValues(name, p.ips, PRE_UP);
  }

  /** A command that brings up a port is not the one that turns autoconf off. */
  lemma HookUnlike(more: seq<Node>, name: string)
    requires forall v | v in Values(more, PRE_UP) :: "ifup " <= v
    ensures AutoconfCommand("0", name) !in Values(more, PRE_UP)
  {
    assert AutoconfCommand("0", name)[0] == 'e';
  }

  lemma IPv6Holds(name: string, p: IPv6, more: seq<Node>)
    requires Besides(more) && forall v | v in Values(more, PRE_UP) :: "ifup " <= v
    ensures OfIPv6(Stanza(name, IPv6Nodes(name, p) + more), p)
  {
    var a := IPv6Nodes(name, p);
    forall l | l in {FAMILY, METHOD, ADDRESS, NETMASK, GATEWAY}
      ensures Values(a + more, l) == AddressValue(IPv6Entries(p), l)
    {
      IPv6Address5(name, p, l);
      BesidesValues(a, more, l);
    }
    IPv6Up(name, p);
    IPv6PreUp(name, p);
    BesidesValues(a, more, UP);
    ValuesConcat(a, more, PRE_UP);
    HookUnlike(more, name);
  }

  // ---- the protocols ----

  ghost predicate OfFamily(s: Stanza, family: string) {
    Values(s.nodes, FAMILY) == [family]
  }

  lemma {:induction false} NoIPv6(stanzas: seq<Stanza>)
    requires forall s | s in stanzas :: OfFamily(s, "inet")
    ensures PutAllIPv6(stanzas) == []
  {
    if stanzas != [] {
      assert OfFamily(stanzas[0], "inet");
      NoIPv6(stanzas[1..]);
    }
  }

  lemma {:induction false} NoIPv4(stanzas: seq<Stanza>)
    requires forall s | s in stanzas :: OfFamily(s, "inet") || OfFamily(s, "inet6")
    ensures PutAllIPv4(stanzas) == RedHat.Ok([])
  {
    if stanzas != [] {
      var s := stanzas[0];
      assert OfFamily(s, "inet") || OfFamily(s, "inet6");
      assert "inet4" !in Values(s.nodes, FAMILY);
      NoIPv4(stanzas[1..]);
      var none: seq<ProtocolElement> := [];
      assert none + none == none;
    }
  }

  lemma {:induction false} PortFamilies(ports: seq<Port>)
    ensures forall s | s in PortStanzas(ports) :: OfFamily(s, "inet")
  {
    if ports != [] {
      PortFamilies(ports[1..]);
      match ports[0] {
        case EthernetPort(_) =>
        case VlanPort(v) => ManualBack(VlanNodes(v));
        case BondPort(_, bond) =>
          BondWithin(bond);
          ManualBack(BondNodes(bond));
      }
    }
  }

  lemma {:induction false} AllIPv6Concat(a: seq<Stanza>, b: seq<Stanza>)
    ensures PutAllIPv6(a + b) == PutAllIPv6(a) + PutAllIPv6(b)
  {
    if a == [] {
      assert a + b == b;
    } else {
      assert (a + b)[0] == a[0] && (a + b)[1..] == a[1..] + b;
      AllIPv6Concat(a[1..], b);
    }
  }

  lemma OneIPv6(s: Stanza, family: string)
    requires OfFamily(s, family)
    ensures PutAllIPv6([s]) == if family == "inet6" then [PutIPv6(s)] else []
  {
    assert [s][1..] == [];
    assert PutAllIPv6([s]) == PutOneIPv6(s) + [] == PutOneIPv6(s);
  }

  /** The IPv6 stanzas among the stanzas of a document. */
  lemma SecondIPv6(s: Stanza, second: seq<Stanza>, ports: seq<Stanza>)
    requires OfFamily(s, "inet") && |second| <= 1
    requires (second != [] ==> OfFamily(second[0], "inet6")) && (forall t | t in ports :: OfFamily(t, "inet"))
    ensures PutAllIPv6([s] + second + ports) == if second == [] then [] else [PutIPv6(second[0])]
  {
    AllIPv6Concat([s] + second, ports);
    AllIPv6Concat([s], second);
    OneIPv6(s, "inet");
    NoIPv6(ports);
    if second != [] {
      OneIPv6(second[0], "inet6");
      assert second == [second[0]];
    }
  }

  /** Reading the protocols of an IPv4 (or bare) first stanza, alone or followed by an IPv6 one. */
  lemma Inet(s: Stanza, second: seq<Stanza>, ports: seq<Stanza>, v4: seq<ProtocolElement>)
    requires OfFamily(s, "inet") && PutIPv4(s.nodes) == RedHat.Ok(v4) && |second| <= 1
    requires (second != [] ==> OfFamily(second[0], "inet6")) && (forall t | t in ports :: OfFamily(t, "inet"))
    ensures PutProtocols(s, [s] + second + ports)
         == RedHat.Ok(v4 + if second == [] then [] else [PutIPv6(second[0])])
  {
    SecondIPv6(s, second, ports);
  }

  lemma Families(s: Stanza, second: seq<Stanza>, ports: seq<Stanza>)
    requires OfFamily(s, "inet6")
    requires (forall t | t in second :: OfFamily(t, "inet")) && (forall t | t in ports :: OfFamily(t, "inet"))
    ensures PutAllIPv4([s] + second + ports) == RedHat.Ok([])
  {
    var stanzas := [s] + second + ports;
    forall t | t in stanzas
      ensures OfFamily(t, "inet") || OfFamily(t, "inet6")
    {
      assert t == s || t in second || t in ports;
    }
    NoIPv4(stanzas);
  }

  lemma Inet6(s: Stanza, second: seq<Stanza>, ports: seq<Stanza>)
    requires OfFamily(s, "inet6")
    requires (forall t | t in second :: OfFamily(t, "inet")) && (forall t | t in ports :: OfFamily(t, "inet"))
    ensures PutProtocols(s, [s] + second + ports) == RedHat.Ok([PutIPv6(s)])
  {
    Families(s, second, ports);
    OnlyIPv6(s, [s] + second + ports);
  }

  lemma OnlyIPv6(s: Stanza, stanzas: seq<Stanza>)
    requires Values(s.nodes, FAMILY) == ["inet6"] && PutAllIPv4(stanzas) == RedHat.Ok([])
    ensures PutProtocols(s, stanzas) == RedHat.Ok([PutIPv6(s)])
  {
    NoneBeside([PutIPv6(s)]);
  }

  lemma NoSlash(p: IPv6)
    requires RedHatAddressing.AddressesValid(p.ips)
    ensures forall ip | ip in p.ips :: '/' !in ip.address
  {
    assert !IsDigit('/');
  }

  lemma IPv6Stanza(name: string, p: IPv6, more: seq<Node>)
    requires RedHatAddressing.AddressesValid(p.ips)
    requires Besides(more) && forall v | v in Values(more, PRE_UP) :: "ifup " <= v
    ensures OfFamily(Stanza(name, IPv6Nodes(name, p) + more), "inet6")
    ensures PutIPv6(Stanza(name, IPv6Nodes(name, p) + more)) == ImageProtocol(P6(p))
  {
    IPv6Holds(name, p, more);
    NoSlash(p);
    IPv6Back(Stanza(name, IPv6Nodes(name, p) + more), p);
  }

  lemma FirstIPv4(p: IPv4, rest: seq<Node>, name: string, second: seq<Stanza>, ports: seq<Stanza>)
    requires IPv4Nodes(p).Ok? && Besides(rest) && |second| <= 1
    requires (second != [] ==> OfFamily(second[0], "inet6")) && (forall t | t in ports :: OfFamily(t, "inet"))
    ensures var s := Stanza(name, IPv4Nodes(p).value + rest);
      PutProtocols(s, [s] + second + ports)
      == RedHat.Ok([ImageProtocol(P4(p))] + if second == [] then [] else [PutIPv6(second[0])])
  {
    IPv4Back(p, rest);
    Inet(Stanza(name, IPv4Nodes(p).value + rest), second, ports, [ImageProtocol(P4(p))]);
  }

  lemma FirstIPv6(p: IPv6, rest: seq<Node>, name: string, second: seq<Stanza>, ports: seq<Stanza>)
    requires RedHatAddressing.AddressesValid(p.ips)
    requires Besides(rest) && forall v | v in Values(rest, PRE_UP) :: "ifup " <= v
    requires (forall t | t in second :: OfFamily(t, "inet")) && (forall t | t in ports :: OfFamily(t, "inet"))
    ensures var s := Stanza(name, IPv6Nodes(name, p) + rest);
      PutProtocols(s, [s] + second + ports) == RedHat.Ok([ImageProtocol(P6(p))])
  {
    IPv6Stanza(name, p, rest);
    Inet6(Stanza(name, IPv6Nodes(name, p) + rest), second, ports);
  }

  lemma FirstBare(rest: seq<Node>, name: string, ports: seq<Stanza>)
    requires Besides(rest) && forall t | t in ports :: OfFamily(t, "inet")
    ensures var s := Stanza(name, Manual() + rest); PutProtocols(s, [s] + [] + ports) == RedHat.Ok([])
  {
    ManualBack(rest);
    Inet(Stanza(name, Manual() + rest), [], ports, []);
  }

  lemma SecondIPv6Back(name: string, q: IPv6)
    requires RedHatAddressing.AddressesValid(q.ips)
    ensures OfFamily(Stanza(name, IPv6Nodes(name, q)), "inet6")
    ensures PutIPv6(Stanza(name, IPv6Nodes(name, q))) == ImageProtocol(P6(q))
  {
    IPv6Stanza(name, q, []);
    NoneBeside(IPv6Nodes(name, q));
  }

  lemma SecondIPv4Lost(name: string, q: IPv4)
    requires IPv4Nodes(q).Ok?
    ensures OfFamily(Stanza(name, IPv4Nodes(q).value), "inet")
  {
    IPv4Back(q, []);
    NoneBeside(IPv4Nodes(q).value);
  }

  lemma IPv4Alone(p: IPv4, rest: seq<Node>, name: string, ports: seq<Stanza>)
    requires IPv4Nodes(p).Ok? && Besides(rest) && forall t | t in ports :: OfFamily(t, "inet")
    ensures var s := Stanza(name, IPv4Nodes(p).value + rest);
      PutProtocols(s, [s] + [] + ports) == RedHat.Ok(ImageProtocols([P4(p)]))
  {
    FirstIPv4(p, rest, name, [], ports);
    NoneBeside([ImageProtocol(P4(p))]);
  }

  lemma IPv4ThenIPv6(p: IPv4, q: IPv6, rest: seq<Node>, name: string, ports: seq<Stanza>)
    requires IPv4Nodes(p).Ok? && Besides(rest) && RedHatAddressing.AddressesValid(q.ips)
    requires forall t | t in ports :: OfFamily(t, "inet")
    ensures var s := Stanza(name, IPv4Nodes(p).value + rest);
      PutProtocols(s, [s] + [Stanza(name, IPv6Nodes(name, q))] + ports) == RedHat.Ok(ImageProtocols([P4(p), P6(q)]))
  {
    SecondIPv6Back(name, q);
    FirstIPv4(p, rest, name, [Stanza(name, IPv6Nodes(name, q))], ports);
    ImagePair(P4(p), q);
  }

  lemma ImagePair(p: Protocol, q: IPv6)
    requires p.P4? ==> IPv4Nodes(p.ipv4).Ok?
    ensures ImageProtocols([p, P6(q)]) == [ImageProtocol(p)] + [ImageProtocol(P6(q))]
  {
  }

  lemma IPv6ThenIPv4(p: IPv6, q: IPv4, rest: seq<Node>, name: string, ports: seq<Stanza>)
    requires RedHatAddressing.AddressesValid(p.ips) && IPv4Nodes(q).Ok?
    requires Besides(rest) && forall v | v in Values(rest, PRE_UP) :: "ifup " <= v
    requires forall t | t in ports :: OfFamily(t, "inet")
    ensures var s := Stanza(name, IPv6Nodes(name, p) + rest);
      PutProtocols(s, [s] + [Stanza(name, IPv4Nodes(q).value)] + ports) == RedHat.Ok(ImageProtocols([P6(p), P4(q)]))
  {
    SecondIPv4Lost(name, q);
    FirstIPv6(p, rest, name, [Stanza(name, IPv4Nodes(q).value)], ports);
  }

  /** The protocols of the first stanza and, if there is one, the second are read back as their image. */
  lemma ProtocolsRead(a: Addressing, name: string, rest: seq<Node>, ports: seq<Stanza>)
    requires ValidAddressing(a) && Compiled(a)
    requires Besides(rest) && forall v | v in Values(rest, PRE_UP) :: "ifup " <= v
    requires forall t | t in ports :: OfFamily(t, "inet")
    ensures FirstNodes(name, Protocols(a)).Ok? && SecondStanza(name, Protocols(a)).Ok?
    ensures var s := Stanza(name, FirstNodes(name, Protocols(a)).value + rest);
      PutProtocols(s, [s] + SecondStanza(name, Protocols(a)).value + ports) == RedHat.Ok(ImageProtocols(Protocols(a)))
  {
    match (a.ipv4, a.ipv6) {
      case (None, None) => FirstBare(rest, name, ports);
      case (Some(p), None) => IPv4Alone(p, rest, name, ports);
      case (None, Some(q)) => FirstIPv6(q, rest, name, [], ports);
      case (Some(p), Some(q)) =>
        if a.v6First {
          IPv6ThenIPv4(q, p, rest, name, ports);
        } else {
          IPv4ThenIPv6(p, q, rest, name, ports);
        }
    }
  }

  lemma FirstWithin(name: string, protocols: seq<Protocol>)
    requires FirstNodes(name, protocols).Ok?
    ensures Within(FirstNodes(name, protocols).value, {Proto, Hook})
  {
    if protocols != [] {
      ProtocolWithin(name, protocols[0]);
    }
  }

  lemma ProtocolWithin(name: string, p: Protocol)
    requires ProtocolNodes(name, p).Ok?
    ensures Within(ProtocolNodes(name, p).value, {Proto, Hook})
  {
    match p {
      case P4(ipv4) => IPv4Within(ipv4);
      case P6(ipv6) => IPv6Within(name, ipv6);
    }
  }
}
