// What debian-get.xsl writes, label by label, in terms of the document alone: the keys of the stanzas, the
// addressing, the commands run when an interface goes up or down, and the labels of each kind.
module DebianCompiled {
  import opened Text
  import opened Document
  import opened Debian
  import opened DebianImage
  import opened DebianAddressing
  import opened DebianRoundTrip
  import opened DebianNodes

  /** The nodes of the first stanza. */
  function Head(d: Interface): seq<Node>
    requires Get(d).Ok?
  {
    Get(d).value.iface[0].nodes
  }

  // ---- keys ----

  /** The first stanza bears the name of the interface; so does the auto entry, there for onboot only. */
  lemma CompiledKey(d: Interface)
    requires Get(d).Ok?
    ensures var key := Get(d).value.iface[0].key;
      (d.kind.EthernetKind? ==> key == d.kind.ethernet.name) && (d.kind.BridgeKind? ==> key == d.kind.name)
      && (d.kind.BondKind? ==> key == d.kind.name)
      && (d.kind.VlanKind? ==> key == if d.kind.vlan.name.Some? then d.kind.vlan.name.value else "")
    ensures Get(d).value.auto == if d.start == OnBoot then [Get(d).value.iface[0].key] else []
  {
  }

  /** It compiles unless the prefix of a static IPv4 address is none. */
  lemma CompilesWhen(d: Interface)
    ensures Get(d).Ok? <==> PrefixFits(d.addressing.ipv4)
  {
    HeadsOk(d);
  }

  /** A static prefix, if there is one, is a number from 1 to 31. */
  predicate PrefixFits(ipv4: Option<IPv4>) {
    match ipv4
    case Some(Static4(_, Some(prefix), _)) => Digits(prefix) && 1 <= Number(prefix) <= 31
    case _ => true
  }

  // ---- the parts of the first stanza ----

  lemma HeadForm(d: Interface)
    requires Get(d).Ok?
    ensures var protocols := Protocols(d.addressing);
      FirstNodes(NameAttr(d.kind), protocols).Ok?
      && Head(d) == FirstNodes(NameAttr(d.kind), protocols).value + Rest(d, protocols != [])
      && Within(FirstNodes(NameAttr(d.kind), protocols).value, {Proto, Hook})
  {
    FirstWithin(NameAttr(d.kind), Protocols(d.addressing));
  }

  lemma HeadOwn(d: Interface, name: Label)
    requires Get(d).Ok? && PartOf(name) == Own
    ensures Values(Head(d), name) == Values(KindNodes(d.kind), name)
  {
    HeadForm(d);
    var protocols := Protocols(d.addressing);
    FirstOwn(FirstNodes(NameAttr(d.kind), protocols).value, d, protocols != [], name);
  }

  lemma HeadProto(d: Interface, name: Label)
    requires Get(d).Ok? && PartOf(name) == Proto
    ensures Values(Head(d), name)
         == Values(FirstNodes(NameAttr(d.kind), Protocols(d.addressing)).value, name)
  {
    HeadForm(d);
    var protocols := Protocols(d.addressing);
    RestBeside(d, protocols != []);
    BesidesValues(FirstNodes(NameAttr(d.kind), protocols).value, Rest(d, protocols != []), name);
  }

  // ---- mtu and hardware address ----

  lemma CompiledMisc(d: Interface)
    requires Get(d).Ok?
    ensures Values(Head(d), MTU) == Opt(d.mtu)
    ensures Values(Head(d), HWADDRESS) ==
      if d.kind.EthernetKind? && d.kind.ethernet.mac.Some? then ["ether " + d.kind.ethernet.mac.value] else []
  {
    HeadForm(d);
    var protocols := Protocols(d.addressing);
    RestHolds(FirstNodes(NameAttr(d.kind), protocols).value, d, protocols != []);
  }

  // ---- the labels of each kind ----

  /** names are the name attributes of the ports. */
  ghost predicate Named(ports: seq<Port>, names: seq<string>) {
    |names| == |ports| && forall i | 0 <= i < |ports| ::
      match ports[i]
      case EthernetPort(e) => names[i] == e.name
      case VlanPort(v) => names[i] == if v.name.Some? then v.name.value else ""
      case BondPort(name, _) => names[i] == name
  }

  lemma CompiledBond(d: Interface)
    requires Get(d).Ok? && d.kind.BondKind?
    ensures HoldsBond(Head(d), d.kind.bond)
  {
    HeadOwned(d);
    BondOwned(Head(d), d.kind.bond);
    BondLabels(Head(d), d.kind.bond);
  }

  lemma CompiledVlan(d: Interface)
    requires Get(d).Ok? && d.kind.VlanKind?
    ensures HoldsVlan(Head(d), d.kind.vlan)
  {
    HeadOwned(d);
    VlanLabels(Head(d), d.kind.vlan);
  }

  lemma CompiledEthernet(d: Interface)
    requires Get(d).Ok? && d.kind.EthernetKind?
    ensures Values(Head(d), BRIDGE_PORTS) == [] && Values(Head(d), BOND_SLAVES) == []
    ensures Values(Head(d), VLAN_RAW_DEVICE) == []
  {
    HeadOwned(d);
    EthernetLabels(Head(d));
  }

  /** A bridge lists its ports by their name attributes. */
  lemma CompiledBridge(d: Interface, names: seq<string>)
    requires Get(d).Ok? && d.kind.BridgeKind? && Named(d.kind.ports, names)
    ensures Values(Head(d), BRIDGE_PORTS) == [if names == [] then "none" else Join(names, ' ')]
    ensures Values(Head(d), BRIDGE_STP) == Opt(d.kind.stp) && Values(Head(d), BRIDGE_FD) == Opt(d.kind.delay)
    ensures Values(Head(d), BOND_SLAVES) == [] && Values(Head(d), VLAN_RAW_DEVICE) == []
  {
    HeadOwned(d);
    assert PortAttrs(d.kind.ports) == names;
    BridgeLabels(Head(d), NameList(names), d.kind.stp, d.kind.delay);
    BridgeOnly(Head(d), NameList(names), d.kind.stp, d.kind.delay);
  }

  lemma HeadOwned(d: Interface)
    requires Get(d).Ok?
    ensures OwnNodes(Head(d), KindNodes(d.kind))
  {
    forall name | PartOf(name) == Own
      ensures Values(Head(d), name) == Values(KindNodes(d.kind), name)
    {
      HeadOwn(d, name);
    }
  }

  // ---- addressing ----

  ghost predicate SameAddressing(n: seq<Node>, m: seq<Node>) {
    forall name | PartOf(name) == Proto :: Values(n, name) == Values(m, name)
  }

  lemma HeadAddressing(d: Interface)
    requires Get(d).Ok?
    ensures SameAddressing(Head(d), FirstNodes(NameAttr(d.kind), Protocols(d.addressing)).value)
  {
    forall name | PartOf(name) == Proto
      ensures Values(Head(d), name) == Values(FirstNodes(NameAttr(d.kind), Protocols(d.addressing)).value, name)
    {
      HeadProto(d, name);
    }
  }

  lemma SameHolds(n: seq<Node>, m: seq<Node>, key: string, p: Protocol)
    requires SameAddressing(n, m)
    ensures p.P4? && HoldsIPv4(m, p.ipv4) ==> HoldsIPv4(n, p.ipv4)
    ensures p.P6? && HoldsIPv6(m, key, p.ipv6) ==> HoldsIPv6(n, key, p.ipv6)
  {
  }

  /** Without a protocol the one stanza is manual. */
  lemma CompiledManual(d: Interface)
    requires Get(d).Ok? && d.addressing.ipv4.None? && d.addressing.ipv6.None?
    ensures Addressed(Head(d), "inet", "manual", [], [], []) && Values(Head(d), UP) == [] && Values(Head(d), DOWN) == []
  {
    HeadAddressing(d);
    ValuesPairs("manual");
  }

  /** The first protocol of the document is that of the first stanza. */
  lemma CompiledFirst(d: Interface)
    requires Get(d).Ok?
    ensures d.addressing.ipv4.Some? && (d.addressing.v6First ==> d.addressing.ipv6.None?) ==>
      HoldsIPv4(Head(d), d.addressing.ipv4.value)
    ensures d.addressing.ipv6.Some? && (d.addressing.v6First || d.addressing.ipv4.None?) ==>
      HoldsIPv6(Head(d), Get(d).value.iface[0].key, d.addressing.ipv6.value)
  {
    var key, protocols := NameAttr(d.kind), Protocols(d.addressing);
    if protocols != [] {
      HeadAddressing(d);
      var nodes := ProtocolNodes(key, protocols[0]).value;
      if protocols[0].P4? {
        IPv4Labels(protocols[0].ipv4);
      } else {
        IPv6Labels(key, protocols[0].ipv6);
      }
      SameHolds(Head(d), nodes, key, protocols[0]);
    }
  }

  lemma SecondForm(d: Interface)
    requires Get(d).Ok? && d.addressing.ipv4.Some? && d.addressing.ipv6.Some?
    ensures var name, second := NameAttr(d.kind), Protocols(d.addressing)[1];
      |Get(d).value.iface| >= 2 && ProtocolNodes(name, second).Ok?
      && Get(d).value.iface[0].key == name
      && Get(d).value.iface[1] == Stanza(name, ProtocolNodes(name, second).value)
  {
  }

  /** With both protocols there is a second stanza of the same key, which holds the second one. */
  lemma CompiledSecond(d: Interface)
    requires Get(d).Ok? && d.addressing.ipv4.Some? && d.addressing.ipv6.Some?
    ensures var f := Get(d).value.iface;
      |f| >= 2 && f[1].key == f[0].key
      && (if d.addressing.v6First then HoldsIPv4(f[1].nodes, d.addressing.ipv4.value)
          else HoldsIPv6(f[1].nodes, f[1].key, d.addressing.ipv6.value))
  {
    SecondForm(d);
    if d.addressing.v6First {
      IPv4Labels(d.addressing.ipv4.value);
    } else {
      IPv6Labels(NameAttr(d.kind), d.addressing.ipv6.value);
    }
  }

  // ---- what runs around an interface ----

  lemma RestHooks(d: Interface, vlans: bool, name: Label)
    requires name == PRE_UP || name == POST_DOWN
    ensures Values(Rest(d, vlans), name) == Values(Hooks(Ports(d.kind), vlans), name)
  {
    var misc, own, hooks := Written(MiscEntries(d)), KindNodes(d.kind), Hooks(Ports(d.kind), vlans);
    MiscValues(d, name);
    KindWithin(d.kind);
    ValuesThree(misc, own, hooks, name);
    ValuesAbsent(own, name);
  }

  /** IPv6 comes first in the document. */
  predicate IPv6First(a: Addressing) {
    a.ipv6.Some? && (a.v6First || a.ipv4.None?)
  }

  lemma FirstProtocol(d: Interface)
    requires Get(d).Ok?
    ensures var key, protocols := Get(d).value.iface[0].key, Protocols(d.addressing);
      key == NameAttr(d.kind) && FirstNodes(key, protocols).Ok?
      && ((protocols == [] || protocols[0].P4? || protocols[0].ipv6.autoconf)
          <==> (IPv6First(d.addressing) ==> d.addressing.ipv6.value.autoconf))
  {
  }

  lemma FirstAutoconf(d: Interface, up: seq<string>, down: seq<string>)
    requires Get(d).Ok?
    requires Autoconf(up, down, Get(d).value.iface[0].key, IPv6First(d.addressing) ==> d.addressing.ipv6.value.autoconf)
    ensures var n := FirstNodes(NameAttr(d.kind), Protocols(d.addressing));
      n.Ok? && Values(n.value, PRE_UP) == up && Values(n.value, POST_DOWN) == down
  {
    FirstProtocol(d);
    FirstHooks(NameAttr(d.kind), Protocols(d.addressing));
  }

  /** up and down are the commands of the address configuration; those of the ports follow. */
  lemma CompiledHooks(d: Interface, up: seq<string>, down: seq<string>)
    requires Get(d).Ok?
    requires Autoconf(up, down, Get(d).value.iface[0].key, IPv6First(d.addressing) ==> d.addressing.ipv6.value.autoconf)
    ensures var ports := if d.kind.BridgeKind? then d.kind.ports else [];
      var vlans := d.addressing.ipv4.Some? || d.addressing.ipv6.Some?;
      Values(Head(d), PRE_UP) == up + HookTexts("ifup ", ports, vlans)
      && Values(Head(d), POST_DOWN) == down + HookTexts("ifdown ", ports, vlans)
  {
    var vlans := Protocols(d.addressing) != [];
    assert vlans == (d.addressing.ipv4.Some? || d.addressing.ipv6.Some?);
    FirstAutoconf(d, up, down);
    HeadHooks(d, PRE_UP);
    HeadHooks(d, POST_DOWN);
    HookValues(Ports(d.kind), vlans);
  }

  lemma HeadHooks(d: Interface, name: Label)
    requires Get(d).Ok? && (name == PRE_UP || name == POST_DOWN)
    ensures var protocols := Protocols(d.addressing);
      FirstNodes(NameAttr(d.kind), protocols).Ok?
      && Values(Head(d), name) == Values(FirstNodes(NameAttr(d.kind), protocols).value, name)
                                  + Values(Hooks(Ports(d.kind), protocols != []), name)
  {
    var protocols := Protocols(d.addressing);
    ValuesConcat(FirstNodes(NameAttr(d.kind), protocols).value, Rest(d, protocols != []), name);
    RestHooks(d, protocols != [], name);
  }

  /** The second stanza runs only the commands of its own address configuration. */
  lemma CompiledSecondHooks(d: Interface)
    requires Get(d).Ok? && d.addressing.ipv4.Some? && d.addressing.ipv6.Some?
    ensures var f := Get(d).value.iface;
      |f| >= 2 && Autoconf(Values(f[1].nodes, PRE_UP), Values(f[1].nodes, POST_DOWN), f[1].key,
                           d.addressing.v6First || d.addressing.ipv6.value.autoconf)
  {
    SecondForm(d);
    FirstHooks(NameAttr(d.kind), [Protocols(d.addressing)[1]]);
  }

  // ---- the stanzas of the ports ----

  /** After the stanzas of the interface, one for each protocol and at least one, come those of its ports. */
  lemma CompiledPorts(d: Interface)
    requires Get(d).Ok?
    ensures var f, heads := Get(d).value.iface, if d.addressing.ipv4.Some? && d.addressing.ipv6.Some? then 2 else 1;
      |f| >= heads && HoldPorts(f[heads..], if d.kind.BridgeKind? then d.kind.ports else [])
  {
    var f := Get(d).value.iface;
    var heads := Heads(d).value;
    assert f == heads + PortStanzas(Ports(d.kind));
    assert f[|heads|..] == PortStanzas(Ports(d.kind));
    PortsHold(Ports(d.kind));
  }
}
