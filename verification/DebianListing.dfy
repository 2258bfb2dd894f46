// Listing in src/drv_debian.c: splitting bridge_ports and bond_slaves, the dedupe loop and the
// in-place filter, and what they amount to on the stanzas of a document.
module DebianListing {
  import opened Text
  import opened Document
  import opened Debian
  import opened DebianImage
  import opened Names
  import RedHatListing
  import DebianAddressing
  import DebianRoundTrip

  // ---- what the loops compute ----

  /** The pieces between blanks; an empty piece at the end is not one. */
  function SplitDeps(devs: string): seq<string>
    decreases |devs|
  {
    var i := IndexOf(devs, ' ');
    if i == |devs| then [devs]
    else [devs[..i]] + if i + 1 == |devs| then [] else SplitDeps(devs[i + 1..])
  }

  function Deps(devs: string): seq<string> {
    if devs == "none" then [] else SplitDeps(devs)
  }

  function AllDeps(values: seq<string>): seq<string> {
    if values == [] then [] else Deps(values[0]) + AllDeps(values[1..])
  }

  /** The values a match on iface/LABEL runs over. */
  function ValuesIn(iface: seq<Stanza>, name: Label): seq<string> {
    if iface == [] then [] else Values(iface[0].nodes, name) + ValuesIn(iface[1..], name)
  }

  function AllSlaves(iface: seq<Stanza>): seq<string> {
    AllDeps(ValuesIn(iface, BRIDGE_PORTS)) + AllDeps(ValuesIn(iface, BOND_SLAVES))
  }

  function Keys(iface: seq<Stanza>): seq<string> {
    seq(|iface|, i requires 0 <= i < |iface| => iface[i].key)
  }

  function Without(names: seq<string>, slaves: seq<string>): seq<string> {
    if names == [] then []
    else (if names[0] in slaves then [] else [names[0]]) + Without(names[1..], slaves)
  }

  /** The names that are no port and no slave. */
  function TopNames(iface: seq<Stanza>): set<string> {
    set x | x in Keys(iface) && x !in AllSlaves(iface)
  }

  lemma {:induction false} WithoutSorted(names: seq<string>, slaves: seq<string>)
    requires StrictlySorted(names)
    ensures StrictlySorted(Without(names, slaves))
    ensures forall x :: x in Without(names, slaves) <==> x in names && x !in slaves
  {
    if names != [] {
      WithoutSorted(names[1..], slaves);
      var r := Without(names[1..], slaves);
      forall j | 0 <= j < |r|
        ensures Less(names[0], r[j])
      {
        assert r[j] in r;
        var k :| 0 <= k < |names[1..]| && names[1..][k] == r[j];
        assert names[k + 1] == r[j];
      }
    }
  }

  /** Filtering the sorted keys gives the sorted list of the top names. */
  lemma ListingSorted(iface: seq<Stanza>)
    ensures Without(Sorted(ToSet(Keys(iface))), AllSlaves(iface)) == Sorted(TopNames(iface))
  {
    var names := Sorted(ToSet(Keys(iface)));
    WithoutSorted(names, AllSlaves(iface));
    assert forall x :: x in names <==> x in ToSet(names);
    SortedUnique(Without(names, AllSlaves(iface)), Sorted(TopNames(iface)));
  }

  // ---- the loops ----

  /** The do-while loop of interface_deps over one value. */
  method AppendDeps(slaves: seq<string>, devs: string) returns (r: seq<string>)
    ensures r == slaves + SplitDeps(devs)
  {
    r := slaves;
    var rest := devs;
    var more := true;
    while more
      invariant r + (if more then SplitDeps(rest) else []) == slaves + SplitDeps(devs)
      decreases |rest|, more
    {
      var skip := IndexOf(rest, ' ');
      NextDep(r, rest, skip);
      r := r + [rest[..skip]];
      if skip < |rest| {
        rest := rest[skip + 1..];
        more := rest != "";
      } else {
        more := false;
      }
    }
  }

  lemma NextDep(r: seq<string>, devs: string, skip: nat)
    requires skip == IndexOf(devs, ' ')
    ensures r + SplitDeps(devs)
         == (r + [devs[..skip]]) + if skip < |devs| && devs[skip + 1..] != "" then SplitDeps(devs[skip + 1..]) else []
  {
    if skip < |devs| && skip + 1 < |devs| {
      Assoc(r, [devs[..skip]], SplitDeps(devs[skip + 1..]));
    } else {
      assert skip == |devs| ==> devs[..skip] == devs;
      NoneBeside([devs[..skip]]);
      NoneBeside(r + [devs[..skip]]);
    }
  }

  lemma NextValue(slaves: seq<string>, values: seq<string>, i: nat)
    requires i < |values|
    ensures slaves + AllDeps(values[i..]) == (slaves + Deps(values[i])) + AllDeps(values[i + 1..])
    ensures values[i] == "none" ==> slaves + AllDeps(values[i..]) == slaves + AllDeps(values[i + 1..])
  {
    assert values[i..][0] == values[i] && values[i..][1..] == values[i + 1..];
    Assoc(slaves, Deps(values[i]), AllDeps(values[i + 1..]));
    assert slaves + [] == slaves;
  }

  /** interface_deps over the values of a match. */
  method InterfaceDeps(values: seq<string>) returns (slaves: seq<string>)
    ensures slaves == AllDeps(values)
  {
    slaves := [];
    for i := 0 to |values|
      invariant slaves + AllDeps(values[i..]) == AllDeps(values)
    {
      NextValue(slaves, values, i);
      if values[i] == "none" {
        continue;
      }
      slaves := AppendDeps(slaves, values[i]);
    }
    assert values[|values|..] == [];
  }

  method CollectSlaves(iface: seq<Stanza>) returns (slaves: seq<string>)
    ensures slaves == AllSlaves(iface)
  {
    var ports := InterfaceDeps(ValuesIn(iface, BRIDGE_PORTS));
    var bonded := InterfaceDeps(ValuesIn(iface, BOND_SLAVES));
    slaves := ports + bonded;
  }

  /** is_slave. */
  method IsSlave(iface: seq<Stanza>, intf: string) returns (r: bool)
    ensures r <==> intf in AllSlaves(iface)
  {
    var slaves := CollectSlaves(iface);
    r := Occurs(intf, slaves);
  }

  method Occurs(intf: string, slaves: seq<string>) returns (r: bool)
    ensures r <==> intf in slaves
  {
    for i := 0 to |slaves|
      invariant forall j | 0 <= j < i :: intf != slaves[j]
    {
      if intf == slaves[i] {
        return true;
      }
    }
    r := false;
  }

  /** drv_lookup_by_name through has_config. */
  method HasConfig(iface: seq<Stanza>, name: string) returns (r: bool)
    ensures r <==> name in TopNames(iface)
  {
    if name !in Keys(iface) {
      return false;
    }
    var slave := IsSlave(iface, name);
    r := !slave;
  }

  lemma WithoutStep(done: seq<string>, rest: seq<string>, slaves: seq<string>)
    requires rest != []
    ensures done + Without(rest, slaves)
         == (if rest[0] in slaves then done else done + [rest[0]]) + Without(rest[1..], slaves)
  {
    var u := Without(rest[1..], slaves);
    NoneBeside(u);
    Assoc(done, [rest[0]], u);
  }

  /** list_interfaces: the distinct names, sorted, with the slaves squeezed out of the array in place. */
  method ListInterfaces(iface: seq<Stanza>) returns (intf: array<string>, result: nat)
    ensures result <= intf.Length
    ensures intf[..result] == Sorted(TopNames(iface))
  {
    intf, result := RedHatListing.UniqNames(Keys(iface));
    result := Squeeze(iface, intf, result);
    ListingSorted(iface);
  }

  method Squeeze(iface: seq<Stanza>, intf: array<string>, nint: nat) returns (result: nat)
    requires nint <= intf.Length
    modifies intf
    ensures result <= nint
    ensures intf[..result] == Without(old(intf[..nint]), AllSlaves(iface))
  {
    ghost var was, slaves := intf[..nint], AllSlaves(iface);
    ghost var kept: seq<string>, rest := [], was;
    result := nint;
    var i := 0;
    while i < result
      invariant i == |kept| <= result == |kept| + |rest| <= nint
      invariant RedHatListing.Laid(intf[..], kept, rest)
      invariant kept + Without(rest, slaves) == Without(was, slaves)
      decreases result - i
    {
      WithoutStep(kept, rest, slaves);
      RedHatListing.LaidKeep(intf[..], kept, rest);
      var slave := IsSlave(iface, intf[i]);
      if slave {
        ghost var before := intf[..];
        RedHatListing.MoveDown(intf, i, nint);
        RedHatListing.LaidMove(before, intf[..], kept, rest, nint);
        result := result - 1;
      } else {
        kept := kept + [rest[0]];
        i := i + 1;
      }
      rest := rest[1..];
    }
  }

  // ---- splitting inverts the compiler's joining ----

  lemma {:induction false} SplitDepsJoin(names: seq<string>)
    requires names != [] && forall n | n in names :: n != "" && ' ' !in n
    ensures SplitDeps(Join(names, ' ')) == names
    ensures Join(names, ' ') != ""
  {
    var n := names[0];
    assert n in names;
    if |names| == 1 {
      LastDep(n);
    } else {
      var rest := Join(names[1..], ' ');
      assert forall m | m in names[1..] :: m in names;
      SplitDepsJoin(names[1..]);
      FirstDep(n, rest);
      assert [n] + names[1..] == names;
    }
  }

  lemma LastDep(n: string)
    requires ' ' !in n
    ensures SplitDeps(n) == [n]
  {
    var i := IndexOf(n, ' ');
    assert i == |n|;
  }

  lemma FirstDep(n: string, rest: string)
    requires ' ' !in n && rest != ""
    ensures SplitDeps(n + [' '] + rest) == [n] + SplitDeps(rest)
  {
    BeforeAfter(n, ' ', rest);
    var s := n + [' '] + rest;
    assert s[..|n|] == n && s[|n| + 1..] == rest;
  }

  /** The names the compiler joined come back, unless "none" is the only one. */
  lemma DepsBack(names: seq<string>)
    requires forall n | n in names :: DeviceName(n)
    ensures Deps(NameList(names)) == names <==> names != ["none"]
  {
    DebianRoundTrip.NoneList(names);
    if names != [] {
      forall n | n in names
        ensures n != "" && ' ' !in n
      {
        assert !NameChar(' ');
      }
      SplitDepsJoin(names);
    }
  }

  // ---- the listing of a compiled document ----

  lemma {:induction false} ValuesInConcat(a: seq<Stanza>, b: seq<Stanza>, name: Label)
    ensures ValuesIn(a + b, name) == ValuesIn(a, name) + ValuesIn(b, name)
  {
    if a == [] {
      assert a + b == b;
    } else {
      assert (a + b)[0] == a[0] && (a + b)[1..] == a[1..] + b;
      ValuesInConcat(a[1..], b, name);
      Assoc(Values(a[0].nodes, name), ValuesIn(a[1..], name), ValuesIn(b, name));
    }
  }

  lemma {:induction false} AllDepsConcat(a: seq<string>, b: seq<string>)
    ensures AllDeps(a + b) == AllDeps(a) + AllDeps(b)
  {
    if a == [] {
      assert a + b == b;
    } else {
      assert (a + b)[0] == a[0] && (a + b)[1..] == a[1..] + b;
      AllDepsConcat(a[1..], b);
      Assoc(Deps(a[0]), AllDeps(a[1..]), AllDeps(b));
    }
  }

  function SlavesOf(k: Kind): set<string> {
    match k
    case BondKind(_, bond) => ToSet(SlaveNames(bond.slaves))
    case BridgeKind(_, _, _, ports) => PortSlaves(ports)
    case _ => {}
  }

  /** The stanzas of the root interface hold the ports and slaves of its kind. */
  lemma HeadValues(d: Interface, name: Label)
    requires Heads(d).Ok? && PartOf(name) == Own
    ensures ValuesIn(Heads(d).value, name) == Values(KindNodes(d.kind), name)
  {
    var key, protocols := NameAttr(d.kind), Protocols(d.addressing);
    var first, second := FirstNodes(key, protocols).value, SecondStanza(key, protocols).value;
    var head := Stanza(key, first + Rest(d, protocols != []));
    DebianAddressing.FirstWithin(key, protocols);
    DebianRoundTrip.FirstOwn(first, d, protocols != [], name);
    OneStanza(head, name);
    ValuesInConcat([head], second, name);
    if second != [] {
      DebianAddressing.ProtocolWithin(key, protocols[1]);
      ValuesAbsent(second[0].nodes, name);
      OneStanza(second[0], name);
    }
  }

  lemma OneStanza(s: Stanza, name: Label)
    ensures ValuesIn([s], name) == Values(s.nodes, name)
  {
    assert [s][1..] == [];
    assert Values(s.nodes, name) + [] == Values(s.nodes, name);
  }

  lemma ManualStanza(key: string, own: seq<Node>, name: Label)
    requires PartOf(name) == Own
    ensures ValuesIn([Stanza(key, Manual() + own)], name) == Values(own, name)
  {
    OneStanza(Stanza(key, Manual() + own), name);
    ManualValues(own, name);
  }

  lemma PortValue(p: Port, name: Label)
    requires name == BRIDGE_PORTS || name == BOND_SLAVES
    ensures ValuesIn(PortStanza(p), name)
         == if p.BondPort? && name == BOND_SLAVES then [NameList(SlaveNames(p.bond.slaves))] else []
  {
    match p {
      case EthernetPort(_) =>
      case VlanPort(v) =>
        ManualStanza(PortAttr(p), VlanNodes(v), name);
        ValuesAbsent(VlanNodes(v), name);
      case BondPort(_, bond) =>
        ManualStanza(PortAttr(p), BondNodes(bond), name);
        BondValues(bond, name);
    }
  }

  function PortSlaves(ports: seq<Port>): set<string> {
    set p, x | p in ports && p.BondPort? && x in SlaveNames(p.bond.slaves) :: x
  }

  /** Splitting a list of names gives no other names. */
  lemma DepsAmong(names: seq<string>)
    requires forall n | n in names :: DeviceName(n)
    ensures forall x | x in Deps(NameList(names)) :: x in names
  {
    if names == ["none"] {
      assert Join(names, ' ') == "none";
    } else {
      DepsBack(names);
    }
  }

  lemma SlavesAmong(b: Bond)
    requires ValidBond(b)
    ensures forall x | x in Deps(NameList(SlaveNames(b.slaves))) :: x in SlaveNames(b.slaves)
  {
    forall n | n in SlaveNames(b.slaves)
      ensures DeviceName(n)
    {
      var i :| 0 <= i < |b.slaves| && SlaveNames(b.slaves)[i] == n;
      assert b.slaves[i] in b.slaves;
    }
    DepsAmong(SlaveNames(b.slaves));
  }

  lemma OneDeps(devs: string)
    ensures AllDeps([devs]) == Deps(devs)
  {
    assert [devs][1..] == [];
    assert Deps(devs) + [] == Deps(devs);
  }

  lemma {:induction false} PortsValues(ports: seq<Port>)
    requires forall p | p in ports :: ValidPort(p)
    ensures ValuesIn(PortStanzas(ports), BRIDGE_PORTS) == []
    ensures forall x | x in AllDeps(ValuesIn(PortStanzas(ports), BOND_SLAVES)) :: x in PortSlaves(ports)
  {
    if ports != [] {
      var p, rest := ports[0], ports[1..];
      assert p in ports;
      assert forall q | q in rest :: q in ports;
      PortsValues(rest);
      PortValue(p, BRIDGE_PORTS);
      PortValue(p, BOND_SLAVES);
      ValuesInConcat(PortStanza(p), PortStanzas(rest), BRIDGE_PORTS);
      ValuesInConcat(PortStanza(p), PortStanzas(rest), BOND_SLAVES);
      AllDepsConcat(ValuesIn(PortStanza(p), BOND_SLAVES), ValuesIn(PortStanzas(rest), BOND_SLAVES));
      if p.BondPort? {
        SlavesAmong(p.bond);
        OneDeps(NameList(SlaveNames(p.bond.slaves)));
      }
    }
  }

  lemma KindValues(k: Kind, name: Label)
    requires name == BRIDGE_PORTS || name == BOND_SLAVES
    ensures Values(KindNodes(k), name)
         == if k.BridgeKind? && name == BRIDGE_PORTS then [NameList(PortAttrs(k.ports))]
            else if k.BondKind? && name == BOND_SLAVES then [NameList(SlaveNames(k.bond.slaves))]
            else []
  {
    match k {
      case EthernetKind(_) =>
      case VlanKind(v) => ValuesAbsent(VlanNodes(v), name);
      case BridgeKind(_, stp, delay, ports) =>
        var e := BridgeEntries(stp, delay, ports);
        Written3(e[0], e[1], e[2], name);
      case BondKind(_, bond) => BondValues(bond, name);
    }
  }

  /** The ports as interface_deps finds them in the compiled document. */
  function ListedPorts(k: Kind): seq<string> {
    if PortAttrs(Ports(k)) == ["none"] then [] else PortAttrs(Ports(k))
  }

  lemma CompiledPorts(d: Interface)
    requires ValidKind(d.kind) && PortsNamed(Ports(d.kind)) && Get(d).Ok?
    ensures AllDeps(ValuesIn(Get(d).value.iface, BRIDGE_PORTS)) == ListedPorts(d.kind)
  {
    var k := d.kind;
    HeadValues(d, BRIDGE_PORTS);
    KindValues(k, BRIDGE_PORTS);
    PortsValues(Ports(k));
    ValuesInConcat(Heads(d).value, PortStanzas(Ports(k)), BRIDGE_PORTS);
    if k.BridgeKind? {
      var names := PortAttrs(k.ports);
      DebianRoundTrip.PortNamesValid(k.ports);
      OneDeps(NameList(names));
      if names == ["none"] {
        assert Join(names, ' ') == "none";
      } else {
        DepsBack(names);
      }
    }
  }

  lemma CompiledSlaves(d: Interface)
    requires ValidKind(d.kind) && Get(d).Ok?
    ensures forall x | x in AllDeps(ValuesIn(Get(d).value.iface, BOND_SLAVES)) :: x in SlavesOf(d.kind)
  {
    var heads, ports := ValuesIn(Heads(d).value, BOND_SLAVES), ValuesIn(PortStanzas(Ports(d.kind)), BOND_SLAVES);
    ValuesInConcat(Heads(d).value, PortStanzas(Ports(d.kind)), BOND_SLAVES);
    AllDepsConcat(heads, ports);
    HeadValues(d, BOND_SLAVES);
    HeadSlaves(d.kind);
    PortsValues(Ports(d.kind));
    SlavesOfPorts(d.kind);
  }

  lemma HeadSlaves(k: Kind)
    requires ValidKind(k)
    ensures forall x | x in AllDeps(Values(KindNodes(k), BOND_SLAVES)) :: x in SlavesOf(k)
  {
    KindValues(k, BOND_SLAVES);
    if k.BondKind? {
      SlavesAmong(k.bond);
      OneDeps(NameList(SlaveNames(k.bond.slaves)));
    }
  }

  lemma SlavesOfPorts(k: Kind)
    ensures PortSlaves(Ports(k)) <= SlavesOf(k)
  {
  }

  /** A port with a stanza of its own has the name. */
  ghost predicate KeyOf(ports: seq<Port>, x: string) {
    exists i :: 0 <= i < |ports| && !ports[i].EthernetPort? && PortAttr(ports[i]) == x
  }

  lemma KeyOfFirst(ports: seq<Port>, x: string)
    requires ports != []
    ensures KeyOf(ports, x) <==> (!ports[0].EthernetPort? && PortAttr(ports[0]) == x) || KeyOf(ports[1..], x)
  {
    if KeyOf(ports[1..], x) {
      var i :| 0 <= i < |ports[1..]| && !ports[1..][i].EthernetPort? && PortAttr(ports[1..][i]) == x;
      assert ports[i + 1] == ports[1..][i];
    }
    if KeyOf(ports, x) {
      var i :| 0 <= i < |ports| && !ports[i].EthernetPort? && PortAttr(ports[i]) == x;
      assert i > 0 ==> ports[1..][i - 1] == ports[i];
    }
  }

  lemma {:induction false} PortKeys(ports: seq<Port>, x: string)
    ensures x in Keys(PortStanzas(ports)) <==> KeyOf(ports, x)
  {
    if ports != [] {
      PortKeys(ports[1..], x);
      KeyOfFirst(ports, x);
      var first, rest := PortStanza(ports[0]), PortStanzas(ports[1..]);
      KeysConcat(first, rest);
      assert Keys(first) == if ports[0].EthernetPort? then [] else [PortAttr(ports[0])];
    }
  }

  lemma HeadKeys(d: Interface, x: string)
    requires Heads(d).Ok?
    ensures x in Keys(Heads(d).value) <==> x == NameAttr(d.kind)
  {
    var keys := Keys(Heads(d).value);
    assert |keys| > 0 && keys[0] == NameAttr(d.kind);
    assert |keys| > 1 ==> keys[1] == NameAttr(d.kind);
  }

  lemma KeysConcat(a: seq<Stanza>, b: seq<Stanza>)
    ensures Keys(a + b) == Keys(a) + Keys(b)
  {
  }

  lemma CompiledKeys(d: Interface, x: string)
    requires Get(d).Ok?
    ensures x in Keys(Get(d).value.iface) <==> x == NameAttr(d.kind) || KeyOf(Ports(d.kind), x)
  {
    var heads, ports := Heads(d).value, PortStanzas(Ports(d.kind));
    HeadKeys(d, x);
    PortKeys(Ports(d.kind), x);
    KeysConcat(heads, ports);
  }

  /** The names of bond slaves are those of no stanza. */
  ghost predicate SlavesApart(k: Kind) {
    forall x | x in SlavesOf(k) :: x != NameAttr(k) && x !in PortAttrs(Ports(k))
  }

  lemma CompiledSlave(d: Interface, x: string)
    requires ValidInterface(d) && PortsNamed(Ports(d.kind)) && SlavesApart(d.kind) && Get(d).Ok?
    requires x == NameAttr(d.kind) || x in PortAttrs(Ports(d.kind))
    ensures x in AllSlaves(Get(d).value.iface) <==> x in ListedPorts(d.kind)
  {
    CompiledPorts(d);
    CompiledSlaves(d);
    assert x !in SlavesOf(d.kind);
  }

  lemma KeyOfAttr(ports: seq<Port>, x: string)
    requires KeyOf(ports, x)
    ensures x in PortAttrs(ports)
  {
    var i :| 0 <= i < |ports| && !ports[i].EthernetPort? && PortAttr(ports[i]) == x;
    assert PortAttrs(ports)[i] == x;
  }

  lemma CompiledTop(d: Interface, x: string)
    requires ValidInterface(d) && DistinctNames(d.kind) && PortsNamed(Ports(d.kind)) && SlavesApart(d.kind)
    requires Get(d).Ok?
    ensures x in TopNames(Get(d).value.iface)
       <==> x == NameAttr(d.kind) || (KeyOf(Ports(d.kind), x) && ListedPorts(d.kind) == [])
  {
    CompiledKeys(d, x);
    if KeyOf(Ports(d.kind), x) {
      KeyOfAttr(Ports(d.kind), x);
    }
    if x == NameAttr(d.kind) || KeyOf(Ports(d.kind), x) {
      CompiledSlave(d, x);
    }
  }

  /** The one port is a bond or a VLAN with the name "none". */
  ghost predicate OnlyNone(ports: seq<Port>) {
    PortAttrs(ports) == ["none"] && KeyOf(ports, "none")
  }

  /**
   * Of a compiled document only the root is listed, unless its one port is a bond or a VLAN named
   * "none", which is then listed too.
   */
  lemma ListingCompiled(d: Interface)
    requires ValidInterface(d) && DistinctNames(d.kind) && PortsNamed(Ports(d.kind)) && SlavesApart(d.kind)
    requires Get(d).Ok?
    ensures TopNames(Get(d).value.iface) == {NameAttr(d.kind)} <==> !OnlyNone(Ports(d.kind))
  {
    var k, top := d.kind, TopNames(Get(d).value.iface);
    forall x
      ensures x in top <==> x == NameAttr(k) || (KeyOf(Ports(k), x) && ListedPorts(k) == [])
    {
      CompiledTop(d, x);
    }
    if PortAttrs(Ports(k)) == ["none"] {
      assert NameAttr(k) != "none";
      forall x | KeyOf(Ports(k), x)
        ensures x == "none"
      {
        KeyOfAttr(Ports(k), x);
      }
    } else if ListedPorts(k) == [] {
      assert |PortAttrs(Ports(k))| == |Ports(k)| == 0;
    }
  }
}
