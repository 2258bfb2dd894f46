// A document with its enslaved interfaces sorted by name, and the sorted forest it is read back from.
module RedHatSorted {
  import opened Text
  import opened Document
  import opened RedHat
  import opened RedHatImage
  import opened RedHatRoundTrip
  import opened Names
  import BondOpts

  // ---- sorting what is enslaved ----

  function EthernetName(e: Ethernet): string {
    e.name
  }

  /** The slaves by name, except that the primary of an active-backup bond stays first. */
  function SortBond(b: Bond): Bond {
    var sorted := SortBy(EthernetName, b.slaves);
    var primary := if BondOpts.Primary(b).Some? then BondOpts.Primary(b).value else "";
    b.(slaves := Pick(sorted, primary, true) + Pick(sorted, primary, false))
  }

  function SortPort(p: Port): Port {
    if p.BondPort? then p.(bond := SortBond(p.bond)) else p
  }

  function SortPorts(ports: seq<Port>): seq<Port> {
    if ports == [] then [] else [SortPort(ports[0])] + SortPorts(ports[1..])
  }

  function SortKind(k: Kind): Kind {
    match k
    case BridgeKind(name, stp, delay, ports) => BridgeKind(name, stp, delay, SortPorts(SortBy(PortName, ports)))
    case BondKind(name, bond) => BondKind(name, SortBond(bond))
    case _ => k
  }

  /** The document with its enslaved interfaces sorted by name. */
  function SortDoc(d: Interface): Interface {
    d.(kind := SortKind(d.kind))
  }

  // ---- forests as sets ----

  ghost predicate SameTrees(a: Forest, b: Forest) {
    forall t :: t in a <==> t in b
  }

  function FileOf(t: Tree): string {
    t.file
  }

  /** Forests strictly sorted by file that hold the same trees are equal. */
  lemma {:induction false} SortedForestUnique(a: Forest, b: Forest)
    requires StrictBy(FileOf, a) && StrictBy(FileOf, b) && SameTrees(a, b)
    ensures a == b
  {
    if a == [] {
      assert forall i | 0 <= i < |b| :: b[i] in b;
    } else {
      assert a[0] in a && a[0] in b;
      assert b != [] && b[0] in b && b[0] in a;
      ForestHeads(a, b);
      assert a[0] !in a[1..] && b[0] !in b[1..];
      assert forall t :: t in a <==> t == a[0] || t in a[1..];
      assert forall t :: t in b <==> t == b[0] || t in b[1..];
      SortedForestUnique(a[1..], b[1..]);
      assert a == [a[0]] + a[1..] && b == [b[0]] + b[1..];
    }
  }

  lemma ForestHeads(a: Forest, b: Forest)
    requires StrictBy(FileOf, a) && StrictBy(FileOf, b) && a != [] && b != []
    requires a[0] in b && b[0] in a
    ensures a[0] == b[0]
  {
    var i :| 0 <= i < |b| && b[i] == a[0];
    var j :| 0 <= j < |a| && a[j] == b[0];
    LessTotal(a[0].file, b[0].file);
    assert forall k | 0 < k < |b| :: Less(FileOf(b[0]), FileOf(b[k]));
    assert forall k | 0 < k < |a| :: Less(FileOf(a[0]), FileOf(a[k]));
  }

  lemma {:induction false} SelectMember(f: Forest, link: Link, device: string, t: Tree)
    ensures t in Select(f, link, Some(device)) <==> t in f && Target(t.nodes, link) == Some(device)
  {
    if f != [] {
      SelectMember(f[1..], link, device, t);
    }
  }

  lemma {:induction false} SelectSorted(f: Forest, link: Link, device: string)
    requires StrictBy(FileOf, f)
    ensures StrictBy(FileOf, Select(f, link, Some(device)))
  {
    if f != [] {
      SelectSorted(f[1..], link, device);
      var r := Select(f[1..], link, Some(device));
      forall j | 0 <= j < |r|
        ensures Less(f[0].file, r[j].file)
      {
        assert r[j] in r;
        SelectMember(f[1..], link, device, r[j]);
        var k :| 0 <= k < |f[1..]| && f[1..][k] == r[j];
        assert f[k + 1] == r[j];
        assert Less(FileOf(f[0]), FileOf(f[k + 1]));
      }
    }
  }

  /** The links out of a sorted forest, given those out of any forest with the same trees. */
  lemma SelectSame(f: Forest, s: Forest, link: Link, device: string, sorted: Forest)
    requires SameTrees(f, s) && StrictBy(FileOf, s)
    requires StrictBy(FileOf, sorted) && SameTrees(sorted, Select(f, link, Some(device)))
    ensures Select(s, link, Some(device)) == sorted
  {
    SelectSorted(s, link, device);
    forall t
      ensures t in Select(s, link, Some(device)) <==> t in sorted
    {
      SelectMember(s, link, device, t);
      SelectMember(f, link, device, t);
    }
    SortedForestUnique(Select(s, link, Some(device)), sorted);
  }

  lemma SelectEmptySame(f: Forest, s: Forest, link: Link, device: string)
    requires SameTrees(f, s)
    ensures Select(f, link, Some(device)) == [] <==> Select(s, link, Some(device)) == []
  {
    var a, b := Select(f, link, Some(device)), Select(s, link, Some(device));
    forall t
      ensures t in a <==> t in b
    {
      SelectMember(f, link, device, t);
      SelectMember(s, link, device, t);
    }
    assert a != [] ==> a[0] in a;
    assert b != [] ==> b[0] in b;
  }

  // ---- a sorted forest of a document realises the sorted document ----

  lemma PrintSorted(b: Bond)
    requires ValidBond(b) && Distinct(SlaveNames(b.slaves))
    ensures BondOpts.Print(SortBond(b)) == BondOpts.Print(b) && PrimaryOf(SortBond(b)) == PrimaryOf(b)
    ensures ValidBond(SortBond(b))
    ensures BondOpts.Primary(SortBond(b)) == BondOpts.Primary(b)
  {
    var sorted := SortBy(EthernetName, b.slaves);
    var r := SortBond(b);
    SlavesDistinct(b.slaves);
    SortByResult(EthernetName, b.slaves);
    assert b.slaves[0] in sorted;
    if BondOpts.Primary(b).Some? {
      PickFirst(sorted, b.slaves[0]);
      PickMembers(sorted, b.slaves[0].name, true);
      PickMembers(sorted, b.slaves[0].name, false);
    } else {
      PickOthers(sorted, "");
    }
    assert BondOpts.Monitor(r) == BondOpts.Monitor(b);
  }

  lemma SlavesDistinct(slaves: seq<Ethernet>)
    requires Distinct(SlaveNames(slaves))
    ensures DistinctBy(EthernetName, slaves)
  {
    forall i, j | 0 <= i < j < |slaves|
      ensures EthernetName(slaves[i]) != EthernetName(slaves[j])
    {
      assert SlaveNames(slaves)[i] != SlaveNames(slaves)[j];
    }
  }

  lemma {:induction false} PickMembers(slaves: seq<Ethernet>, primary: string, want: bool)
    ensures forall e :: e in Pick(slaves, primary, want) <==> e in slaves && (e.name == primary) == want
  {
    if slaves != [] {
      PickMembers(slaves[1..], primary, want);
    }
  }

  /** Among distinct names, picking one slave's name gives that slave alone. */
  lemma {:induction false} PickFirst(slaves: seq<Ethernet>, e: Ethernet)
    requires StrictBy(EthernetName, slaves) && e in slaves
    ensures Pick(slaves, e.name, true) == [e]
  {
    if slaves[0] == e {
      assert forall k | 0 < k < |slaves| :: Less(EthernetName(slaves[0]), EthernetName(slaves[k]));
      forall x | x in slaves[1..]
        ensures x.name != e.name
      {
        var k :| 0 <= k < |slaves[1..]| && slaves[1..][k] == x;
        assert slaves[k + 1] == x;
      }
      PickOthers(slaves[1..], e.name);
    } else {
      var k :| 0 <= k < |slaves| && slaves[k] == e;
      assert Less(EthernetName(slaves[0]), EthernetName(slaves[k]));
      PickFirst(slaves[1..], e);
    }
  }

  lemma {:induction false} SlaveTreeAt(bond: string, common: Nodes, slaves: seq<Ethernet>, i: nat)
    requires i < |slaves|
    ensures |SlaveTrees(bond, common, slaves)| == |slaves|
    ensures SlaveTrees(bond, common, slaves)[i] == SlaveTree(bond, common, slaves[i])
  {
    if i > 0 {
      SlaveTreeAt(bond, common, slaves[1..], i - 1);
    } else if |slaves| > 1 {
      SlaveTreeAt(bond, common, slaves[1..], 0);
    }
  }

  lemma SlaveTreesSorted(bond: string, common: Nodes, slaves: seq<Ethernet>, sorted: seq<Ethernet>)
    requires StrictBy(EthernetName, sorted)
    requires forall e :: e in sorted <==> e in slaves
    ensures StrictBy(FileOf, SlaveTrees(bond, common, sorted))
    ensures SameTrees(SlaveTrees(bond, common, sorted), SlaveTrees(bond, common, slaves))
  {
    forall i | 0 <= i < |sorted|
      ensures |SlaveTrees(bond, common, sorted)| == |sorted|
      ensures SlaveTrees(bond, common, sorted)[i] == SlaveTree(bond, common, sorted[i])
    {
      SlaveTreeAt(bond, common, sorted, i);
    }
    forall i | 0 <= i < |slaves|
      ensures |SlaveTrees(bond, common, slaves)| == |slaves|
      ensures SlaveTrees(bond, common, slaves)[i] == SlaveTree(bond, common, slaves[i])
    {
      SlaveTreeAt(bond, common, slaves, i);
    }
    var a, b := SlaveTrees(bond, common, sorted), SlaveTrees(bond, common, slaves);
    assert sorted == [] ==> a == [];
    assert slaves == [] ==> b == [];
    forall i, j | 0 <= i < j < |a|
      ensures Less(FileOf(a[i]), FileOf(a[j]))
    {
      assert Less(EthernetName(sorted[i]), EthernetName(sorted[j]));
    }
    forall t
      ensures t in a <==> t in b
    {
      if t in a {
        var i :| 0 <= i < |a| && a[i] == t;
        assert sorted[i] in slaves;
        var j :| 0 <= j < |slaves| && slaves[j] == sorted[i];
        assert b[j] == t;
      }
      if t in b {
        var i :| 0 <= i < |b| && b[i] == t;
        assert slaves[i] in sorted;
        var j :| 0 <= j < |sorted| && sorted[j] == slaves[i];
        assert a[j] == t;
      }
    }
  }

  lemma {:induction false} PortTreeAt(bridge: string, common: Nodes, ports: seq<Port>, i: nat)
    requires i < |ports|
    ensures |PortTrees(bridge, common, ports)| == |ports|
    ensures PortTrees(bridge, common, ports)[i] == PortTree(bridge, common, ports[i])
  {
    if i > 0 {
      PortTreeAt(bridge, common, ports[1..], i - 1);
    } else if |ports| > 1 {
      PortTreeAt(bridge, common, ports[1..], 0);
    }
  }

  lemma PortTreesSorted(bridge: string, common: Nodes, ports: seq<Port>, sorted: seq<Port>)
    requires StrictBy(PortName, sorted)
    requires forall p :: p in sorted <==> p in ports
    ensures StrictBy(FileOf, PortTrees(bridge, common, sorted))
    ensures SameTrees(PortTrees(bridge, common, sorted), PortTrees(bridge, common, ports))
  {
    forall i | 0 <= i < |sorted|
      ensures |PortTrees(bridge, common, sorted)| == |sorted|
      ensures PortTrees(bridge, common, sorted)[i] == PortTree(bridge, common, sorted[i])
    {
      PortTreeAt(bridge, common, sorted, i);
    }
    forall i | 0 <= i < |ports|
      ensures |PortTrees(bridge, common, ports)| == |ports|
      ensures PortTrees(bridge, common, ports)[i] == PortTree(bridge, common, ports[i])
    {
      PortTreeAt(bridge, common, ports, i);
    }
    var a, b := PortTrees(bridge, common, sorted), PortTrees(bridge, common, ports);
    assert sorted == [] ==> a == [];
    assert ports == [] ==> b == [];
    forall i, j | 0 <= i < j < |a|
      ensures Less(FileOf(a[i]), FileOf(a[j]))
    {
      assert Less(PortName(sorted[i]), PortName(sorted[j]));
    }
    forall t
      ensures t in a <==> t in b
    {
      if t in a {
        var i :| 0 <= i < |a| && a[i] == t;
        assert sorted[i] in ports;
        var j :| 0 <= j < |ports| && ports[j] == sorted[i];
        assert b[j] == t;
      }
      if t in b {
        var i :| 0 <= i < |b| && b[i] == t;
        assert ports[i] in sorted;
        var j :| 0 <= j < |sorted| && sorted[j] == ports[i];
        assert a[j] == t;
      }
    }
  }

  lemma HasSlavesSorted(f: Forest, s: Forest, name: string, common: Nodes, b: Bond)
    requires SameTrees(f, s) && StrictBy(FileOf, s)
    requires ValidBond(b) && IsCommon(common) && Distinct(SlaveNames(b.slaves))
    requires Select(f, ToMaster, Some(name)) == SlaveTrees(name, common, b.slaves)
    ensures HasSlaves(s, name, SortBond(b))
  {
    var sorted := SortBy(EthernetName, b.slaves);
    var primary := PrimaryOf(b);
    SlavesDistinct(b.slaves);
    SortByResult(EthernetName, b.slaves);
    PrintSorted(b);
    BondOpts.LookupBond(b, "primary");
    SlaveTreesSorted(name, common, b.slaves, sorted);
    SelectSame(f, s, ToMaster, name, SlaveTrees(name, common, sorted));
    SlavesOfTrees(name, common, sorted, primary, true);
    SlavesOfTrees(name, common, sorted, primary, false);
  }

  lemma {:induction false} PortTreesOfSorted(bridge: string, common: Nodes, ports: seq<Port>)
    requires forall p | p in ports && p.BondPort? :: ValidBond(p.bond) && Distinct(SlaveNames(p.bond.slaves))
    ensures PortTrees(bridge, common, SortPorts(ports)) == PortTrees(bridge, common, ports)
  {
    if ports != [] {
      var p := ports[0];
      assert p in ports;
      if p.BondPort? {
        PrintSorted(p.bond);
      }
      PortTreesOfSorted(bridge, common, ports[1..]);
    }
  }

  lemma {:induction false} SortPortsMember(ports: seq<Port>, q: Port) returns (p: Port)
    requires q in SortPorts(ports)
    ensures p in ports && q == SortPort(p)
  {
    if q == SortPort(ports[0]) {
      p := ports[0];
    } else {
      p := SortPortsMember(ports[1..], q);
    }
  }

  lemma PortsDistinct(ports: seq<Port>)
    requires Distinct(PortsNames(ports))
    ensures DistinctBy(PortName, ports)
  {
    if ports != [] {
      DistinctParts(PortNames(ports[0]), PortsNames(ports[1..]));
      PortsDistinct(ports[1..]);
      forall j | 1 <= j < |ports|
        ensures PortName(ports[0]) != PortName(ports[j])
      {
        assert PortName(ports[0]) in PortNames(ports[0]);
        PortNamed(ports[1..], ports[j]);
      }
      assert forall i, j | 1 <= i < j < |ports| :: ports[i] == ports[1..][i - 1] && ports[j] == ports[1..][j - 1];
    }
  }

  lemma BondSorted(d: Interface, s: Forest)
    requires ValidInterface(d) && Distinct(Devices(d.kind)) && Get(d).Ok? && d.kind.BondKind?
    requires SameTrees(Get(d).value, s) && StrictBy(FileOf, s)
    ensures HasLinks(s, SortKind(d.kind))
  {
    var f, common, name, b := Get(d).value, CommonNodes(d), d.kind.name, d.kind.bond;
    var trees := SlaveTrees(name, common, b.slaves);
    CommonIsCommon(d);
    DistinctParts([name], SlaveNames(b.slaves));
    SlaveTreesShape(name, common, b.slaves);
    SelectTail(RootTree(d).value, trees, ToMaster, name);
    SelectAll(trees, ToMaster, name);
    HasSlavesSorted(f, s, name, common, b);
    SelectEmptySame(f, s, ToMaster, name);
  }

  lemma BridgePortSorted(d: Interface, s: Forest, p: Port)
    requires ValidInterface(d) && Distinct(Devices(d.kind)) && Get(d).Ok? && d.kind.BridgeKind?
    requires SameTrees(Get(d).value, s) && StrictBy(FileOf, s)
    requires p in d.kind.ports && p.BondPort?
    ensures HasSlaves(s, p.name, SortBond(p.bond))
    ensures ValidBond(p.bond) && Distinct(SlaveNames(p.bond.slaves))
  {
    var f, common, name, ports := Get(d).value, CommonNodes(d), d.kind.name, d.kind.ports;
    CommonIsCommon(d);
    DistinctParts([name], PortsNames(ports));
    SelectTail(RootTree(d).value, PortsForest(name, common, ports), ToMaster, p.name);
    SelectMaster(name, common, ports, p);
    PortDistinct(ports, p);
    assert ValidPort(p);
    HasSlavesSorted(f, s, p.name, common, p.bond);
  }

  lemma BridgePortsSorted(d: Interface, s: Forest)
    requires ValidInterface(d) && Distinct(Devices(d.kind)) && Get(d).Ok? && d.kind.BridgeKind?
    requires SameTrees(Get(d).value, s) && StrictBy(FileOf, s)
    ensures Select(s, ToBridge, Some(d.kind.name))
         == PortTrees(d.kind.name, CommonNodes(d), SortPorts(SortBy(PortName, d.kind.ports)))
  {
    var f, common, name, ports := Get(d).value, CommonNodes(d), d.kind.name, d.kind.ports;
    var sorted := SortBy(PortName, ports);
    CommonIsCommon(d);
    DistinctParts([name], PortsNames(ports));
    PortsDistinct(ports);
    SortByResult(PortName, ports);
    SelectTail(RootTree(d).value, PortsForest(name, common, ports), ToBridge, name);
    SelectPorts(name, common, ports);
    PortTreesSorted(name, common, ports, sorted);
    SelectSame(f, s, ToBridge, name, PortTrees(name, common, sorted));
    forall p | p in sorted && p.BondPort?
      ensures ValidBond(p.bond) && Distinct(SlaveNames(p.bond.slaves))
    {
      BridgePortSorted(d, s, p);
    }
    PortTreesOfSorted(name, common, sorted);
  }

  lemma BridgeSorted(d: Interface, s: Forest)
    requires ValidInterface(d) && Distinct(Devices(d.kind)) && Get(d).Ok? && d.kind.BridgeKind?
    requires SameTrees(Get(d).value, s) && StrictBy(FileOf, s)
    ensures HasLinks(s, SortKind(d.kind))
  {
    var common, name, ports := CommonNodes(d), d.kind.name, d.kind.ports;
    var sorted := SortBy(PortName, ports);
    CommonIsCommon(d);
    GetRealises(d);
    SelectEmptySame(Get(d).value, s, ToMaster, name);
    BridgePortsSorted(d, s);
    DistinctParts([name], PortsNames(ports));
    PortsDistinct(ports);
    SortByResult(PortName, ports);
    forall q | q in SortPorts(sorted) && q.BondPort?
      ensures HasSlaves(s, q.name, q.bond)
    {
      var p := SortPortsMember(sorted, q);
      BridgePortSorted(d, s, p);
    }
    PutPortTrees(s, name, common, SortPorts(sorted));
  }

  lemma DeadSame(f: Forest, s: Forest, t: Tree)
    requires SameTrees(f, s) && Dead(f, t)
    ensures Dead(s, t)
  {
    if t.nodes.DEVICE.Some? {
      SelectEmptySame(f, s, ToMaster, t.nodes.DEVICE.value);
    }
  }

  lemma OneRootSame(f: Forest, s: Forest, root: Tree)
    requires OneRoot(f, root) && SameTrees(f, s) && StrictBy(FileOf, s)
    ensures OneRoot(s, root)
  {
    assert root in f && root in s;
    var i :| 0 <= i < |s| && s[i] == root;
    forall j | 0 <= j < |s| && j != i
      ensures Dead(s, s[j])
    {
      assert s[j] in s && s[j] in f;
      assert Less(FileOf(s[if i < j then i else j]), FileOf(s[if i < j then j else i]));
      assert s[j] != root;
      DeadSame(f, s, s[j]);
    }
  }

  lemma RootSorted(d: Interface)
    requires ValidInterface(d) && Distinct(Devices(d.kind))
    ensures RootTree(SortDoc(d)) == RootTree(d)
  {
    if d.kind.BondKind? {
      DistinctParts([d.kind.name], SlaveNames(d.kind.bond.slaves));
      PrintSorted(d.kind.bond);
    }
  }

  lemma SortedValid(d: Interface)
    requires ValidInterface(d) && Distinct(Devices(d.kind))
    ensures ValidInterface(SortDoc(d))
  {
    match d.kind {
      case BondKind(name, bond) =>
        DistinctParts([name], SlaveNames(bond.slaves));
        PrintSorted(bond);
      case BridgeKind(name, _, _, ports) =>
        DistinctParts([name], PortsNames(ports));
        PortsDistinct(ports);
        SortByResult(PortName, ports);
        forall q | q in SortPorts(SortBy(PortName, ports))
          ensures ValidPort(q)
        {
          var p := SortPortsMember(SortBy(PortName, ports), q);
          if p.BondPort? {
            PortDistinct(ports, p);
            PrintSorted(p.bond);
          }
        }
      case _ =>
    }
  }

  /** The trees of a document sorted by file are read back as the sorted document. */
  lemma PutSorted(d: Interface, s: Forest)
    requires ValidInterface(d) && Distinct(Devices(d.kind)) && Get(d).Ok?
    requires SameTrees(Get(d).value, s) && StrictBy(FileOf, s)
    ensures RootTree(SortDoc(d)).Ok?
    ensures Put(s) == Ok([Image(SortDoc(d))])
  {
    GetRealises(d);
    RootSorted(d);
    SortedValid(d);
    OneRootSame(Get(d).value, s, RootTree(d).value);
    match d.kind {
      case BondKind(_, _) => BondSorted(d, s);
      case BridgeKind(_, _, _, _) => BridgeSorted(d, s);
      case _ => SelectEmptySame(Get(d).value, s, ToMaster, KindName(d.kind));
    }
    PutRealised(s, SortDoc(d));
  }

  // ---- the sorted document is the document rearranged ----

  lemma {:induction false} PickMultiset(slaves: seq<Ethernet>, primary: string)
    ensures multiset(Pick(slaves, primary, true)) + multiset(Pick(slaves, primary, false)) == multiset(slaves)
  {
    if slaves != [] {
      assert slaves == [slaves[0]] + slaves[1..];
      PickMultiset(slaves[1..], primary);
    }
  }

  lemma SortedSlaves(slaves: seq<Ethernet>)
    requires Distinct(SlaveNames(slaves))
    ensures StrictBy(EthernetName, SortBy(EthernetName, slaves))
    ensures multiset(SortBy(EthernetName, slaves)) == multiset(slaves)
    ensures forall e :: e in SortBy(EthernetName, slaves) <==> e in slaves
  {
    SlavesDistinct(slaves);
    SortByResult(EthernetName, slaves);
    SortByMultiset(EthernetName, slaves);
  }

  /** The first of the slaves, moved in front of the sorted others. */
  lemma SortedFirst(slaves: seq<Ethernet>)
    requires slaves != [] && Distinct(SlaveNames(slaves))
    ensures var sorted, first := SortBy(EthernetName, slaves), slaves[0];
      var r := Pick(sorted, first.name, true) + Pick(sorted, first.name, false);
      multiset(r) == multiset(slaves) && r[0] == first && StrictBy(EthernetName, r[1..])
  {
    var sorted, first := SortBy(EthernetName, slaves), slaves[0];
    SortedSlaves(slaves);
    assert first in sorted;
    PickFirst(sorted, first);
    PickMultiset(sorted, first.name);
    PickSorted(sorted, first.name, false);
    var rest := Pick(sorted, first.name, false);
    assert ([first] + rest)[1..] == rest;
  }

  lemma SortedPlain(slaves: seq<Ethernet>)
    requires Distinct(SlaveNames(slaves)) && forall e | e in slaves :: e.name != ""
    ensures Pick(SortBy(EthernetName, slaves), "", true) + Pick(SortBy(EthernetName, slaves), "", false)
         == SortBy(EthernetName, slaves)
  {
    SortedSlaves(slaves);
    PickOthers(SortBy(EthernetName, slaves), "");
    NoneBeside(SortBy(EthernetName, slaves));
  }

  /** Sorting a bond keeps its slaves, keeps the primary first, and orders the rest by name. */
  lemma SortBondResult(b: Bond)
    requires ValidBond(b) && Distinct(SlaveNames(b.slaves))
    ensures multiset(SortBond(b).slaves) == multiset(b.slaves)
    ensures BondOpts.Primary(b).Some? ==>
      SortBond(b).slaves[0] == b.slaves[0] && StrictBy(EthernetName, SortBond(b).slaves[1..])
    ensures BondOpts.Primary(b).None? ==> StrictBy(EthernetName, SortBond(b).slaves)
  {
    if BondOpts.Primary(b).Some? {
      SortedFirst(b.slaves);
    } else {
      SortedSlaves(b.slaves);
      SortedPlain(b.slaves);
    }
  }

  lemma {:induction false} PickSorted(slaves: seq<Ethernet>, primary: string, want: bool)
    requires StrictBy(EthernetName, slaves)
    ensures StrictBy(EthernetName, Pick(slaves, primary, want))
  {
    if slaves != [] {
      PickSorted(slaves[1..], primary, want);
      var r := Pick(slaves[1..], primary, want);
      forall j | 0 <= j < |r|
        ensures Less(EthernetName(slaves[0]), EthernetName(r[j]))
      {
        PickMembers(slaves[1..], primary, want);
        assert r[j] in r;
        var k :| 0 <= k < |slaves[1..]| && slaves[1..][k] == r[j];
        assert slaves[k + 1] == r[j];
      }
    }
  }
}
