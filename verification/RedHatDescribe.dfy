// drv_xml_desc after drv_define: whatever the store held before, describing the root of a defined
// document gives that document back with its enslaved interfaces sorted by name.
module RedHatDescribe {
  import opened Text
  import opened Document
  import opened RedHat
  import opened RedHatStore
  import opened RedHatImage
  import opened RedHatRoundTrip
  import opened RedHatStoreProofs
  import opened RedHatUndo
  import opened Names
  import RedHatAddressing
  import RedHatListing
  import opened RedHatSorted

  // ---- drv_xml_desc ----

  ghost predicate AllFound(c: Files, names: seq<string>) {
    forall n | n in names :: FindPath(c, n).Some?
  }

  /** The trees at the canonical paths of the devices. */
  ghost function TreesAt(c: Files, names: seq<string>): Forest
    requires AllFound(c, names)
  {
    if names == [] then []
    else
      assert names[0] in names;
      var p := FindPath(c, names[0]).value;
      [Tree(p, c.ifcfg[p])] + TreesAt(c, names[1..])
  }

  lemma RelatedFound(c: Files, name: string)
    ensures AllFound(c, Sorted(RelatedDevices(c.ifcfg, name)))
  {
    var names := Sorted(RelatedDevices(c.ifcfg, name));
    forall n | n in names
      ensures FindPath(c, n).Some?
    {
      assert n in ToSet(names);
      RedHatListing.FindDevice(c, n);
    }
  }

  /** aug_get_xml_for_nif: the trees related to the interface, by sorted device name. */
  ghost function DescForest(c: Files, name: string): Forest {
    RelatedFound(c, name);
    TreesAt(c, Sorted(RelatedDevices(c.ifcfg, name)))
  }

  ghost function Desc(c: Files, name: string): Result<seq<Interface>> {
    Put(DescForest(c, name))
  }

  // ---- define, then describe or list ----

  /**
   * Whatever the store held, describing the root after a define gives the image of the document with
   * its enslaved interfaces sorted; no tree of the old store leaks in.
   */
  lemma DescribeDefined(c: Files, d: Interface)
    requires Definable(d) && Define(c, d).Done?
    ensures RootTree(SortDoc(d)).Ok?
    ensures Desc(Define(c, d).value, KindName(d.kind)) == Ok([Image(SortDoc(d))])
  {
    var s := RmAll(c.ifcfg, Attrs(d.kind));
    RmAllResult(c.ifcfg, Attrs(d.kind));
    DescForestSorted(Define(c, d).value, s, d);
    PutSorted(d, DescForest(Define(c, d).value, KindName(d.kind)));
  }

  /** From every store, define then describe gives the image of the sorted document. */
  ghost predicate Describes(d: Interface)
    requires Get(d).Ok?
  {
    forall c: Files | Define(c, d).Done? :: Desc(Define(c, d).value, KindName(d.kind)) == Ok([Image(SortDoc(d))])
  }

  /** Nothing stale leaks in, from any store, exactly when the document is covered. */
  lemma DescribeDefinedExactly(d: Interface)
    requires ValidInterface(d) && Distinct(Devices(d.kind)) && Get(d).Ok? && !PortUnnamed(d.kind)
    ensures Describes(d) <==> Covered(d.kind)
  {
    if Covered(d.kind) {
      forall c: Files | Define(c, d).Done?
        ensures Desc(Define(c, d).value, KindName(d.kind)) == Ok([Image(SortDoc(d))])
      {
        DescribeDefined(c, d);
      }
    } else {
      var x :| x in Devices(d.kind) && x !in Attrs(d.kind);
      var y := Fresh(Devices(d.kind) + Attrs(d.kind));
      NotDescribed(d, x, y);
    }
  }

  /** Define followed by describe gives the sorted document itself exactly when the document round-trips. */
  lemma DescribeRoundTrip(c: Files, d: Interface)
    requires ValidInterface(d) && Distinct(Devices(d.kind)) && Define(c, d).Done?
    ensures Desc(Define(c, d).value, KindName(d.kind)) == Ok([Normal(SortDoc(d))]) <==> RoundTrips(d)
  {
    if VlansNamed(d.kind) {
      NamedCovered(d.kind);
      DescribeDefined(c, d);
      SortedValid(d);
      SortKindSurvives(d.kind);
      KindFixed(SortKind(d.kind));
      RedHatAddressing.AddressingFixed(d.addressing);
      assert Image(SortDoc(d)) == Normal(SortDoc(d)) <==> RoundTrips(d);
    } else {
      MisnamedUnread(d);
      var g := DescForest(Define(c, d).value, KindName(d.kind));
      PutTreesByPut(g, g);
      assert Normal(SortDoc(d)) in [Normal(SortDoc(d))];
    }
  }

  /** After a define in a store of named files, the listing is the root and what the define left alone. */
  lemma ListingAfterDefine(c: Files, d: Interface)
    requires NamedFiles(c.ifcfg) && Distinct(Devices(d.kind)) && Covered(d.kind) && Define(c, d).Done?
    ensures RedHatListing.Listing(Define(c, d).value)
         == Sorted(RedHatListing.TopLevel(RmAll(c.ifcfg, Attrs(d.kind))) + {KindName(d.kind)})
  {
    var s := RmAll(c.ifcfg, Attrs(d.kind));
    RmAllResult(c.ifcfg, Attrs(d.kind));
    NamedAfterPut(s, d);
    RedHatListing.ListingTopLevel(Define(c, d).value);
    TopLevelAfterPut(s, d);
  }

  // ---- describing what was defined ----

  lemma RelatedAfterDefine(s: Store, d: Interface)
    requires Get(d).Ok? && Distinct(Devices(d.kind)) && Clean(s, Devices(d.kind))
    ensures RelatedDevices(PutForest(s, Get(d).value), KindName(d.kind)) == ToSet(Devices(d.kind))
  {
    var f, root := Get(d).value, KindName(d.kind);
    var r := PutForest(s, f);
    FilesOfGet(d);
    forall x
      ensures x in RelatedDevices(r, root) <==> x in Devices(d.kind)
    {
      if x in Devices(d.kind) {
        var t := TreeOfFile(f, x);
        PutForestInside(s, f, t);
        GetLinked(d, t);
        NewRelated(s, d, t);
      }
      if x in RelatedDevices(r, root) {
        var p :| p in r && Related(r, r[p], root) && r[p].DEVICE == Some(x);
        Entry(s, f, p);
        if p in FilesOf(f) {
          GetLinked(d, Tree(p, r[p]));
        } else {
          OldUnrelated(s, d, p);
        }
      }
    }
  }

  lemma {:induction false} TreesAtNames(c: Files, names: seq<string>)
    requires AllFound(c, names) && forall n | n in names :: n in c.ifcfg
    ensures |TreesAt(c, names)| == |names|
    ensures forall i | 0 <= i < |names| :: TreesAt(c, names)[i] == Tree(names[i], c.ifcfg[names[i]])
  {
    if names != [] {
      assert names[0] in names;
      TreesAtNames(c, names[1..]);
    }
  }

  lemma NamesDescribed(c: Files, s: Store, d: Interface, names: seq<string>)
    requires Get(d).Ok? && Distinct(Devices(d.kind)) && c.ifcfg == PutForest(s, Get(d).value)
    requires ToSet(names) == ToSet(Devices(d.kind))
    ensures forall n | n in names :: n in c.ifcfg && Tree(n, c.ifcfg[n]) in Get(d).value
    ensures forall t | t in Get(d).value :: t.file in names && t.file in c.ifcfg && c.ifcfg[t.file] == t.nodes
  {
    var f := Get(d).value;
    FilesOfGet(d);
    forall n | n in names
      ensures n in c.ifcfg && Tree(n, c.ifcfg[n]) in f
    {
      assert n in ToSet(names);
      var t := TreeOfFile(f, n);
      PutForestInside(s, f, t);
    }
    forall t | t in f
      ensures t.file in names && t.file in c.ifcfg && c.ifcfg[t.file] == t.nodes
    {
      FileOfTree(f, t);
      PutForestInside(s, f, t);
      assert t.file in ToSet(Devices(d.kind));
    }
  }

  lemma DescForestSorted(c: Files, s: Store, d: Interface)
    requires Get(d).Ok? && Distinct(Devices(d.kind)) && Clean(s, Devices(d.kind))
    requires c.ifcfg == PutForest(s, Get(d).value)
    ensures SameTrees(Get(d).value, DescForest(c, KindName(d.kind)))
    ensures StrictBy(FileOf, DescForest(c, KindName(d.kind)))
  {
    var names := Sorted(RelatedDevices(c.ifcfg, KindName(d.kind)));
    RelatedAfterDefine(s, d);
    RelatedFound(c, KindName(d.kind));
    NamesDescribed(c, s, d, names);
    SameTreesAt(Get(d).value, c, names);
  }

  lemma SameTreesAt(f: Forest, c: Files, names: seq<string>)
    requires AllFound(c, names) && StrictlySorted(names)
    requires forall n | n in names :: n in c.ifcfg && Tree(n, c.ifcfg[n]) in f
    requires forall t | t in f :: t.file in names && t.file in c.ifcfg && c.ifcfg[t.file] == t.nodes
    ensures SameTrees(f, TreesAt(c, names)) && StrictBy(FileOf, TreesAt(c, names))
  {
    var r := TreesAt(c, names);
    TreesAtNames(c, names);
    assert forall i | 0 <= i < |r| :: FileOf(r[i]) == names[i];
    forall t
      ensures t in f <==> t in r
    {
      if t in f {
        TreesAtIn(c, names, t.file);
      }
      if t in r {
        var i :| 0 <= i < |r| && r[i] == t;
        assert names[i] in names;
      }
    }
  }

  // ---- exactly when nothing leaks in ----

  lemma {:induction false} TreesAtIn(c: Files, names: seq<string>, n: string)
    requires AllFound(c, names) && n in names && n in c.ifcfg
    ensures Tree(n, c.ifcfg[n]) in TreesAt(c, names)
  {
    assert names[0] in names;
    if n != names[0] {
      TreesAtIn(c, names[1..], n);
    }
  }

  lemma RelatedDescribed(c: Files, name: string, n: string)
    requires n in RelatedDevices(c.ifcfg, name) && n in c.ifcfg
    ensures Tree(n, c.ifcfg[n]) in DescForest(c, name)
  {
    RelatedFound(c, name);
    var names := Sorted(RelatedDevices(c.ifcfg, name));
    assert n in ToSet(names);
    TreesAtIn(c, names, n);
  }

  lemma {:induction false} PutTreesIn(f: Forest, trees: Forest, t: Tree, i: Interface)
    requires t in trees && PutTree(f, t.nodes) == Ok([i]) && PutTrees(f, trees).Ok?
    ensures i in PutTrees(f, trees).value
  {
    if t == trees[0] {
      assert [i][0] == i;
    } else {
      PutTreesIn(f, trees[1..], t, i);
    }
  }

  /** A stale bridge enslaved to a device. */
  function StaleBridge(x: string, y: string): Nodes {
    NO_NODES.(DEVICE := Some(y), TYPE := Some("Bridge"), MASTER := Some(x))
  }

  function StaleStore(x: string, y: string): Files {
    Files(map[y := StaleBridge(x, y)], map[], map[])
  }

  lemma StaleRead(f: Forest, x: string, y: string) returns (i: Interface)
    ensures PutTree(f, StaleBridge(x, y)) == Ok([i]) && !i.kind.VlanKind? && KindName(i.kind) == y
  {
    var n := StaleBridge(x, y);
    i := Interface(PutKind(f, n).value, PutStart(n), n.MTU, PutAddressing(n).value);
  }

  /** A document that leaves a device uncovered lets such a tree into its description. */
  lemma UncoveredLeaks(d: Interface, x: string, y: string)
    requires Distinct(Devices(d.kind)) && Get(d).Ok? && !PortUnnamed(d.kind)
    requires x in Devices(d.kind) && x !in Attrs(d.kind)
    requires y !in Devices(d.kind) && y !in Attrs(d.kind)
    ensures var c := StaleStore(x, y);
      Define(c, d).Done? && Tree(y, StaleBridge(x, y)) in DescForest(Define(c, d).value, KindName(d.kind))
  {
    var c, f := StaleStore(x, y), Get(d).value;
    DefineOnlyWrites(c, d);
    FilesOfGet(d);
    var r := PutForest(c.ifcfg, f);
    PutForestOutside(c.ifcfg, f, y);
    UncoveredKind(d.kind);
    if d.kind.BridgeKind? {
      var t := TreeOfFile(f, x);
      PutForestInside(c.ifcfg, f, t);
      UncoveredPort(d, t);
      GetLinked(d, t);
      assert MasterInBridge(r, r[y], KindName(d.kind));
    }
    assert Related(r, r[y], KindName(d.kind)) && r[y].DEVICE == Some(y);
    RelatedDescribed(Define(c, d).value, KindName(d.kind), y);
  }

  lemma NotDescribed(d: Interface, x: string, y: string)
    requires Distinct(Devices(d.kind)) && Get(d).Ok? && !PortUnnamed(d.kind)
    requires x in Devices(d.kind) && x !in Attrs(d.kind)
    requires y !in Devices(d.kind) && y !in Attrs(d.kind)
    ensures Define(StaleStore(x, y), d).Done?
    ensures Desc(Define(StaleStore(x, y), d).value, KindName(d.kind)) != Ok([Image(SortDoc(d))])
  {
    UncoveredLeaks(d, x, y);
    UncoveredKind(d.kind);
    var g := DescForest(Define(StaleStore(x, y), d).value, KindName(d.kind));
    var i := StaleRead(g, x, y);
    if Put(g).Ok? {
      PutTreesIn(g, g, Tree(y, StaleBridge(x, y)), i);
    }
    assert KindName(d.kind) == Devices(d.kind)[0];
    assert i != Image(SortDoc(d));
  }

  // ---- VLAN names as they are read ----

  /** Reading a VLAN takes its name apart. */
  predicate VlanByPut(v: Vlan) {
    v.base == "" || v.name == Some(VlanName(v))
  }

  predicate NamedByPut(k: Kind) {
    match k
    case VlanKind(v) => VlanByPut(v)
    case BridgeKind(_, _, _, ports) => forall p | p in ports && p.VlanPort? :: VlanByPut(p.vlan)
    case _ => true
  }

  lemma PutVlanByPut(n: Nodes)
    ensures VlanByPut(PutVlan(n))
  {
    var name := Value(n.DEVICE);
    var i := IndexOf(name, '.');
    if i < |name| {
      assert name == name[..i] + "." + name[i + 1..];
    }
  }

  lemma {:induction false} PutPortsByPut(f: Forest, enslaved: Forest)
    ensures forall p | p in PutPorts(f, enslaved) && p.VlanPort? :: VlanByPut(p.vlan)
  {
    if enslaved != [] {
      PutVlanByPut(enslaved[0].nodes);
      PutPortsByPut(f, enslaved[1..]);
    }
  }

  lemma PutKindByPut(f: Forest, n: Nodes)
    ensures PutKind(f, n).Some? ==> NamedByPut(PutKind(f, n).value)
  {
    PutVlanByPut(n);
    PutPortsByPut(f, Select(f, ToBridge, n.DEVICE));
  }

  lemma {:induction false} PutTreesByPut(f: Forest, trees: Forest)
    ensures PutTrees(f, trees).Ok? ==> forall i | i in PutTrees(f, trees).value :: NamedByPut(i.kind)
  {
    if trees != [] {
      PutKindByPut(f, trees[0].nodes);
      PutTreesByPut(f, trees[1..]);
    }
  }

  lemma {:induction false} MisnamedPort(ports: seq<Port>) returns (p: Port)
    requires !PortsNamed(ports)
    ensures p in ports && p.VlanPort? && !VlanNamed(p.vlan)
  {
    if ports[0].VlanPort? && !VlanNamed(ports[0].vlan) {
      p := ports[0];
    } else {
      p := MisnamedPort(ports[1..]);
    }
  }

  lemma {:induction false} SortPortsKeep(ports: seq<Port>, p: Port)
    requires p in ports && !p.BondPort?
    ensures p in SortPorts(ports)
  {
    if p != ports[0] {
      SortPortsKeep(ports[1..], p);
    }
  }

  /** A document that misnames a VLAN is never read. */
  lemma MisnamedUnread(d: Interface)
    requires ValidKind(d.kind) && !VlansNamed(d.kind)
    ensures !NamedByPut(SortKind(d.kind)) && !KindSurvives(d.kind)
  {
    if d.kind.BridgeKind? {
      var ports := d.kind.ports;
      var p := MisnamedPort(ports);
      assert ValidPort(p);
      SortBySorted(PortName, ports);
      SortPortsKeep(SortBy(PortName, ports), p);
      PortsSurviveAll(ports);
      assert !PortSurvives(p);
    }
  }

  lemma {:induction false} PortsSurviveAll(ports: seq<Port>)
    ensures PortsSurvive(ports) <==> forall p | p in ports :: PortSurvives(p)
  {
    if ports != [] {
      assert ports[0] in ports;
      assert forall p :: p in ports <==> p == ports[0] || p in ports[1..];
      PortsSurviveAll(ports[1..]);
    }
  }

  lemma {:induction false} SortPortsSurvive(ports: seq<Port>)
    requires forall p | p in ports && p.BondPort? :: ValidBond(p.bond) && Distinct(SlaveNames(p.bond.slaves))
    ensures PortsSurvive(SortPorts(ports)) <==> PortsSurvive(ports)
  {
    if ports != [] {
      var p := ports[0];
      assert p in ports;
      if p.BondPort? {
        PrintSorted(p.bond);
      }
      SortPortsSurvive(ports[1..]);
    }
  }

  lemma SortKindSurvives(k: Kind)
    requires ValidKind(k) && Distinct(Devices(k))
    ensures KindSurvives(SortKind(k)) <==> KindSurvives(k)
  {
    match k {
      case BondKind(name, bond) =>
        DistinctParts([name], SlaveNames(bond.slaves));
        PrintSorted(bond);
      case BridgeKind(name, _, _, ports) =>
        var sorted := SortBy(PortName, ports);
        DistinctParts([name], PortsNames(ports));
        PortsDistinct(ports);
        SortByResult(PortName, ports);
        PortsSurviveAll(ports);
        PortsSurviveAll(sorted);
        forall p | p in sorted && p.BondPort?
          ensures ValidBond(p.bond) && Distinct(SlaveNames(p.bond.slaves))
        {
          assert ValidPort(p);
          PortDistinct(ports, p);
        }
        SortPortsSurvive(sorted);
      case _ =>
    }
  }

  // ---- what listing shows after a define ----

  /** Of the trees of a document only the root is a top-level interface. */
  lemma OnlyRootTop(d: Interface, t: Tree)
    requires Get(d).Ok? && t in Get(d).value
    ensures RedHatListing.IsSlave(t.nodes) <==> t != RootTree(d).value
  {
    RootLinked(d);
    CommonIsCommon(d);
    if t != RootTree(d).value {
      match d.kind {
        case BondKind(name, bond) => SlaveTreesShape(name, CommonNodes(d), bond.slaves);
        case BridgeKind(name, _, _, ports) => PortsForestShape(name, CommonNodes(d), ports, t);
      }
    }
  }

  lemma TopLevelAfterPut(s: Store, d: Interface)
    requires NamedFiles(s) && Get(d).Ok? && Distinct(Devices(d.kind)) && Clean(s, Devices(d.kind))
    ensures RedHatListing.TopLevel(PutForest(s, Get(d).value)) == RedHatListing.TopLevel(s) + {KindName(d.kind)}
  {
    forall p
      ensures p in RedHatListing.TopLevel(PutForest(s, Get(d).value))
         <==> p in RedHatListing.TopLevel(s) || p == KindName(d.kind)
    {
      TopAfterPut(s, d, p);
    }
  }

  lemma NamedAfterPut(s: Store, d: Interface)
    requires NamedFiles(s) && Get(d).Ok? && Distinct(Devices(d.kind))
    ensures NamedFiles(PutForest(s, Get(d).value))
  {
    var f := Get(d).value;
    FilesOfGet(d);
    forall p | p in PutForest(s, f)
      ensures PutForest(s, f)[p].DEVICE == Some(p)
    {
      Entry(s, f, p);
      if p in FilesOf(f) {
        GetLinked(d, Tree(p, PutForest(s, f)[p]));
      }
    }
  }

  lemma TopAfterPut(s: Store, d: Interface, p: string)
    requires NamedFiles(s) && Get(d).Ok? && Distinct(Devices(d.kind)) && Clean(s, Devices(d.kind))
    ensures p in RedHatListing.TopLevel(PutForest(s, Get(d).value))
       <==> p in RedHatListing.TopLevel(s) || p == KindName(d.kind)
  {
    var f := Get(d).value;
    var r := PutForest(s, f);
    FilesOfGet(d);
    RootLinked(d);
    if p in FilesOf(f) {
      assert p in s ==> Mentions(s[p], p);
      var t := TreeOfFile(f, p);
      PutForestInside(s, f, t);
      OnlyRootTop(d, t);
      if p == KindName(d.kind) {
        PutForestInside(s, f, RootTree(d).value);
        OnlyRootTop(d, RootTree(d).value);
      }
    } else {
      PutForestOutside(s, f, p);
      assert KindName(d.kind) in Devices(d.kind);
    }
  }
}
