// What every define and undefine keeps, and what one undoes of the other.
module RedHatStoreProofs {
  import opened Text
  import opened Document
  import opened RedHat
  import opened RedHatStore
  import opened RedHatImage

  // ---- well-formed stores ----

  /** Each file is named after its DEVICE. */
  ghost predicate NamedFiles(s: Store) {
    forall p | p in s :: s[p].DEVICE == Some(p)
  }

  predicate IsBondTree(n: Nodes) {
    n.BONDING_OPTS.Some? && n.MASTER.None?
  }

  ghost predicate UnslavedBridges(s: Store) {
    forall p | p in s :: BridgeMatch(s[p]) ==> s[p].BRIDGE.None? && s[p].MASTER.None?
  }

  /** No tree names a BRIDGE that is not the DEVICE of a bridge tree. */
  ghost predicate BridgesExist(s: Store) {
    forall p | p in s && s[p].BRIDGE.Some? :: s[p].BRIDGE.value in s && BridgeMatch(s[s[p].BRIDGE.value])
  }

  /** No tree names a MASTER that is not the DEVICE of a bond tree. */
  ghost predicate MastersExist(s: Store) {
    forall p | p in s && s[p].MASTER.Some? :: s[p].MASTER.value in s && IsBondTree(s[s[p].MASTER.value])
  }

  ghost predicate WellFormed(s: Store) {
    NamedFiles(s) && UnslavedBridges(s) && BridgesExist(s) && MastersExist(s)
  }

  /** Files are named after their devices, and no tree is enslaved to a device that is not there. */
  lemma WellFormedMeaning(s: Store)
    ensures WellFormed(s) <==>
      (forall p | p in s ::
         s[p].DEVICE == Some(p)
         && (s[p].TYPE == Some("Bridge") ==> s[p].BRIDGE == None && s[p].MASTER == None)
         && (s[p].BRIDGE.Some? ==> s[p].BRIDGE.value in s && s[s[p].BRIDGE.value].TYPE == Some("Bridge"))
         && (s[p].MASTER.Some? ==>
               s[p].MASTER.value in s && s[s[p].MASTER.value].BONDING_OPTS.Some?
               && s[s[p].MASTER.value].MASTER == None))
  {
  }

  // ---- removal ----

  lemma RmKeepsMasters(s: Store, name: string, p: string)
    requires WellFormed(s) && p in Rm(s, name) && s[p].MASTER.Some?
    ensures s[p].MASTER.value in Rm(s, name)
  {
    var m := s[p].MASTER.value;
    assert !Related(s, s[p], name);
    assert s[m].DEVICE == Some(m);
    assert !MasterInBridge(s, s[p], name);
  }

  lemma RmKeepsBridges(s: Store, name: string, p: string)
    requires WellFormed(s) && p in Rm(s, name) && s[p].BRIDGE.Some?
    ensures s[p].BRIDGE.value in Rm(s, name)
  {
    var b := s[p].BRIDGE.value;
    assert !Related(s, s[p], name);
    assert s[b].DEVICE == Some(b) && s[b].BRIDGE.None? && s[b].MASTER.None?;
  }

  /** Removing an interface leaves no tree enslaved to a device that is gone. */
  lemma RmKeepsWellFormed(s: Store, name: string)
    requires WellFormed(s)
    ensures WellFormed(Rm(s, name))
  {
    var r := Rm(s, name);
    forall p | p in r && r[p].MASTER.Some?
      ensures r[p].MASTER.value in r
    {
      RmKeepsMasters(s, name, p);
    }
    forall p | p in r && r[p].BRIDGE.Some?
      ensures r[p].BRIDGE.value in r
    {
      RmKeepsBridges(s, name, p);
    }
  }

  predicate Mentions(n: Nodes, name: string) {
    n.DEVICE == Some(name) || n.BRIDGE == Some(name) || n.MASTER == Some(name)
  }

  ghost predicate Clean(s: Store, names: seq<string>) {
    forall p, x | p in s && x in names :: !Mentions(s[p], x)
  }

  ghost predicate Within(r: Store, s: Store) {
    forall p | p in r :: p in s && r[p] == s[p]
  }

  lemma {:induction false} RmAllResult(s: Store, names: seq<string>)
    ensures Within(RmAll(s, names), s)
    ensures Clean(RmAll(s, names), names)
    ensures WellFormed(s) ==> WellFormed(RmAll(s, names))
    decreases |names|
  {
    if names != [] {
      var r := Rm(s, names[0]);
      RmAllResult(r, names[1..]);
      if WellFormed(s) {
        RmKeepsWellFormed(s, names[0]);
      }
      forall p, x | p in RmAll(s, names) && x in names
        ensures !Mentions(RmAll(s, names)[p], x)
      {
        if x == names[0] {
          assert p in r && !Related(s, s[p], x);
        } else {
          assert x in names[1..];
        }
      }
    }
  }

  lemma {:induction false} RmAllNothing(s: Store, names: seq<string>)
    requires Clean(s, names)
    ensures RmAll(s, names) == s
    decreases |names|
  {
    if names != [] {
      assert names[0] in names && forall x | x in names[1..] :: x in names;
      assert Rm(s, names[0]) == s by {
        forall p | p in s
          ensures !Related(s, s[p], names[0])
        {
          assert forall q | q in s :: !Mentions(s[q], names[0]);
        }
      }
      RmAllNothing(s, names[1..]);
    }
  }

  // ---- writing a forest ----

  function FilesOf(f: Forest): seq<string> {
    if f == [] then [] else [f[0].file] + FilesOf(f[1..])
  }

  lemma {:induction false} PutForestOutside(s: Store, f: Forest, p: string)
    requires p !in FilesOf(f)
    ensures p in PutForest(s, f) <==> p in s
    ensures p in s ==> PutForest(s, f)[p] == s[p]
    decreases |f|
  {
    if f != [] {
      PutForestOutside(s[f[0].file := f[0].nodes], f[1..], p);
    }
  }

  lemma {:induction false} FileOfTree(f: Forest, t: Tree)
    requires t in f
    ensures t.file in FilesOf(f)
  {
    if t != f[0] {
      FileOfTree(f[1..], t);
    }
  }

  lemma {:induction false} PutForestInside(s: Store, f: Forest, t: Tree)
    requires Distinct(FilesOf(f)) && t in f
    ensures t.file in PutForest(s, f) && PutForest(s, f)[t.file] == t.nodes
    decreases |f|
  {
    DistinctParts([f[0].file], FilesOf(f[1..]));
    if t in f[1..] {
      PutForestInside(s[f[0].file := f[0].nodes], f[1..], t);
    } else {
      PutForestOutside(s[f[0].file := f[0].nodes], f[1..], t.file);
    }
  }

  lemma {:induction false} TreeOfFile(f: Forest, p: string) returns (t: Tree)
    requires p in FilesOf(f)
    ensures t in f && t.file == p
  {
    if f[0].file == p {
      t := f[0];
    } else {
      t := TreeOfFile(f[1..], p);
    }
  }

  // ---- the files of a compiled forest ----

  lemma {:induction false} FilesOfConcat(a: Forest, b: Forest)
    ensures FilesOf(a + b) == FilesOf(a) + FilesOf(b)
  {
    if a == [] {
      assert a + b == b;
    } else {
      assert (a + b)[1..] == a[1..] + b;
      FilesOfConcat(a[1..], b);
    }
  }

  lemma {:induction false} FilesOfSlaves(bond: string, common: Nodes, slaves: seq<Ethernet>)
    ensures FilesOf(SlaveTrees(bond, common, slaves)) == SlaveNames(slaves)
  {
    if slaves != [] {
      FilesOfSlaves(bond, common, slaves[1..]);
      assert SlaveNames(slaves) == [slaves[0].name] + SlaveNames(slaves[1..]);
    }
  }

  lemma FilesOfPort(bridge: string, common: Nodes, p: Port)
    ensures FilesOf(PortForest(bridge, common, p)) == PortNames(p)
  {
    if p.BondPort? {
      FilesOfSlaves(p.name, common, p.bond.slaves);
      FilesOfConcat([PortTree(bridge, common, p)], SlaveTrees(p.name, common, p.bond.slaves));
    }
  }

  lemma {:induction false} FilesOfPorts(bridge: string, common: Nodes, ports: seq<Port>)
    ensures FilesOf(PortsForest(bridge, common, ports)) == PortsNames(ports)
  {
    if ports != [] {
      FilesOfPort(bridge, common, ports[0]);
      FilesOfPorts(bridge, common, ports[1..]);
      FilesOfConcat(PortForest(bridge, common, ports[0]), PortsForest(bridge, common, ports[1..]));
    }
  }

  /** One file per device of the document, in document order. */
  lemma FilesOfGet(d: Interface)
    requires Get(d).Ok?
    ensures FilesOf(Get(d).value) == Devices(d.kind)
  {
    var root := RootTree(d).value;
    match d.kind {
      case BondKind(name, bond) =>
        FilesOfSlaves(name, CommonNodes(d), bond.slaves);
      case BridgeKind(name, _, _, ports) =>
        FilesOfPorts(name, CommonNodes(d), ports);
      case _ =>
    }
    FilesOfConcat([root], SubTrees(d));
  }

  // ---- define keeps stores well-formed ----

  lemma {:induction false} PortTreeIn(bridge: string, common: Nodes, ports: seq<Port>, p: Port)
    requires p in ports
    ensures PortTree(bridge, common, p) in PortsForest(bridge, common, ports)
  {
    if p != ports[0] {
      PortTreeIn(bridge, common, ports[1..], p);
    }
  }

  /** A link of a port tree leads to the bridge. */
  lemma {:induction false} BridgeTarget(bridge: string, common: Nodes, ports: seq<Port>, t: Tree)
    requires IsCommon(common) && t in PortsForest(bridge, common, ports)
    ensures t.nodes.BRIDGE.Some? ==> t.nodes.BRIDGE == Some(bridge)
  {
    var p, rest := ports[0], ports[1..];
    if t in PortsForest(bridge, common, rest) {
      BridgeTarget(bridge, common, rest, t);
    } else if t != PortTree(bridge, common, p) {
      SlaveTreesShape(p.name, common, p.bond.slaves);
    }
  }

  /** The links of every tree of a compiled document end inside the document. */
  predicate TreeLinked(f: Forest, t: Tree) {
    t.nodes.DEVICE == Some(t.file)
    && (BridgeMatch(t.nodes) ==> t.nodes.BRIDGE.None? && t.nodes.MASTER.None?)
    && (t.nodes.BRIDGE.Some? ==> exists u | u in f :: u.file == t.nodes.BRIDGE.value && BridgeMatch(u.nodes))
    && (t.nodes.MASTER.Some? ==> exists u | u in f :: u.file == t.nodes.MASTER.value && IsBondTree(u.nodes))
  }

  lemma RootLinked(d: Interface)
    requires Get(d).Ok?
    ensures TreeLinked(Get(d).value, RootTree(d).value)
    ensures RootTree(d).value.nodes.BRIDGE.None? && RootTree(d).value.nodes.MASTER.None?
    ensures d.kind.BridgeKind? ==> BridgeMatch(RootTree(d).value.nodes)
    ensures d.kind.BondKind? ==> IsBondTree(RootTree(d).value.nodes)
    ensures RootTree(d).value.file == KindName(d.kind)
  {
    CommonIsCommon(d);
  }

  lemma BondTreeLinked(d: Interface, t: Tree)
    requires Get(d).Ok? && d.kind.BondKind? && t in SubTrees(d)
    ensures TreeLinked(Get(d).value, t)
  {
    CommonIsCommon(d);
    RootLinked(d);
    SlaveTreesShape(d.kind.name, CommonNodes(d), d.kind.bond.slaves);
    assert RootTree(d).value in Get(d).value;
  }

  lemma BridgeTreeLinked(d: Interface, t: Tree)
    requires Get(d).Ok? && d.kind.BridgeKind? && t in SubTrees(d)
    ensures TreeLinked(Get(d).value, t)
  {
    var common, name, ports := CommonNodes(d), d.kind.name, d.kind.ports;
    CommonIsCommon(d);
    RootLinked(d);
    PortsForestShape(name, common, ports, t);
    BridgeTarget(name, common, ports, t);
    assert RootTree(d).value in Get(d).value;
    if t.nodes.BRIDGE.None? {
      var p, e :| p in ports && p.BondPort? && e in p.bond.slaves && t == SlaveTree(p.name, common, e);
      PortTreeIn(name, common, ports, p);
      assert PortTree(name, common, p) in Get(d).value;
      assert IsBondTree(PortTree(name, common, p).nodes);
    }
  }

  lemma GetLinked(d: Interface, t: Tree)
    requires Get(d).Ok? && t in Get(d).value
    ensures TreeLinked(Get(d).value, t)
  {
    if t == RootTree(d).value {
      RootLinked(d);
    } else {
      match d.kind {
        case BondKind(_, _) => BondTreeLinked(d, t);
        case BridgeKind(_, _, _, _) => BridgeTreeLinked(d, t);
      }
    }
  }

  /** What an entry of the new store is: a tree of the forest, or an untouched tree of the old store. */
  lemma Entry(s: Store, f: Forest, p: string)
    requires Distinct(FilesOf(f)) && p in PutForest(s, f)
    ensures p in FilesOf(f) ==> Tree(p, PutForest(s, f)[p]) in f
    ensures p !in FilesOf(f) ==> p in s && PutForest(s, f)[p] == s[p]
  {
    if p in FilesOf(f) {
      var t := TreeOfFile(f, p);
      PutForestInside(s, f, t);
    } else {
      PutForestOutside(s, f, p);
    }
  }

  lemma NewLink(s: Store, f: Forest, t: Tree)
    requires Distinct(FilesOf(f)) && t in f && TreeLinked(f, t)
    ensures var r := PutForest(s, f);
      (t.nodes.BRIDGE.Some? ==> t.nodes.BRIDGE.value in r && BridgeMatch(r[t.nodes.BRIDGE.value]))
      && (t.nodes.MASTER.Some? ==> t.nodes.MASTER.value in r && IsBondTree(r[t.nodes.MASTER.value]))
  {
    if t.nodes.BRIDGE.Some? {
      var u :| u in f && u.file == t.nodes.BRIDGE.value && BridgeMatch(u.nodes);
      PutForestInside(s, f, u);
    }
    if t.nodes.MASTER.Some? {
      var u :| u in f && u.file == t.nodes.MASTER.value && IsBondTree(u.nodes);
      PutForestInside(s, f, u);
    }
  }

  lemma OldLink(s: Store, f: Forest, p: string)
    requires WellFormed(s) && Clean(s, FilesOf(f)) && p in s
    ensures var r := PutForest(s, f);
      (s[p].BRIDGE.Some? ==> s[p].BRIDGE.value in r && BridgeMatch(r[s[p].BRIDGE.value]))
      && (s[p].MASTER.Some? ==> s[p].MASTER.value in r && IsBondTree(r[s[p].MASTER.value]))
  {
    if s[p].BRIDGE.Some? {
      PutForestOutside(s, f, s[p].BRIDGE.value);
    }
    if s[p].MASTER.Some? {
      PutForestOutside(s, f, s[p].MASTER.value);
    }
  }

  lemma PutKeepsWellFormed(s: Store, f: Forest)
    requires WellFormed(s) && Distinct(FilesOf(f)) && Clean(s, FilesOf(f))
    requires forall t | t in f :: TreeLinked(f, t)
    ensures WellFormed(PutForest(s, f))
  {
    var r := PutForest(s, f);
    forall p | p in r
      ensures r[p].DEVICE == Some(p)
      ensures BridgeMatch(r[p]) ==> r[p].BRIDGE.None? && r[p].MASTER.None?
      ensures r[p].BRIDGE.Some? ==> r[p].BRIDGE.value in r && BridgeMatch(r[r[p].BRIDGE.value])
      ensures r[p].MASTER.Some? ==> r[p].MASTER.value in r && IsBondTree(r[r[p].MASTER.value])
    {
      Entry(s, f, p);
      if p in FilesOf(f) {
        NewLink(s, f, Tree(p, r[p]));
      } else {
        OldLink(s, f, p);
      }
    }
  }

  // ---- documents a store can take ----

  predicate VlanNamed(v: Vlan) {
    v.name == Some(VlanName(v))
  }

  predicate PortsNamed(ports: seq<Port>) {
    ports == [] || ((ports[0].VlanPort? ==> VlanNamed(ports[0].vlan)) && PortsNamed(ports[1..]))
  }

  /** The schema's remark on VLAN names: they are always DEVICE.VLAN. */
  predicate VlansNamed(k: Kind) {
    match k
    case VlanKind(v) => VlanNamed(v)
    case BridgeKind(_, _, _, ports) => PortsNamed(ports)
    case _ => true
  }

  /** Every device the document writes is one of its name attributes, so that it is removed first. */
  predicate Covered(k: Kind) {
    forall x | x in Devices(k) :: x in Attrs(k)
  }

  /** A schema-valid document that names no device twice and removes whatever it writes. */
  ghost predicate Definable(d: Interface) {
    ValidInterface(d) && Distinct(Devices(d.kind)) && Covered(d.kind)
  }

  lemma {:induction false} PortsAttrsNamed(ports: seq<Port>)
    requires PortsNamed(ports)
    ensures PortsAttrs(ports) == PortsNames(ports)
    ensures forall p | p in ports && p.VlanPort? :: p.vlan.name.Some?
  {
    if ports != [] {
      PortAttrsNamed(ports[0]);
      PortsAttrsNamed(ports[1..]);
    }
  }

  lemma PortAttrsNamed(p: Port)
    requires p.VlanPort? ==> VlanNamed(p.vlan)
    ensures PortAttrs(p) == PortNames(p)
    ensures p.VlanPort? ==> p.vlan.name.Some?
  {
  }

  lemma AttrsNamed(k: Kind)
    requires VlansNamed(k)
    ensures Attrs(k) == Devices(k) && !PortUnnamed(k) && RootName(k) == KindName(k)
  {
    if k.BridgeKind? {
      PortsAttrsNamed(k.ports);
    }
  }

  /** The schema's remark is enough. */
  lemma NamedCovered(k: Kind)
    requires VlansNamed(k)
    ensures Covered(k)
  {
    AttrsNamed(k);
  }

  /** Define keeps a store well-formed. */
  lemma DefineKeepsWellFormed(c: Files, d: Interface)
    requires WellFormed(c.ifcfg) && Definable(d) && Define(c, d).Done?
    ensures WellFormed(Define(c, d).value.ifcfg)
  {
    var f := Get(d).value;
    RmAllResult(c.ifcfg, Attrs(d.kind));
    FilesOfGet(d);
    forall t | t in f
      ensures TreeLinked(f, t)
    {
      GetLinked(d, t);
    }
    PutKeepsWellFormed(RmAll(c.ifcfg, Attrs(d.kind)), f);
  }

  // ---- exactly when define keeps stores well-formed ----

  /** A name longer than, and so different from, all of these. */
  function Fresh(names: seq<string>): (r: string)
    ensures forall n | n in names :: |n| < |r|
  {
    if names == [] then "x"
    else
      var r := Fresh(names[1..]);
      names[0] + r
  }

  lemma OnlyRootIsBridge(d: Interface, t: Tree)
    requires Get(d).Ok? && t in Get(d).value && BridgeMatch(t.nodes)
    ensures t.file in Attrs(d.kind)
  {
    CommonIsCommon(d);
    if t != RootTree(d).value {
      match d.kind {
        case BondKind(name, bond) => SlaveTreesShape(name, CommonNodes(d), bond.slaves);
        case BridgeKind(name, _, _, ports) => PortsForestShape(name, CommonNodes(d), ports, t);
      }
    }
  }

  /** A bridge that is replaced without being removed, and a tree enslaved to it. */
  function BridgeStore(x: string, y: string): Files {
    Files(map[x := NO_NODES.(DEVICE := Some(x), TYPE := Some("Bridge")),
              y := NO_NODES.(DEVICE := Some(y), BRIDGE := Some(x))], map[], map[])
  }

  lemma BridgeStoreOk(x: string, y: string, names: seq<string>)
    requires x != y
    ensures WellFormed(BridgeStore(x, y).ifcfg)
    ensures x !in names && y !in names ==> Clean(BridgeStore(x, y).ifcfg, names)
  {
  }

  lemma NoAliases(names: set<string>)
    ensures AliasAll(map[], names).Done?
  {
  }

  /** With nothing to remove and no aliases, define only writes. */
  lemma DefineOnlyWrites(c: Files, d: Interface)
    requires Clean(c.ifcfg, Attrs(d.kind)) && c.aliases == map[] && Get(d).Ok? && !PortUnnamed(d.kind)
    ensures Define(c, d).Done? && Define(c, d).value.ifcfg == PutForest(c.ifcfg, Get(d).value)
  {
    RmAllNothing(c.ifcfg, Attrs(d.kind));
    NoAliases(SetupNames(PutForest(c.ifcfg, Get(d).value), RootName(d.kind)));
  }

  /** A VLAN whose device is not removed may replace a bridge that other trees are enslaved to. */
  lemma UncoveredBreaks(d: Interface, x: string, y: string)
    requires Distinct(Devices(d.kind)) && Get(d).Ok? && !PortUnnamed(d.kind)
    requires x in Devices(d.kind) && x !in Attrs(d.kind)
    requires y !in Devices(d.kind) && y !in Attrs(d.kind)
    ensures WellFormed(BridgeStore(x, y).ifcfg) && Define(BridgeStore(x, y), d).Done?
    ensures !WellFormed(Define(BridgeStore(x, y), d).value.ifcfg)
  {
    var s, f := BridgeStore(x, y).ifcfg, Get(d).value;
    BridgeStoreOk(x, y, Attrs(d.kind));
    DefineOnlyWrites(BridgeStore(x, y), d);
    FilesOfGet(d);
    PutForestOutside(s, f, y);
    var t := TreeOfFile(f, x);
    PutForestInside(s, f, t);
    if BridgeMatch(t.nodes) {
      OnlyRootIsBridge(d, t);
    }
    var r := PutForest(s, f);
    assert y in r && r[y].BRIDGE == Some(x) && !BridgeMatch(r[x]);
  }

  /** Define keeps every well-formed store well-formed. */
  ghost predicate KeepsWellFormed(d: Interface) {
    forall c: Files | WellFormed(c.ifcfg) && Define(c, d).Done? :: WellFormed(Define(c, d).value.ifcfg)
  }

  /** It does so exactly for the documents that remove every device they write. */
  lemma DefineKeepsWellFormedExactly(d: Interface)
    requires ValidInterface(d) && Distinct(Devices(d.kind)) && Get(d).Ok? && !PortUnnamed(d.kind)
    ensures KeepsWellFormed(d) <==> Covered(d.kind)
  {
    if Covered(d.kind) {
      forall c: Files | WellFormed(c.ifcfg) && Define(c, d).Done?
        ensures WellFormed(Define(c, d).value.ifcfg)
      {
        DefineKeepsWellFormed(c, d);
      }
    } else {
      var x :| x in Devices(d.kind) && x !in Attrs(d.kind);
      UncoveredBreaks(d, x, Fresh(Devices(d.kind) + Attrs(d.kind)));
    }
  }

  /** The VLAN with name f on base e with tag 5 is such a document: it writes e.5 and removes f. */
  lemma MisnamedVlan()
    ensures var d := Interface(VlanKind(Vlan(Some("f"), "e", "5")), OnBoot, None, Addressing(None, None, false));
      ValidInterface(d) && Distinct(Devices(d.kind)) && Get(d).Ok? && !PortUnnamed(d.kind) && !KeepsWellFormed(d)
  {
    var d := Interface(VlanKind(Vlan(Some("f"), "e", "5")), OnBoot, None, Addressing(None, None, false));
    assert Devices(d.kind) == ["e" + "." + "5"] && |"e" + "." + "5"| == 3;
    assert "e" + "." + "5" in Devices(d.kind) && Attrs(d.kind) == ["f"] && |"f"| == 1;
    DefineKeepsWellFormedExactly(d);
  }

  // ---- over whole runs ----

  datatype Call = DefineCall(doc: Interface) | UndefineCall(name: string)

  /** One API call; a call that fails leaves the files as they are. */
  function Step(c: Files, call: Call): Files {
    match call
    case DefineCall(d) => if Define(c, d).Done? then Define(c, d).value else c
    case UndefineCall(name) => Undefine(c, name)
  }

  function Run(c: Files, calls: seq<Call>): Files {
    if calls == [] then c else Step(Run(c, calls[..|calls| - 1]), calls[|calls| - 1])
  }

  /** Over every run of define and undefine no tree is ever enslaved to a device that is not there. */
  lemma {:induction false} RunKeepsWellFormed(c: Files, calls: seq<Call>)
    requires WellFormed(c.ifcfg)
    requires forall call | call in calls :: call.DefineCall? ==> Definable(call.doc)
    ensures WellFormed(Run(c, calls).ifcfg)
  {
    if calls != [] {
      var before, call := calls[..|calls| - 1], calls[|calls| - 1];
      RunKeepsWellFormed(c, before);
      var s := Run(c, before);
      match call {
        case DefineCall(d) =>
          if Define(s, d).Done? {
            DefineKeepsWellFormed(s, d);
          }
        case UndefineCall(name) =>
          RmKeepsWellFormed(s.ifcfg, name);
      }
    }
  }
}
