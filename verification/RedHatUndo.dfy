// drv_undefine after drv_define gives back the store and the aliases it started from.
module RedHatUndo {
  import opened Text
  import opened Document
  import opened RedHat
  import opened RedHatStore
  import opened RedHatImage
  import opened RedHatStoreProofs

  // ---- the trees of a document are the ones related to its root ----

  /** In a store that holds the trees of a document, each of them is related to the root. */
  lemma NewRelated(s: Store, d: Interface, t: Tree)
    requires Get(d).Ok? && Distinct(Devices(d.kind)) && t in Get(d).value
    ensures Related(PutForest(s, Get(d).value), t.nodes, KindName(d.kind))
  {
    var f := Get(d).value;
    var r := PutForest(s, f);
    CommonIsCommon(d);
    FilesOfGet(d);
    if t != RootTree(d).value {
      if d.kind.BondKind? {
        SlaveTreesShape(d.kind.name, CommonNodes(d), d.kind.bond.slaves);
      } else {
        BelowBridgeRelated(s, d, t);
      }
    }
  }

  lemma BelowBridgeRelated(s: Store, d: Interface, t: Tree)
    requires Get(d).Ok? && Distinct(Devices(d.kind)) && d.kind.BridgeKind? && t in SubTrees(d)
    ensures Related(PutForest(s, Get(d).value), t.nodes, KindName(d.kind))
  {
    var common, name, ports := CommonNodes(d), d.kind.name, d.kind.ports;
    CommonIsCommon(d);
    PortsForestShape(name, common, ports, t);
    BridgeTarget(name, common, ports, t);
    if t.nodes.BRIDGE.None? {
      var p, e :| p in ports && p.BondPort? && e in p.bond.slaves && t == SlaveTree(p.name, common, e);
      PortInBridge(s, d, p);
    }
  }

  /** The tree of a port is in the store, enslaved to the bridge. */
  lemma PortInBridge(s: Store, d: Interface, p: Port)
    requires Get(d).Ok? && Distinct(Devices(d.kind)) && d.kind.BridgeKind? && p in d.kind.ports
    ensures var r := PutForest(s, Get(d).value);
      PortName(p) in r && r[PortName(p)].BRIDGE == Some(d.kind.name) && r[PortName(p)].DEVICE == Some(PortName(p))
  {
    var f, common, name, ports := Get(d).value, CommonNodes(d), d.kind.name, d.kind.ports;
    CommonIsCommon(d);
    FilesOfGet(d);
    PortTreeIn(name, common, ports, p);
    var u := PortTree(name, common, p);
    assert u in f;
    PutForestInside(s, f, u);
  }

  /** A tree that mentions no device of a document is not related to its root. */
  lemma OldUnrelated(s: Store, d: Interface, p: string)
    requires Get(d).Ok? && Distinct(Devices(d.kind)) && Clean(s, Devices(d.kind))
    requires p in s
    ensures !Related(PutForest(s, Get(d).value), s[p], KindName(d.kind))
  {
    var f, root := Get(d).value, KindName(d.kind);
    var r := PutForest(s, f);
    FilesOfGet(d);
    assert root in Devices(d.kind);
    if s[p].MASTER.Some? {
      forall q | q in r && r[q].BRIDGE == Some(root)
        ensures r[q].DEVICE != s[p].MASTER
      {
        Entry(s, f, q);
        if q in FilesOf(f) {
          GetLinked(d, Tree(q, r[q]));
        }
      }
    }
  }

  // ---- undo ----

  /** No file, no DEVICE, BRIDGE or MASTER, and no alias is named after a device or name of the document. */
  ghost predicate Unknown(c: Files, d: Interface) {
    Clean(c.ifcfg, Devices(d.kind)) && Clean(c.ifcfg, Attrs(d.kind))
    && forall x | x in Devices(d.kind) :: x !in c.ifcfg && x !in c.aliases
  }

  lemma UnknownMeaning(c: Files, d: Interface)
    ensures Unknown(c, d) <==>
      (forall x | x in Devices(d.kind) :: x !in c.ifcfg && x !in c.aliases)
      && (forall p, x | p in c.ifcfg && x in Devices(d.kind) + Attrs(d.kind) ::
            c.ifcfg[p].DEVICE != Some(x) && c.ifcfg[p].BRIDGE != Some(x) && c.ifcfg[p].MASTER != Some(x))
  {
    assert forall x :: x in Devices(d.kind) + Attrs(d.kind) <==> x in Devices(d.kind) || x in Attrs(d.kind);
    assert forall p, x | p in c.ifcfg :: Mentions(c.ifcfg[p], x) <==>
      c.ifcfg[p].DEVICE == Some(x) || c.ifcfg[p].BRIDGE == Some(x) || c.ifcfg[p].MASTER == Some(x);
  }

  lemma RmUndoesPut(s: Store, d: Interface)
    requires Get(d).Ok? && Distinct(Devices(d.kind)) && Clean(s, Devices(d.kind))
    requires forall x | x in Devices(d.kind) :: x !in s
    ensures Rm(PutForest(s, Get(d).value), KindName(d.kind)) == s
  {
    var f, root := Get(d).value, KindName(d.kind);
    var r := PutForest(s, f);
    FilesOfGet(d);
    forall p
      ensures p in Rm(r, root) <==> p in s
      ensures p in s ==> r[p] == s[p]
    {
      if p in r {
        Entry(s, f, p);
        if p in FilesOf(f) {
          NewRelated(s, d, Tree(p, r[p]));
        } else {
          OldUnrelated(s, d, p);
        }
      } else {
        assert p in s ==> p !in FilesOf(f);
        PutForestOutsideIf(s, f, p);
      }
    }
  }

  lemma PutForestOutsideIf(s: Store, f: Forest, p: string)
    ensures p !in FilesOf(f) ==> (p in PutForest(s, f) <==> p in s)
    ensures p !in FilesOf(f) && p in s ==> PutForest(s, f)[p] == s[p]
  {
    if p !in FilesOf(f) {
      PutForestOutside(s, f, p);
    }
  }

  /** The bonds bond_setup visits after a define are devices of the document. */
  lemma SetupInside(s: Store, d: Interface, n: string)
    requires Get(d).Ok? && Distinct(Devices(d.kind)) && Clean(s, Devices(d.kind))
    requires n in SetupNames(PutForest(s, Get(d).value), KindName(d.kind))
    ensures n in Devices(d.kind)
  {
    var f, root := Get(d).value, KindName(d.kind);
    var r := PutForest(s, f);
    FilesOfGet(d);
    assert root in Devices(d.kind);
    if n != root {
      var p :| p in r && r[p].BRIDGE == Some(root) && r[p].DEVICE == Some(n);
      Entry(s, f, p);
      if p in FilesOf(f) {
        GetLinked(d, Tree(p, r[p]));
      }
    }
  }

  lemma UnaliasUndoesAlias(a: Aliases, names: set<string>)
    requires names !! a.Keys
    ensures AliasAll(a, names).Done?
    ensures UnaliasAll(AliasAll(a, names).value, names) == a
  {
    assert NotBonding(["bonding"]) == [];
  }

  lemma VlanPut(s: Store, d: Interface)
    requires Get(d).Ok? && d.kind.VlanKind?
    ensures PutForest(s, Get(d).value) == s[KindName(d.kind) := RootTree(d).value.nodes]
    ensures var n := RootTree(d).value.nodes;
      n.DEVICE == Some(KindName(d.kind)) && n.MASTER.None? && n.BRIDGE.None? && n.TYPE.None?
  {
    CommonIsCommon(d);
    var f := Get(d).value;
    assert f == [RootTree(d).value] && f[1..] == [];
  }

  /** A root VLAN is no bond and no bridge, under its name or under its device. */
  lemma VlanSetup(s: Store, d: Interface, n: string)
    requires Get(d).Ok? && d.kind.VlanKind? && Clean(s, [n])
    ensures SetupNames(PutForest(s, Get(d).value), n) == {}
  {
    var r := PutForest(s, Get(d).value);
    VlanPut(s, d);
    forall p | p in r
      ensures r[p].MASTER != Some(n) && !(r[p].DEVICE == Some(n) && r[p].TYPE == Some("Bridge"))
    {
      if p in s && p != KindName(d.kind) {
        assert n in [n] && !Mentions(s[p], n);
      }
    }
  }

  lemma RootNames(k: Kind)
    ensures KindName(k) in Devices(k) && (RootName(k) in Attrs(k) || RootName(k) == KindName(k))
    ensures !k.VlanKind? ==> RootName(k) == KindName(k)
  {
  }

  /** The name a define sets bonds up for, and the device, stand for the same bonds. */
  lemma SameSetup(s: Store, d: Interface)
    requires Get(d).Ok? && Clean(s, Devices(d.kind)) && Clean(s, Attrs(d.kind))
    ensures SetupNames(PutForest(s, Get(d).value), RootName(d.kind))
         == SetupNames(PutForest(s, Get(d).value), KindName(d.kind))
  {
    RootNames(d.kind);
    if RootName(d.kind) != KindName(d.kind) {
      VlanSetup(s, d, RootName(d.kind));
      VlanSetup(s, d, KindName(d.kind));
    }
  }

  /** A define on files that do not know the document writes it, and sets up bonds that had no alias. */
  lemma DefineNew(c: Files, d: Interface)
    requires Distinct(Devices(d.kind)) && Unknown(c, d) && Get(d).Ok? && !PortUnnamed(d.kind)
    ensures var r := PutForest(c.ifcfg, Get(d).value);
      var names := SetupNames(r, KindName(d.kind));
      names !! c.aliases.Keys && AliasAll(c.aliases, names).Done?
      && Define(c, d) == Done(Files(r, AliasAll(c.aliases, names).value, c.macs))
  {
    RmAllNothing(c.ifcfg, Attrs(d.kind));
    var names := SetupNames(PutForest(c.ifcfg, Get(d).value), KindName(d.kind));
    SameSetup(c.ifcfg, d);
    forall n | n in names
      ensures n !in c.aliases
    {
      SetupInside(c.ifcfg, d, n);
    }
    UnaliasUndoesAlias(c.aliases, names);
  }

  /** From files that know nothing of the document, undefine gives back exactly what define changed. */
  lemma UndefineUndoesDefine(c: Files, d: Interface)
    requires Distinct(Devices(d.kind)) && Unknown(c, d) && Define(c, d).Done?
    ensures Undefine(Define(c, d).value, KindName(d.kind)) == c
  {
    DefineNew(c, d);
    RmUndoesPut(c.ifcfg, d);
    UnaliasUndoesAlias(c.aliases, SetupNames(PutForest(c.ifcfg, Get(d).value), KindName(d.kind)));
  }

  /**
   * drv_define returns an interface under the name attribute: undefining that one undoes the define
   * exactly when the attribute is the device.
   */
  lemma UndefineByName(c: Files, d: Interface)
    requires Distinct(Devices(d.kind)) && Unknown(c, d) && Define(c, d).Done?
    ensures Undefine(Define(c, d).value, RootName(d.kind)) == c <==> RootName(d.kind) == KindName(d.kind)
  {
    UndefineUndoesDefine(c, d);
    RootNames(d.kind);
    if RootName(d.kind) != KindName(d.kind) {
      DefineNew(c, d);
      var r := PutForest(c.ifcfg, Get(d).value);
      CommonIsCommon(d);
      FilesOfGet(d);
      PutForestInside(c.ifcfg, Get(d).value, RootTree(d).value);
      RootLinked(d);
      assert KindName(d.kind) in Rm(r, RootName(d.kind)) && KindName(d.kind) !in c.ifcfg;
    }
  }

  /** Such a define fails only when the document does not compile, or a VLAN port has no name. */
  lemma DefineUnknown(c: Files, d: Interface)
    requires Distinct(Devices(d.kind)) && Unknown(c, d)
    ensures Define(c, d).Done? <==>
      Get(d).Ok? && (d.kind.BridgeKind? ==> forall p | p in d.kind.ports :: p.VlanPort? ==> p.vlan.name.Some?)
  {
    if Get(d).Ok? && !PortUnnamed(d.kind) {
      DefineNew(c, d);
    }
  }

  /**
   * In a store of named files, undefine after define leaves what the define did not remove, whether
   * or not the store knew the document.
   */
  lemma UndefineLeavesRest(c: Files, d: Interface)
    requires NamedFiles(c.ifcfg) && Definable(d) && Define(c, d).Done?
    ensures Undefine(Define(c, d).value, KindName(d.kind)).ifcfg == RmAll(c.ifcfg, Attrs(d.kind))
  {
    var s := RmAll(c.ifcfg, Attrs(d.kind));
    RmAllResult(c.ifcfg, Attrs(d.kind));
    forall x | x in Devices(d.kind)
      ensures x !in s
    {
      assert x in s ==> Mentions(s[x], x);
    }
    RmUndoesPut(s, d);
  }

  // ---- defining twice ----

  /** A tree that mentions none of the names outlasts their removal. */
  lemma {:induction false} Outlasts(s: Store, all: seq<string>, names: seq<string>, p: string)
    requires forall x | x in names :: x in all
    requires forall q | q in s && s[q].BRIDGE.Some? && s[q].BRIDGE.value in all ::
      s[q].DEVICE.Some? && s[q].DEVICE.value in all
    requires p in s && forall x | x in all :: !Mentions(s[p], x)
    ensures p in RmAll(s, names)
    decreases |names|
  {
    if names != [] {
      assert names[0] in names && forall x | x in names[1..] :: x in names;
      assert !Related(s, s[p], names[0]);
      Outlasts(Rm(s, names[0]), all, names[1..], p);
    }
  }

  lemma RmAllKeepsOthers(s: Store, d: Interface, p: string)
    requires Get(d).Ok? && Distinct(Devices(d.kind)) && Covered(d.kind)
    requires Clean(s, Attrs(d.kind)) && p !in Devices(d.kind)
    ensures var r := RmAll(PutForest(s, Get(d).value), Attrs(d.kind));
      (p in r <==> p in s) && (p in s ==> r[p] == s[p])
  {
    var f, names := Get(d).value, Attrs(d.kind);
    var t := PutForest(s, f);
    FilesOfGet(d);
    PutForestOutside(s, f, p);
    RmAllResult(t, names);
    if p in s {
      forall q | q in t && t[q].BRIDGE.Some? && t[q].BRIDGE.value in names
        ensures t[q].DEVICE.Some? && t[q].DEVICE.value in names
      {
        Entry(s, f, q);
        if q in FilesOf(f) {
          GetLinked(d, Tree(q, t[q]));
        }
      }
      Outlasts(t, names, names, p);
    }
  }

  lemma RewriteSame(s: Store, d: Interface)
    requires Get(d).Ok? && Distinct(Devices(d.kind)) && Covered(d.kind) && Clean(s, Attrs(d.kind))
    ensures var r := PutForest(s, Get(d).value);
      PutForest(RmAll(r, Attrs(d.kind)), Get(d).value) == r
  {
    var f, names := Get(d).value, Devices(d.kind);
    FilesOfGet(d);
    var r := PutForest(s, f);
    var rest := RmAll(r, Attrs(d.kind));
    forall p
      ensures (p in PutForest(rest, f) <==> p in r) && (p in r ==> PutForest(rest, f)[p] == r[p])
    {
      if p in names {
        var t := TreeOfFile(f, p);
        PutForestInside(s, f, t);
        PutForestInside(rest, f, t);
      } else {
        RmAllKeepsOthers(s, d, p);
        PutForestOutside(s, f, p);
        PutForestOutside(rest, f, p);
      }
    }
  }

  /** A root VLAN with a name of its own is simply written again. */
  lemma RewriteVlan(s: Store, d: Interface)
    requires Get(d).Ok? && d.kind.VlanKind? && !Covered(d.kind) && Clean(s, Attrs(d.kind))
    ensures var r := PutForest(s, Get(d).value);
      PutForest(RmAll(r, Attrs(d.kind)), Get(d).value) == r
  {
    var r := PutForest(s, Get(d).value);
    VlanPut(s, d);
    assert Devices(d.kind) == [KindName(d.kind)];
    RmAllNothing(r, Attrs(d.kind));
    VlanPut(r, d);
  }

  lemma AliasTwice(a: Aliases, names: set<string>)
    requires AliasAll(a, names).Done?
    ensures AliasAll(AliasAll(a, names).value, names) == AliasAll(a, names)
  {
    var b := AliasAll(a, names).value;
    assert forall n | n in names :: Entries(b, n) == ["bonding"];
    assert b + (map n | n in names :: ["bonding"]) == b;
  }

  /** Defining a document twice is the same as defining it once. */
  lemma DefineTwice(c: Files, d: Interface)
    requires Distinct(Devices(d.kind)) && (Covered(d.kind) || d.kind.VlanKind?) && Define(c, d).Done?
    ensures Define(Define(c, d).value, d) == Define(c, d)
  {
    RmAllResult(c.ifcfg, Attrs(d.kind));
    var s := RmAll(c.ifcfg, Attrs(d.kind));
    if Covered(d.kind) {
      RewriteSame(s, d);
    } else {
      RewriteVlan(s, d);
    }
    AliasTwice(c.aliases, SetupNames(PutForest(s, Get(d).value), RootName(d.kind)));
  }

  // ---- exactly when define is idempotent ----

  lemma {:induction false} PortAttrsIn(ports: seq<Port>, p: Port, x: string)
    requires p in ports && x in PortAttrs(p)
    ensures x in PortsAttrs(ports)
  {
    if p != ports[0] {
      PortAttrsIn(ports[1..], p, x);
    }
  }

  /** Below a bridge only a port can be left uncovered: slaves are named by their devices. */
  lemma UncoveredPort(d: Interface, t: Tree)
    requires Get(d).Ok? && d.kind.BridgeKind? && t in Get(d).value && t.file !in Attrs(d.kind)
    ensures t.nodes.BRIDGE == Some(d.kind.name)
  {
    var common, name, ports := CommonNodes(d), d.kind.name, d.kind.ports;
    CommonIsCommon(d);
    assert t != RootTree(d).value;
    PortsForestShape(name, common, ports, t);
    BridgeTarget(name, common, ports, t);
    if t.nodes.BRIDGE.None? {
      var p, e :| p in ports && p.BondPort? && e in p.bond.slaves && t == SlaveTree(p.name, common, e);
      var i :| 0 <= i < |p.bond.slaves| && p.bond.slaves[i] == e;
      assert SlaveNames(p.bond.slaves)[i] == e.name;
      PortAttrsIn(ports, p, e.name);
    }
  }

  /** Only VLANs can be left uncovered. */
  lemma UncoveredKind(k: Kind)
    requires !Covered(k)
    ensures k.VlanKind? || k.BridgeKind?
  {
  }

  function SlaveStore(x: string, y: string): Files {
    Files(map[y := NO_NODES.(DEVICE := Some(y), MASTER := Some(x))], map[], map[])
  }

  /** A slave of an uncovered port survives the first define and not the second. */
  lemma UncoveredTwice(d: Interface, x: string, y: string)
    requires Distinct(Devices(d.kind)) && Get(d).Ok? && !PortUnnamed(d.kind) && d.kind.BridgeKind?
    requires x in Devices(d.kind) && x !in Attrs(d.kind)
    requires y !in Devices(d.kind) && y !in Attrs(d.kind)
    ensures var c := SlaveStore(x, y); Define(c, d).Done? && Define(Define(c, d).value, d) != Define(c, d)
  {
    var c, f := SlaveStore(x, y), Get(d).value;
    DefineOnlyWrites(c, d);
    FilesOfGet(d);
    var r := PutForest(c.ifcfg, f);
    PutForestOutside(c.ifcfg, f, y);
    var t := TreeOfFile(f, x);
    PutForestInside(c.ifcfg, f, t);
    UncoveredPort(d, t);
    GetLinked(d, t);
    assert r[x].BRIDGE == Some(d.kind.name) && r[x].DEVICE == r[y].MASTER;
    assert Attrs(d.kind)[0] == d.kind.name && MasterInBridge(r, r[y], d.kind.name);
    RmAllResult(Rm(r, d.kind.name), Attrs(d.kind)[1..]);
    assert y !in RmAll(r, Attrs(d.kind));
    PutForestOutside(RmAll(r, Attrs(d.kind)), f, y);
  }

  ghost predicate Idempotent(d: Interface) {
    forall c: Files | Define(c, d).Done? :: Define(Define(c, d).value, d) == Define(c, d)
  }

  /** Define is idempotent exactly for covered documents and root VLANs. */
  lemma DefineTwiceExactly(d: Interface)
    requires Distinct(Devices(d.kind)) && Get(d).Ok? && !PortUnnamed(d.kind)
    ensures Idempotent(d) <==> Covered(d.kind) || d.kind.VlanKind?
  {
    if Covered(d.kind) || d.kind.VlanKind? {
      forall c: Files | Define(c, d).Done?
        ensures Define(Define(c, d).value, d) == Define(c, d)
      {
        DefineTwice(c, d);
      }
    } else {
      UncoveredKind(d.kind);
      var x :| x in Devices(d.kind) && x !in Attrs(d.kind);
      UncoveredTwice(d, x, Fresh(Devices(d.kind) + Attrs(d.kind)));
    }
  }

  /** rm_interface without its fourth clause. */
  function RmThree(s: Store, name: string): Store {
    map p | p in s && !Mentions(s[p], name) :: s[p]
  }

  /** Without the fourth clause of rm_interface a slave of a bond would outlive the bond. */
  lemma FourthClauseNeeded()
    ensures exists s: Store, name: string | WellFormed(s) :: !MastersExist(RmThree(s, name))
  {
    var br := NO_NODES.(DEVICE := Some("br0"), TYPE := Some("Bridge"));
    var bond := NO_NODES.(DEVICE := Some("bond0"), BONDING_OPTS := Some("''"), BRIDGE := Some("br0"));
    var eth := NO_NODES.(DEVICE := Some("eth0"), MASTER := Some("bond0"));
    var s := map["br0" := br, "bond0" := bond, "eth0" := eth];
    assert "br0" != "bond0" && "br0" != "eth0" && "bond0" != "eth0";
    assert WellFormed(s);
    var r := RmThree(s, "br0");
    assert "eth0" in r && r["eth0"].MASTER == Some("bond0") && "bond0" !in r;
    assert !MastersExist(r);
  }
}
