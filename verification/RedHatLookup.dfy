// What listing, lookup and description amount to for any files, tree by tree: which file stands for a
// name, which names are listed, and which trees a removal or a description reaches.
module RedHatLookup {
  import opened Text
  import opened RedHat
  import opened RedHatStore
  import opened RedHatListing
  import opened Names
  import opened Document
  import RedHatDescribe

  // ---- comparing addresses ----

  /** Letters in either case are the same; all other characters must be equal. */
  predicate SameLetter(a: char, b: char) {
    a == b || ('A' <= a <= 'Z' && b as int == a as int + 32) || ('A' <= b <= 'Z' && a as int == b as int + 32)
  }

  lemma IgnoringCase(a: string, b: string)
    ensures SameIgnoringCase(a, b) <==> |a| == |b| && forall i | 0 <= i < |a| :: SameLetter(a[i], b[i])
  {
    forall i | 0 <= i < |a| == |b|
      ensures Lower(a[i]) == Lower(b[i]) <==> SameLetter(a[i], b[i])
    {
    }
  }

  // ---- the file of a name ----

  /** The address of the device is the HWADDR of the file. */
  predicate HasMac(c: Files, p: string, name: string)
    requires p in c.ifcfg
  {
    name in c.macs && c.ifcfg[p].HWADDR.Some? && SameIgnoringCase(c.ifcfg[p].HWADDR.value, c.macs[name])
  }

  /** A file of that name is the file of the name, whatever it holds. */
  lemma NamedFile(c: Files, name: string)
    requires name in c.ifcfg
    ensures FindPath(c, name) == Some(name)
  {
  }

  /** Otherwise it is a file with the MAC of the device, if there is one: the last by path, HWADDR included. */
  lemma MacFile(c: Files, name: string, p: string)
    requires name !in c.ifcfg && p in c.ifcfg && HasMac(c, p, name)
    ensures FindPath(c, name).Some? && HasMac(c, FindPath(c, name).value, name)
    ensures Leq(p + "/HWADDR", FindPath(c, name).value + "/HWADDR")
  {
    assert p in FilesWithMac(c.ifcfg, c.macs[name]);
  }

  /** Otherwise it is the last file with that DEVICE. */
  lemma DeviceFile(c: Files, name: string, p: string)
    requires name !in c.ifcfg && forall q | q in c.ifcfg :: !HasMac(c, q, name)
    requires p in c.ifcfg && c.ifcfg[p].DEVICE == Some(name)
    ensures FindPath(c, name).Some? && c.ifcfg[FindPath(c, name).value].DEVICE == Some(name)
    ensures Leq(p, FindPath(c, name).value)
  {
    assert p in FilesWithDevice(c.ifcfg, name);
    var q := FindPath(c, name).value;
    assert p + "" == p && q + "" == q;
  }

  /** There is none when no file has the name, the MAC or the DEVICE. */
  lemma NoFile(c: Files, name: string)
    ensures FindPath(c, name).None? <==>
            name !in c.ifcfg && forall p | p in c.ifcfg :: !HasMac(c, p, name) && c.ifcfg[p].DEVICE != Some(name)
  {
    if name !in c.ifcfg {
      if p :| p in c.ifcfg && HasMac(c, p, name) {
        MacFile(c, name, p);
      } else if p :| p in c.ifcfg && c.ifcfg[p].DEVICE == Some(name) {
        DeviceFile(c, name, p);
      }
    }
  }

  /** The paths compared end in /HWADDR: of "a" and "a-", the first is the later one. */
  lemma PathsEndInHwaddr(n: Nodes, m: Nodes, mac: string)
    requires n.HWADDR == Some(mac) && m.HWADDR == Some(mac)
    ensures FindPath(Files(map["a" := n, "a-" := m], map[], map["eth0" := mac]), "eth0") == Some("a")
  {
    var c := Files(map["a" := n, "a-" := m], map[], map["eth0" := mac]);
    MacFile(c, "eth0", "a");
    LeqFirstDifference("a", '-', "/HWADDR", '/', "HWADDR");
    assert "a" + ['-'] + "/HWADDR" == "a-" + "/HWADDR" && "a" + ['/'] + "HWADDR" == "a" + "/HWADDR";
    assert FindPath(c, "eth0").value in c.ifcfg;
  }

  // ---- listing ----

  /** The file is neither enslaved to a bond nor attached to a bridge. */
  predicate TopLevelFile(c: Files, p: string)
    requires p in c.ifcfg
  {
    c.ifcfg[p].MASTER == None && c.ifcfg[p].BRIDGE == None
  }

  /** A lookup succeeds exactly when the name has a file, and a top-level one. */
  lemma FoundMeaning(c: Files, name: string)
    ensures Found(c, name) <==> FindPath(c, name).Some? && TopLevelFile(c, FindPath(c, name).value)
  {
  }

  /** The file of some device, top-level, with x as its DEVICE. */
  ghost predicate ListedFor(c: Files, x: string, n: string) {
    n in DevicesOf(c.ifcfg) && FindPath(c, n).Some? && TopLevelFile(c, FindPath(c, n).value)
    && c.ifcfg[FindPath(c, n).value].DEVICE == Some(x)
  }

  lemma {:induction false} PathsExactly(c: Files, names: seq<string>, p: string)
    ensures p in Paths(c, names) <==> exists n | n in names :: FindPath(c, n) == Some(p)
  {
    if names != [] {
      PathsExactly(c, names[1..], p);
      assert forall n | n in names :: n == names[0] || n in names[1..];
    }
  }

  lemma {:induction false} UnslavedExactly(s: Store, paths: seq<string>, p: string)
    requires forall q | q in paths :: q in s
    ensures p in Unslaved(s, paths) <==> p in paths && s[p].MASTER == None && s[p].BRIDGE == None
  {
    if paths != [] {
      assert paths[0] in paths;
      UnslavedExactly(s, paths[1..], p);
    }
  }

  lemma {:induction false} IdsExactly(s: Store, paths: seq<string>, x: string)
    ensures x in Ids(s, paths) <==> exists p | p in paths && p in s :: s[p].DEVICE == Some(x)
  {
    if paths != [] {
      IdsExactly(s, paths[1..], x);
      assert forall p | p in paths :: p == paths[0] || p in paths[1..];
    }
  }

  /** The devices of the store. */
  lemma DevicesMeaning(s: Store, n: string)
    ensures n in DevicesOf(s) <==> exists p | p in s :: s[p].DEVICE == Some(n)
  {
  }

  /** In any store a name is listed exactly when it is the DEVICE of the top-level file of some device. */
  lemma ListedExactly(c: Files, x: string)
    ensures x in Listing(c) <==> exists n :: ListedFor(c, x, n)
  {
    var names := Sorted(DevicesOf(c.ifcfg));
    var paths := Paths(c, names);
    PathsInStore(c, names);
    IdsExactly(c.ifcfg, TopPaths(c), x);
    if x in Listing(c) {
      var p :| p in TopPaths(c) && p in c.ifcfg && c.ifcfg[p].DEVICE == Some(x);
      UnslavedExactly(c.ifcfg, paths, p);
      PathsExactly(c, names, p);
      var n :| n in names && FindPath(c, n) == Some(p);
      assert n in ToSet(names);
      assert ListedFor(c, x, n);
    }
    if n :| ListedFor(c, x, n) {
      var p := FindPath(c, n).value;
      assert n in ToSet(names);
      PathsExactly(c, names, p);
      UnslavedExactly(c.ifcfg, paths, p);
    }
  }

  /** In a store of named files: exactly the devices whose tree has neither MASTER nor BRIDGE, sorted. */
  lemma ListedNamed(c: Files)
    requires forall p | p in c.ifcfg :: c.ifcfg[p].DEVICE == Some(p)
    ensures forall x :: x in Listing(c) <==> x in c.ifcfg && c.ifcfg[x].MASTER == None && c.ifcfg[x].BRIDGE == None
    ensures forall i, j | 0 <= i < j < |Listing(c)| ::
      Leq(Listing(c)[i], Listing(c)[j]) && Listing(c)[i] != Listing(c)[j]
  {
    ListingTopLevel(c);
    assert forall x :: x in Listing(c) <==> x in ToSet(Sorted(TopLevel(c.ifcfg)));
  }

  // ---- active and inactive ----

  /** A name is wanted when it is active and active ones are, or is not and inactive ones are. */
  lemma {:induction false} QualifyingExactly(
    names: seq<string>, up: set<string>, active: bool, inactive: bool, x: string)
    ensures x in Qualifying(names, up, Flags(active, inactive)) <==>
            x in names && if x in up then active else inactive
  {
    if names != [] {
      QualifyingExactly(names[1..], up, active, inactive, x);
    }
  }

  /** The names wanted stay in order, and none is repeated or merged. */
  lemma QualifyingOrder(a: seq<string>, x: string, b: seq<string>, up: set<string>, active: bool, inactive: bool)
    ensures var flags := Flags(active, inactive);
      Qualifying(a + [x] + b, up, flags)
      == Qualifying(a, up, flags)
         + (if (x in up && active) || (x !in up && inactive) then [x] else [])
         + Qualifying(b, up, flags)
  {
    var flags := Flags(active, inactive);
    QualifyingConcat(a + [x], b, up, flags);
    QualifyingConcat(a, [x], up, flags);
    assert [x][1..] == [] && Qualifying([], up, flags) == [];
  }

  // ---- removal and description ----

  /** Some tree with BRIDGE = name is the MASTER of the tree. */
  ghost predicate OnBridge(s: Store, n: Nodes, name: string) {
    exists p | p in s :: s[p].BRIDGE == Some(name) && s[p].DEVICE.Some? && n.MASTER == s[p].DEVICE
  }

  /** rm_interface takes away the device, what is attached or enslaved to it, and the slaves of bonds attached to it. */
  lemma RemovedExactly(s: Store, name: string, p: string)
    requires p in s
    ensures p !in Rm(s, name) <==>
            s[p].DEVICE == Some(name) || s[p].BRIDGE == Some(name) || s[p].MASTER == Some(name)
            || OnBridge(s, s[p], name)
    ensures p in Rm(s, name) ==> Rm(s, name)[p] == s[p]
  {
  }

  /** The names a define removes: those of the root and of what is enslaved to it, a VLAN by its name attribute. */
  lemma NamesRemoved(k: Kind)
    ensures k.EthernetKind? ==> Attrs(k) == [k.ethernet.name]
    ensures k.VlanKind? ==> Attrs(k) == [if k.vlan.name.Some? then k.vlan.name.value else ""]
    ensures k.BondKind? ==> Attrs(k) == [k.name] + SlaveNames(k.bond.slaves)
    ensures k.BridgeKind? ==> Attrs(k) == [k.name] + PortsAttrs(k.ports)
  {
  }

  /** Port after port: its name and, for a bond, its slaves. */
  lemma {:induction false} PortsRemoved(p: Port, ports: seq<Port>)
    ensures PortsAttrs([]) == []
    ensures PortsAttrs([p] + ports)
         == (match p
             case EthernetPort(e) => [e.name]
             case VlanPort(v) => [if v.name.Some? then v.name.value else ""]
             case BondPort(name, bond) => [name] + SlaveNames(bond.slaves))
          + PortsAttrs(ports)
  {
    assert ([p] + ports)[1..] == ports;
    NoneBeside([PortName(p)]);
  }

  lemma SlaveNamed(slaves: seq<Ethernet>, i: nat)
    requires i < |slaves|
    ensures |SlaveNames(slaves)| == |slaves| && SlaveNames(slaves)[i] == slaves[i].name
  {
  }

  /** A define removes one name after the other, and then writes file after file. */
  lemma DefineSteps(c: Files, d: Interface, name: string, names: seq<string>, t: Tree, trees: Forest)
    requires Define(c, d).Done?
    ensures Attrs(d.kind) == names && Get(d).value == trees ==>
      Define(c, d).value.ifcfg == PutForest(RmAll(c.ifcfg, names), trees)
    ensures RmAll(c.ifcfg, []) == c.ifcfg && RmAll(c.ifcfg, [name] + names) == RmAll(Rm(c.ifcfg, name), names)
    ensures PutForest(c.ifcfg, []) == c.ifcfg
    ensures PutForest(c.ifcfg, [t] + trees) == PutForest(c.ifcfg[t.file := t.nodes], trees)
  {
    assert ([name] + names)[1..] == names && ([t] + trees)[1..] == trees;
  }

  /** The devices described are those rm_interface would take away. */
  lemma RelatedExactly(s: Store, name: string, x: string)
    ensures x in RelatedDevices(s, name) <==> exists p | p in s && p !in Rm(s, name) :: s[p].DEVICE == Some(x)
  {
    if p :| p in s && p !in Rm(s, name) && s[p].DEVICE == Some(x) {
      assert Related(s, s[p], name);
    }
  }

  /** The tree is the file of the name. */
  ghost predicate TreeOf(c: Files, name: string, t: Tree) {
    FindPath(c, name) == Some(t.file) && c.ifcfg[t.file] == t.nodes
  }

  lemma {:induction false} TreesInOrder(c: Files, names: seq<string>)
    requires RedHatDescribe.AllFound(c, names)
    ensures |RedHatDescribe.TreesAt(c, names)| == |names|
    ensures forall i | 0 <= i < |names| :: TreeOf(c, names[i], RedHatDescribe.TreesAt(c, names)[i])
  {
    if names != [] {
      assert names[0] in names;
      TreesInOrder(c, names[1..]);
    }
  }

  /** What is read for a description: of each related device, in sorted order, the file of its name. */
  lemma DescribedTrees(c: Files, name: string, names: seq<string>)
    requires StrictlySorted(names)
    requires forall x :: x in names <==> exists p | p in c.ifcfg && p !in Rm(c.ifcfg, name) ::
      c.ifcfg[p].DEVICE == Some(x)
    ensures |RedHatDescribe.DescForest(c, name)| == |names|
    ensures forall i | 0 <= i < |names| :: TreeOf(c, names[i], RedHatDescribe.DescForest(c, name)[i])
  {
    forall x
      ensures x in names <==> x in RelatedDevices(c.ifcfg, name)
    {
      RelatedExactly(c.ifcfg, name, x);
    }
    SortedUnique(names, Sorted(RelatedDevices(c.ifcfg, name)));
    RedHatDescribe.RelatedFound(c, name);
    TreesInOrder(c, names);
  }
}
