// What redhat-put.xsl makes of a forest that redhat-get.xsl wrote: the image of a document, the links
// that stand for it in a forest, and why a compiled forest has them.
module RedHatImage {
  import opened Text
  import opened Document
  import opened RedHat
  import opened RedHatAddressing
  import BondOpts

  // ---- what comes back of each part ----

  function ImageBond(b: Bond): Bond {
    BondOpts.Parse(BondOpts.Print(b), b.slaves)
  }

  function ImageVlan(v: Vlan): Vlan {
    Vlan(Some(VlanName(v)), Before(VlanName(v), '.'), After(VlanName(v), '.'))
  }

  function ImagePort(p: Port): Port {
    match p
    case EthernetPort(_) => p
    case VlanPort(v) => VlanPort(ImageVlan(v))
    case BondPort(name, bond) => BondPort(name, ImageBond(bond))
  }

  function ImagePorts(ports: seq<Port>): seq<Port> {
    if ports == [] then [] else [ImagePort(ports[0])] + ImagePorts(ports[1..])
  }

  function ImageKind(k: Kind): Kind {
    match k
    case EthernetKind(_) => k
    case VlanKind(v) => VlanKind(ImageVlan(v))
    case BridgeKind(name, stp, delay, ports) => BridgeKind(name, stp, delay, ImagePorts(ports))
    case BondKind(name, bond) => BondKind(name, ImageBond(bond))
  }

  /** The interface a compiled interface is read back as. */
  function Image(d: Interface): Interface
    requires d.addressing.ipv4.Some? ==> IPv4Nodes(d.addressing.ipv4.value).Ok?
  {
    Interface(ImageKind(d.kind), d.start, d.mtu, ImageAddressing(d.addressing))
  }

  // ---- forests that stand for an interface, in whatever order ----

  /** No template matches the tree. */
  predicate Dead(f: Forest, t: Tree) {
    PutKind(f, t.nodes).None?
  }

  function PrimaryOf(b: Bond): string {
    BondOpts.BondOption(BondOpts.Print(b), "primary")
  }

  /** Reading the slaves of the bond out of the forest gives the slaves of the document. */
  predicate HasSlaves(f: Forest, name: string, b: Bond) {
    Arrange(Select(f, ToMaster, Some(name)), PrimaryOf(b)) == b.slaves
  }

  predicate HasLinks(f: Forest, k: Kind) {
    match k
    case EthernetKind(e) => Select(f, ToMaster, Some(e.name)) == []
    case VlanKind(v) => Select(f, ToMaster, Some(VlanName(v))) == []
    case BondKind(name, bond) => Select(f, ToMaster, Some(name)) != [] && HasSlaves(f, name, bond)
    case BridgeKind(name, _, _, ports) =>
      Select(f, ToMaster, Some(name)) == [] && PutPorts(f, Select(f, ToBridge, Some(name))) == ImagePorts(ports)
  }

  ghost predicate OneRoot(f: Forest, root: Tree) {
    exists i | 0 <= i < |f| :: f[i] == root && forall j | 0 <= j < |f| && j != i :: Dead(f, f[j])
  }

  ghost predicate Realises(f: Forest, d: Interface) {
    RootTree(d).Ok? && OneRoot(f, RootTree(d).value) && HasLinks(f, d.kind)
  }

  // ---- reading one tree of a forest ----

  lemma {:induction false} PutTreesDead(f: Forest, trees: Forest)
    requires forall t | t in trees :: Dead(f, t)
    ensures PutTrees(f, trees) == Ok([])
  {
    if trees != [] {
      assert trees[0] in trees;
      DeadTree(f, trees[0]);
      PutTreesDead(f, trees[1..]);
      PutTreesStep(f, trees, []);
    }
  }

  lemma PutTreesStep(f: Forest, trees: Forest, x: seq<Interface>)
    requires trees != [] && PutTree(f, trees[0].nodes) == Ok(x) && PutTrees(f, trees[1..]).Ok?
    ensures PutTrees(f, trees) == Ok(x + PutTrees(f, trees[1..]).value)
    ensures x == [] ==> PutTrees(f, trees) == PutTrees(f, trees[1..])
    ensures PutTrees(f, trees[1..]).value == [] ==> PutTrees(f, trees) == Ok(x)
  {
    assert x + [] == x;
    assert x == [] ==> x + PutTrees(f, trees[1..]).value == PutTrees(f, trees[1..]).value;
  }

  /** The trees other than the one at i leave nothing. */
  ghost predicate DeadBut(f: Forest, trees: Forest, i: nat) {
    forall j | 0 <= j < |trees| && j != i :: Dead(f, trees[j])
  }

  lemma DeadRest(f: Forest, trees: Forest)
    requires trees != [] && DeadBut(f, trees, 0)
    ensures forall t | t in trees[1..] :: Dead(f, t)
  {
    assert forall j | 0 < j < |trees| :: trees[1..][j - 1] == trees[j];
  }

  lemma {:induction false} PutTreesOne(f: Forest, trees: Forest, i: nat, x: Interface)
    requires i < |trees| && PutTree(f, trees[i].nodes) == Ok([x]) && DeadBut(f, trees, i)
    ensures PutTrees(f, trees) == Ok([x])
  {
    if i == 0 {
      DeadRest(f, trees);
      PutTreesDead(f, trees[1..]);
      PutTreesStep(f, trees, [x]);
    } else {
      DeadTree(f, trees[0]);
      forall j | 0 <= j < |trees[1..]| && j != i - 1
        ensures Dead(f, trees[1..][j])
      {
        assert trees[1..][j] == trees[j + 1];
      }
      PutTreesOne(f, trees[1..], i - 1, x);
      PutTreesStep(f, trees, []);
    }
  }

  lemma DeadTree(f: Forest, t: Tree)
    requires Dead(f, t)
    ensures PutTree(f, t.nodes) == Ok([])
  {
  }

  predicate IsCommon(c: Nodes) {
    c.(ONBOOT := None, HOTPLUG := None, MTU := None) == NO_NODES
  }

  lemma CommonIsCommon(d: Interface)
    ensures IsCommon(CommonNodes(d))
    ensures PutStart(CommonNodes(d)) == d.start
    ensures d.mtu != Some("") ==> CommonNodes(d).MTU == d.mtu
  {
  }

  lemma PutKindRoot(f: Forest, d: Interface)
    requires ValidInterface(d) && RootTree(d).Ok? && HasLinks(f, d.kind)
    ensures PutKind(f, RootTree(d).value.nodes) == Some(ImageKind(d.kind))
  {
    CommonIsCommon(d);
  }

  lemma RootNodes(d: Interface)
    requires RootTree(d).Ok?
    ensures var n, c := RootTree(d).value.nodes, CommonNodes(d);
      n.ONBOOT == c.ONBOOT && n.HOTPLUG == c.HOTPLUG && n.MTU == c.MTU
  {
  }

  lemma PutTreeOf(f: Forest, n: Nodes, x: Interface)
    requires PutKind(f, n) == Some(x.kind) && PutAddressing(n) == Ok(x.addressing)
    requires PutStart(n) == x.start && n.MTU == x.mtu
    ensures PutTree(f, n) == Ok([x])
  {
  }

  lemma PutRoot(f: Forest, d: Interface)
    requires ValidInterface(d) && RootTree(d).Ok? && HasLinks(f, d.kind)
    ensures PutTree(f, RootTree(d).value.nodes) == Ok([Image(d)])
  {
    CommonIsCommon(d);
    RootNodes(d);
    PutKindRoot(f, d);
    PutAddressingGet(d.addressing, KindNodes(d.kind, CommonNodes(d)));
    PutTreeOf(f, RootTree(d).value.nodes, Image(d));
  }

  // ---- the links of a compiled forest ----

  lemma {:induction false} SelectConcat(a: Forest, b: Forest, link: Link, device: Option<string>)
    ensures Select(a + b, link, device) == Select(a, link, device) + Select(b, link, device)
  {
    if a == [] {
      assert a + b == b;
    } else {
      assert (a + b)[1..] == a[1..] + b;
      SelectConcat(a[1..], b, link, device);
    }
  }

  lemma SelectTail(root: Tree, trees: Forest, link: Link, device: string)
    requires Target(root.nodes, link) != Some(device)
    ensures Select([root] + trees, link, Some(device)) == Select(trees, link, Some(device))
  {
    assert ([root] + trees)[1..] == trees;
    assert [] + Select(trees, link, Some(device)) == Select(trees, link, Some(device));
  }

  lemma {:induction false} SelectNone(f: Forest, link: Link, device: Option<string>)
    requires forall t | t in f :: device.Some? ==> Target(t.nodes, link) != device
    ensures Select(f, link, device) == []
  {
    if f != [] {
      assert f[0] in f;
      SelectNone(f[1..], link, device);
    }
  }

  lemma {:induction false} SelectAll(f: Forest, link: Link, device: string)
    requires forall t | t in f :: Target(t.nodes, link) == Some(device)
    ensures Select(f, link, Some(device)) == f
  {
    if f != [] {
      assert f[0] in f;
      SelectAll(f[1..], link, device);
    }
  }

  lemma {:induction false} SlaveTreesShape(bond: string, common: Nodes, slaves: seq<Ethernet>)
    requires IsCommon(common)
    ensures |SlaveTrees(bond, common, slaves)| == |slaves|
    ensures forall t | t in SlaveTrees(bond, common, slaves) ::
      t.nodes.MASTER == Some(bond) && t.nodes.BRIDGE.None? && t.nodes.TYPE.None? && t.nodes.DEVICE == Some(t.file)
      && exists e | e in slaves :: t == SlaveTree(bond, common, e)
  {
    if slaves != [] {
      SlaveTreesShape(bond, common, slaves[1..]);
      assert slaves[0] in slaves;
      assert forall e | e in slaves[1..] :: e in slaves;
    }
  }

  /** The pure counterpart of Slaves. */
  function Pick(slaves: seq<Ethernet>, primary: string, want: bool): seq<Ethernet> {
    if slaves == [] then []
    else (if (slaves[0].name == primary) == want then [slaves[0]] else []) + Pick(slaves[1..], primary, want)
  }

  lemma {:induction false} SlavesOfTrees(
    bond: string, common: Nodes, slaves: seq<Ethernet>, primary: string, want: bool)
    requires IsCommon(common)
    ensures Slaves(SlaveTrees(bond, common, slaves), primary, want) == Pick(slaves, primary, want)
  {
    if slaves != [] {
      SlavesOfTrees(bond, common, slaves[1..], primary, want);
    }
  }

  lemma {:induction false} PickOthers(slaves: seq<Ethernet>, primary: string)
    requires forall e | e in slaves :: e.name != primary
    ensures Pick(slaves, primary, true) == [] && Pick(slaves, primary, false) == slaves
  {
    if slaves != [] {
      assert slaves[0] in slaves;
      PickOthers(slaves[1..], primary);
    }
  }

  lemma ArrangeFirst(name: string, common: Nodes, slaves: seq<Ethernet>)
    requires IsCommon(common) && slaves != [] && Distinct(SlaveNames(slaves))
    ensures Arrange(SlaveTrees(name, common, slaves), slaves[0].name) == slaves
  {
    var primary := slaves[0].name;
    SlavesOfTrees(name, common, slaves, primary, true);
    SlavesOfTrees(name, common, slaves, primary, false);
    forall e | e in slaves[1..]
      ensures e.name != primary
    {
      var i :| 0 <= i < |slaves[1..]| && slaves[1..][i] == e;
      assert SlaveNames(slaves)[0] != SlaveNames(slaves)[i + 1];
    }
    PickOthers(slaves[1..], primary);
  }

  lemma ArrangeNone(name: string, common: Nodes, slaves: seq<Ethernet>)
    requires IsCommon(common) && forall e | e in slaves :: e.name != ""
    ensures Arrange(SlaveTrees(name, common, slaves), "") == slaves
  {
    SlavesOfTrees(name, common, slaves, "", true);
    SlavesOfTrees(name, common, slaves, "", false);
    PickOthers(slaves, "");
  }

  /** The primary is the first slave or nobody, so putting it first changes nothing. */
  lemma ArrangeBond(name: string, common: Nodes, b: Bond)
    requires ValidBond(b) && IsCommon(common) && Distinct(SlaveNames(b.slaves))
    ensures Arrange(SlaveTrees(name, common, b.slaves), PrimaryOf(b)) == b.slaves
  {
    BondOpts.LookupBond(b, "primary");
    if BondOpts.Primary(b).Some? {
      ArrangeFirst(name, common, b.slaves);
    } else {
      ArrangeNone(name, common, b.slaves);
    }
  }

  function PortTrees(bridge: string, common: Nodes, ports: seq<Port>): Forest {
    if ports == [] then [] else [PortTree(bridge, common, ports[0])] + PortTrees(bridge, common, ports[1..])
  }

  lemma SelectStep(bridge: string, common: Nodes, ports: seq<Port>, link: Link, device: Option<string>)
    requires ports != []
    ensures Select(PortsForest(bridge, common, ports), link, device)
         == Select(PortForest(bridge, common, ports[0]), link, device)
            + Select(PortsForest(bridge, common, ports[1..]), link, device)
  {
    SelectConcat(PortForest(bridge, common, ports[0]), PortsForest(bridge, common, ports[1..]), link, device);
  }

  lemma SelectPort(bridge: string, common: Nodes, p: Port)
    requires IsCommon(common)
    ensures Select(PortForest(bridge, common, p), ToBridge, Some(bridge)) == [PortTree(bridge, common, p)]
  {
    var slaves := if p.BondPort? then SlaveTrees(p.name, common, p.bond.slaves) else [];
    SelectConcat([PortTree(bridge, common, p)], slaves, ToBridge, Some(bridge));
    if p.BondPort? {
      SlaveTreesShape(p.name, common, p.bond.slaves);
    }
    SelectNone(slaves, ToBridge, Some(bridge));
  }

  lemma {:induction false} SelectPorts(bridge: string, common: Nodes, ports: seq<Port>)
    requires IsCommon(common)
    ensures Select(PortsForest(bridge, common, ports), ToBridge, Some(bridge)) == PortTrees(bridge, common, ports)
  {
    if ports != [] {
      SelectStep(bridge, common, ports, ToBridge, Some(bridge));
      SelectPort(bridge, common, ports[0]);
      SelectPorts(bridge, common, ports[1..]);
    }
  }

  lemma SelectOnePort(bridge: string, common: Nodes, p: Port, name: string)
    requires IsCommon(common)
    ensures Select(PortForest(bridge, common, p), ToMaster, Some(name))
         == if p.BondPort? && p.name == name then SlaveTrees(name, common, p.bond.slaves) else []
  {
    var slaves := if p.BondPort? then SlaveTrees(p.name, common, p.bond.slaves) else [];
    SelectConcat([PortTree(bridge, common, p)], slaves, ToMaster, Some(name));
    if p.BondPort? {
      SlaveTreesShape(p.name, common, p.bond.slaves);
      if p.name == name {
        SelectAll(slaves, ToMaster, name);
      } else {
        SelectNone(slaves, ToMaster, Some(name));
      }
    }
  }

  lemma {:induction false} SelectNoMaster(bridge: string, common: Nodes, ports: seq<Port>, name: string)
    requires IsCommon(common)
    requires forall p | p in ports && p.BondPort? :: p.name != name
    ensures Select(PortsForest(bridge, common, ports), ToMaster, Some(name)) == []
  {
    if ports != [] {
      SelectStep(bridge, common, ports, ToMaster, Some(name));
      SelectOnePort(bridge, common, ports[0], name);
      assert ports[0] in ports;
      SelectNoMaster(bridge, common, ports[1..], name);
    }
  }

  /** The trees with MASTER = p.name are the slave trees of the bond port p. */
  lemma {:induction false} SelectMaster(bridge: string, common: Nodes, ports: seq<Port>, p: Port)
    requires IsCommon(common) && Distinct(PortsNames(ports)) && p in ports && p.BondPort?
    ensures Select(PortsForest(bridge, common, ports), ToMaster, Some(p.name))
         == SlaveTrees(p.name, common, p.bond.slaves)
  {
    var first, rest := ports[0], ports[1..];
    DistinctParts(PortNames(first), PortsNames(rest));
    SelectStep(bridge, common, ports, ToMaster, Some(p.name));
    SelectOnePort(bridge, common, first, p.name);
    assert PortName(first) in PortNames(first);
    if p in rest {
      PortNamed(rest, p);
      SelectMaster(bridge, common, rest, p);
    } else {
      forall q | q in rest && q.BondPort?
        ensures q.name != p.name
      {
        PortNamed(rest, q);
      }
      SelectNoMaster(bridge, common, rest, p.name);
    }
  }

  // ---- distinct names ----

  lemma DistinctParts(a: seq<string>, b: seq<string>)
    requires Distinct(a + b)
    ensures Distinct(a) && Distinct(b)
    ensures forall x | x in a :: x !in b
  {
    var s := a + b;
    assert forall i | 0 <= i < |a| :: s[i] == a[i];
    assert forall i | 0 <= i < |b| :: s[|a| + i] == b[i];
    forall x | x in a
      ensures x !in b
    {
      var i :| 0 <= i < |a| && a[i] == x;
      forall j | 0 <= j < |b|
        ensures b[j] != x
      {
        assert s[i] != s[|a| + j];
      }
    }
  }

  lemma {:induction false} PortNamed(ports: seq<Port>, p: Port)
    requires p in ports
    ensures forall x | x in PortNames(p) :: x in PortsNames(ports)
    ensures PortName(p) in PortsNames(ports)
  {
    assert PortName(p) in PortNames(p);
    if p != ports[0] {
      PortNamed(ports[1..], p);
    }
  }

  lemma SlaveNamed(slaves: seq<Ethernet>, e: Ethernet)
    requires e in slaves
    ensures e.name in SlaveNames(slaves)
  {
    var i :| 0 <= i < |slaves| && slaves[i] == e;
    assert SlaveNames(slaves)[i] == e.name;
  }

  /** No slave of a port carries the name of a port. */
  lemma {:induction false} SlaveNotPort(ports: seq<Port>, p: Port, e: Ethernet, q: Port)
    requires Distinct(PortsNames(ports)) && p in ports && q in ports
    requires p.BondPort? && e in p.bond.slaves
    ensures e.name != PortName(q)
  {
    var first, rest := ports[0], ports[1..];
    DistinctParts(PortNames(first), PortsNames(rest));
    SlaveNamed(p.bond.slaves, e);
    assert e.name in PortNames(p);
    if p == first {
      DistinctParts([PortName(p)], SlaveNames(p.bond.slaves));
    }
    if q in rest {
      PortNamed(rest, q);
    }
    if p in rest {
      PortNamed(rest, p);
    }
    if p in rest && q in rest {
      SlaveNotPort(rest, p, e, q);
    }
  }

  /** Every tree below a bridge is a port tree, or a slave tree of one of its bonds. */
  lemma {:induction false} PortsForestShape(bridge: string, common: Nodes, ports: seq<Port>, t: Tree)
    requires IsCommon(common) && t in PortsForest(bridge, common, ports)
    ensures t.nodes.TYPE.None? && t.nodes.DEVICE == Some(t.file)
    ensures t.nodes.BRIDGE.Some? ==> t.nodes.MASTER.None?
    ensures t.nodes.BRIDGE.None? ==>
      exists p, e | p in ports && p.BondPort? && e in p.bond.slaves :: t == SlaveTree(p.name, common, e)
  {
    var p, rest := ports[0], ports[1..];
    if t in PortsForest(bridge, common, rest) {
      PortsForestShape(bridge, common, rest, t);
      assert forall q | q in rest :: q in ports;
    } else if t != PortTree(bridge, common, p) {
      assert p.BondPort? && t in SlaveTrees(p.name, common, p.bond.slaves);
      SlaveTreesShape(p.name, common, p.bond.slaves);
      assert p in ports;
    }
  }

  // ---- a compiled forest realises its document ----

  lemma {:induction false} PutPortTrees(f: Forest, bridge: string, common: Nodes, ports: seq<Port>)
    requires IsCommon(common)
    requires forall p | p in ports && p.BondPort? :: HasSlaves(f, p.name, p.bond)
    ensures PutPorts(f, PortTrees(bridge, common, ports)) == ImagePorts(ports)
  {
    if ports != [] {
      assert ports[0] in ports;
      PutPortTrees(f, bridge, common, ports[1..]);
    }
  }

  lemma SlaveDead(root: Tree, name: string, common: Nodes, slaves: seq<Ethernet>, t: Tree)
    requires IsCommon(common) && Distinct([name] + SlaveNames(slaves))
    requires root.nodes.MASTER.None? && t in SlaveTrees(name, common, slaves)
    ensures Dead([root] + SlaveTrees(name, common, slaves), t)
  {
    var trees := SlaveTrees(name, common, slaves);
    DistinctParts([name], SlaveNames(slaves));
    SlaveTreesShape(name, common, slaves);
    var e :| e in slaves && t == SlaveTree(name, common, e);
    SlaveNamed(slaves, e);
    SelectTail(root, trees, ToMaster, e.name);
    SelectNone(trees, ToMaster, Some(e.name));
  }

  lemma BondLinks(root: Tree, name: string, common: Nodes, b: Bond)
    requires ValidBond(b) && IsCommon(common) && Distinct([name] + SlaveNames(b.slaves))
    requires root.nodes.MASTER.None?
    ensures var f := [root] + SlaveTrees(name, common, b.slaves);
      Select(f, ToMaster, Some(name)) != [] && HasSlaves(f, name, b)
  {
    var trees := SlaveTrees(name, common, b.slaves);
    DistinctParts([name], SlaveNames(b.slaves));
    SlaveTreesShape(name, common, b.slaves);
    SelectTail(root, trees, ToMaster, name);
    SelectAll(trees, ToMaster, name);
    ArrangeBond(name, common, b);
  }

  lemma BridgeMasters(root: Tree, name: string, common: Nodes, ports: seq<Port>, device: string)
    requires IsCommon(common) && root.nodes.MASTER.None?
    requires forall p | p in ports && p.BondPort? :: p.name != device
    ensures Select([root] + PortsForest(name, common, ports), ToMaster, Some(device)) == []
  {
    SelectTail(root, PortsForest(name, common, ports), ToMaster, device);
    SelectNoMaster(name, common, ports, device);
  }

  lemma BridgePortSlaves(root: Tree, name: string, common: Nodes, ports: seq<Port>, p: Port)
    requires IsCommon(common) && root.nodes.MASTER.None? && Distinct(PortsNames(ports))
    requires p in ports && p.BondPort? && ValidBond(p.bond)
    ensures HasSlaves([root] + PortsForest(name, common, ports), p.name, p.bond)
  {
    SelectTail(root, PortsForest(name, common, ports), ToMaster, p.name);
    SelectMaster(name, common, ports, p);
    PortDistinct(ports, p);
    ArrangeBond(p.name, common, p.bond);
  }

  lemma {:induction false} PortDistinct(ports: seq<Port>, p: Port)
    requires Distinct(PortsNames(ports)) && p in ports && p.BondPort?
    ensures Distinct(SlaveNames(p.bond.slaves))
  {
    DistinctParts(PortNames(ports[0]), PortsNames(ports[1..]));
    if p == ports[0] {
      DistinctParts([p.name], SlaveNames(p.bond.slaves));
    } else {
      PortDistinct(ports[1..], p);
    }
  }

  lemma BridgeLinks(root: Tree, name: string, common: Nodes, ports: seq<Port>)
    requires IsCommon(common) && root.nodes.MASTER.None? && root.nodes.BRIDGE.None?
    requires Distinct([name] + PortsNames(ports)) && forall p | p in ports :: ValidPort(p)
    ensures var f := [root] + PortsForest(name, common, ports);
      Select(f, ToMaster, Some(name)) == [] && PutPorts(f, Select(f, ToBridge, Some(name))) == ImagePorts(ports)
  {
    var trees := PortsForest(name, common, ports);
    var f := [root] + trees;
    DistinctParts([name], PortsNames(ports));
    forall p | p in ports
      ensures PortName(p) != name
      ensures p.BondPort? ==> HasSlaves(f, p.name, p.bond)
    {
      PortNamed(ports, p);
      if p.BondPort? {
        BridgePortSlaves(root, name, common, ports, p);
      }
    }
    BridgeMasters(root, name, common, ports, name);
    SelectTail(root, trees, ToBridge, name);
    SelectPorts(name, common, ports);
    PutPortTrees(f, name, common, ports);
  }

  lemma BridgeTreeDead(root: Tree, name: string, common: Nodes, ports: seq<Port>, t: Tree)
    requires IsCommon(common) && root.nodes.MASTER.None? && Distinct(PortsNames(ports))
    requires t in PortsForest(name, common, ports)
    ensures Dead([root] + PortsForest(name, common, ports), t)
  {
    PortsForestShape(name, common, ports, t);
    if t.nodes.BRIDGE.None? {
      var p, e :| p in ports && p.BondPort? && e in p.bond.slaves && t == SlaveTree(p.name, common, e);
      forall q | q in ports && q.BondPort?
        ensures q.name != e.name
      {
        SlaveNotPort(ports, p, e, q);
      }
      BridgeMasters(root, name, common, ports, e.name);
    }
  }

  lemma RootFirst(f: Forest, root: Tree, trees: Forest)
    requires f == [root] + trees && forall t | t in trees :: Dead(f, t)
    ensures OneRoot(f, root)
  {
    assert f[0] == root;
    assert forall j | 1 <= j < |f| :: f[j] in trees;
  }

  lemma BondRealises(d: Interface)
    requires ValidInterface(d) && Distinct(Devices(d.kind)) && Get(d).Ok? && d.kind.BondKind?
    ensures Realises(Get(d).value, d)
  {
    var root, trees := RootTree(d).value, SubTrees(d);
    var common := CommonNodes(d);
    CommonIsCommon(d);
    BondLinks(root, d.kind.name, common, d.kind.bond);
    forall t | t in trees
      ensures Dead([root] + trees, t)
    {
      SlaveDead(root, d.kind.name, common, d.kind.bond.slaves, t);
    }
    RootFirst([root] + trees, root, trees);
  }

  lemma BridgeRealises(d: Interface)
    requires ValidInterface(d) && Distinct(Devices(d.kind)) && Get(d).Ok? && d.kind.BridgeKind?
    ensures Realises(Get(d).value, d)
  {
    var root, trees := RootTree(d).value, SubTrees(d);
    var common := CommonNodes(d);
    CommonIsCommon(d);
    DistinctParts([d.kind.name], PortsNames(d.kind.ports));
    BridgeLinks(root, d.kind.name, common, d.kind.ports);
    forall t | t in trees
      ensures Dead([root] + trees, t)
    {
      BridgeTreeDead(root, d.kind.name, common, d.kind.ports, t);
    }
    RootFirst([root] + trees, root, trees);
  }
}
