// The live description of each kind of interface, spelled out from the links and files of the system.
module LiveStateDetail {
  import opened Text
  import opened LiveState

  // ---- searching the links ----

  /** The first link of that name. */
  predicate FirstNamed(links: seq<Link>, name: string, i: nat) {
    i < |links| && links[i].name == name && forall j | 0 <= j < i :: links[j].name != name
  }

  lemma {:induction false} IndexNamed(links: seq<Link>, name: string, i: nat)
    requires FirstNamed(links, name, i)
    ensures IndexOfName(links, name) == links[i].index
  {
    if i > 0 {
      assert links[0].name != name;
      IndexNamed(links[1..], name, i - 1);
    }
  }

  lemma {:induction false} IndexUnnamed(links: seq<Link>, name: string)
    requires forall l | l in links :: l.name != name
    ensures IndexOfName(links, name) == 0
  {
    if links != [] {
      assert links[0] in links;
      IndexUnnamed(links[1..], name);
    }
  }

  predicate FirstIndexed(links: seq<Link>, index: nat, i: nat) {
    i < |links| && links[i].index == index && forall j | 0 <= j < i :: links[j].index != index
  }

  lemma {:induction false} LinkIndexed(links: seq<Link>, index: nat, i: nat)
    requires FirstIndexed(links, index, i)
    ensures LinkAt(links, index) == Some(links[i])
  {
    if i > 0 {
      assert links[0].index != index;
      LinkIndexed(links[1..], index, i - 1);
    }
  }

  lemma {:induction false} LinkMissing(links: seq<Link>, index: nat)
    requires forall l | l in links :: l.index != index
    ensures LinkAt(links, index) == None
  {
    if links != [] {
      assert links[0] in links;
      LinkMissing(links[1..], index);
    }
  }

  /** The link has the index and an address. */
  predicate Addressed(l: Link, index: nat) {
    l.index == index && l.mac.Some?
  }

  lemma {:induction false} MacFirst(links: seq<Link>, index: nat, i: nat)
    requires i < |links| && Addressed(links[i], index) && forall j | 0 <= j < i :: !Addressed(links[j], index)
    ensures FindMac(links, index) == links[i].mac
  {
    if i > 0 {
      assert !Addressed(links[0], index);
      MacFirst(links[1..], index, i - 1);
    }
  }

  lemma {:induction false} MacMissing(links: seq<Link>, index: nat)
    requires forall l | l in links :: !Addressed(l, index)
    ensures FindMac(links, index) == None
  {
    if links != [] {
      assert links[0] in links && !Addressed(links[0], index);
      MacMissing(links[1..], index);
    }
  }

  /** A VLAN link of that index whose lower link exists. */
  predicate OnLink(links: seq<Link>, l: Link, index: nat) {
    l.index == index && l.kind == "vlan" && l.lower != 0 && exists m | m in links :: m.index == l.lower
  }

  lemma OnLinkMaster(sys: System, l: Link, index: nat)
    ensures OnLink(sys.links, l, index) <==> l.index == index && MasterOf(sys, l).Some?
  {
    LinkAtIn(sys.links, l.lower);
    if forall m | m in sys.links :: m.index != l.lower {
      LinkMissing(sys.links, l.lower);
    } else {
      LinkThere(sys.links, l.lower);
    }
    LinkAtIndex(sys.links, l.lower);
  }

  lemma {:induction false} LinkAtIndex(links: seq<Link>, index: nat)
    ensures LinkAt(links, index).Some? ==> LinkAt(links, index).value.index == index
  {
    if links != [] {
      LinkAtIndex(links[1..], index);
    }
  }

  lemma {:induction false} LinkThere(links: seq<Link>, index: nat)
    requires exists l | l in links :: l.index == index
    ensures LinkAt(links, index).Some?
  {
    if links[0].index != index {
      LinkThere(links[1..], index);
    }
  }

  lemma {:induction false} VlanFirst(sys: System, links: seq<Link>, index: nat, i: nat, k: nat)
    requires i < |links| && OnLink(sys.links, links[i], index)
    requires forall j | 0 <= j < i :: !OnLink(sys.links, links[j], index)
    requires FirstIndexed(sys.links, links[i].lower, k)
    ensures FindVlan(sys, links, index) == Some(VlanLink(links[i].vlanId, sys.links[k].name))
  {
    OnLinkMaster(sys, links[0], index);
    if i > 0 {
      assert !OnLink(sys.links, links[0], index);
      VlanFirst(sys, links[1..], index, i - 1, k);
    } else {
      LinkIndexed(sys.links, links[0].lower, k);
    }
  }

  lemma {:induction false} VlanMissing(sys: System, links: seq<Link>, index: nat)
    requires forall l | l in links :: !OnLink(sys.links, l, index)
    ensures FindVlan(sys, links, index) == None
  {
    if links != [] {
      assert links[0] in links;
      OnLinkMaster(sys, links[0], index);
      VlanMissing(sys, links[1..], index);
    }
  }

  /** Link after link; those that are slaves of the index, and no others. */
  lemma {:induction false} SlavesInOrder(a: seq<Link>, b: seq<Link>, index: nat)
    ensures SlavesOf(a + b, index) == SlavesOf(a, index) + SlavesOf(b, index)
  {
    if a == [] {
      NoneBeside(SlavesOf(b, index));
      assert a + b == b;
    } else {
      assert (a + b)[0] == a[0] && (a + b)[1..] == a[1..] + b;
      SlavesInOrder(a[1..], b, index);
      Assoc(if IsSlaveOf(a[0], index) then [Node(a[0].name, a[0].index)] else [],
            SlavesOf(a[1..], index), SlavesOf(b, index));
    }
  }

  lemma SlaveLink(l: Link, index: nat)
    ensures SlavesOf([l], index) == if l.slave && l.master == index then [Node(l.name, l.index)] else []
  {
    assert [l][1..] == [];
  }

  // ---- interface elements ----

  /** A name in /proc/net/vlan is a VLAN, then one with a bridge directory a bridge, one with a bonding file a bond. */
  lemma TypeWritten(sys: System, n: Node)
    requires Acyclic(sys)
    ensures Describe(sys, n).tag == "interface"
    ensures Describe(sys, n).attrs
         == map["name" := n.name,
                "type" := if n.name in sys.vlans then "vlan"
                          else if n.name in sys.bridges then "bridge"
                          else if n.name in sys.bonds then "bond"
                          else "ethernet"]
  {
  }

  /** The address of the first link of the index that has one. */
  lemma EthernetWritten(sys: System, n: Node, i: nat)
    requires Acyclic(sys) && n.name !in sys.vlans && n.name !in sys.bridges && n.name !in sys.bonds
    requires n.index != 0 && i < |sys.links| && Addressed(sys.links[i], n.index)
    requires forall j | 0 <= j < i :: !Addressed(sys.links[j], n.index)
    ensures Describe(sys, n).children == [Xml("mac", map["address" := sys.links[i].mac.value], [])]
  {
    MacFirst(sys.links, n.index, i);
  }

  lemma EthernetBare(sys: System, n: Node)
    requires Acyclic(sys) && n.name !in sys.vlans && n.name !in sys.bridges && n.name !in sys.bonds
    requires n.index == 0 || forall l | l in sys.links :: !Addressed(l, n.index)
    ensures Describe(sys, n).children == []
  {
    if n.index != 0 {
      MacMissing(sys.links, n.index);
    }
  }

  /** A bridge element, with or without ports; each port has the index of the first link of its name, or none. */
  lemma BridgeWritten(sys: System, n: Node)
    requires Acyclic(sys) && n.name !in sys.vlans && n.name in sys.bridges
    ensures var r, ports := Describe(sys, n), sys.bridges[n.name];
      |r.children| == 1 && r.children[0].tag == "bridge" && r.children[0].attrs == map[]
      && |r.children[0].children| == |ports|
      && forall i | 0 <= i < |ports| ::
           r.children[0].children[i] == Describe(sys, Node(ports[i], IndexOfName(sys.links, ports[i])))
  {
    if sys.bridges[n.name] != [] {
      ChildrenExact(sys, n);
    }
  }

  /** The first VLAN link on an existing link gives the tag and the interface below. */
  lemma VlanWritten(sys: System, n: Node, i: nat, k: nat)
    requires Acyclic(sys) && n.name in sys.vlans && n.index != 0
    requires i < |sys.links| && OnLink(sys.links, sys.links[i], n.index)
    requires forall j | 0 <= j < i :: !OnLink(sys.links, sys.links[j], n.index)
    requires FirstIndexed(sys.links, sys.links[i].lower, k)
    ensures var below := Node(sys.links[k].name, IndexOfName(sys.links, sys.links[k].name));
      Describe(sys, n).children
      == [Xml("vlan", map["tag" := Decimal(sys.links[i].vlanId)], [Describe(sys, below)])]
  {
    VlanFirst(sys, sys.links, n.index, i, k);
    ChildrenExact(sys, n);
    var r := Describe(sys, n).children;
    assert r[0].children == [r[0].children[0]];
  }

  lemma VlanBare(sys: System, n: Node)
    requires Acyclic(sys) && n.name in sys.vlans
    requires n.index == 0 || forall l | l in sys.links :: !OnLink(sys.links, l, n.index)
    ensures Describe(sys, n).children == []
  {
    if n.index != 0 {
      VlanMissing(sys, sys.links, n.index);
    }
  }

  /** A bond element only when there is a slave; the slaves in the order of the links. */
  lemma BondWritten(sys: System, n: Node)
    requires Acyclic(sys) && n.name !in sys.vlans && n.name !in sys.bridges && n.name in sys.bonds && n.index != 0
    ensures SlavesOf(sys.links, n.index) == [] ==> Describe(sys, n).children == []
    ensures SlavesOf(sys.links, n.index) != [] ==>
      var r, slaves := Describe(sys, n).children, SlavesOf(sys.links, n.index);
      |r| == 1 && r[0].tag == "bond" && r[0].attrs == map[] && |r[0].children| == |slaves|
      && forall i | 0 <= i < |slaves| :: r[0].children[i] == Describe(sys, slaves[i])
  {
    if SlavesOf(sys.links, n.index) != [] {
      ChildrenExact(sys, n);
    }
  }

  lemma BondBare(sys: System, n: Node)
    requires Acyclic(sys) && n.name !in sys.vlans && n.name !in sys.bridges && n.name in sys.bonds && n.index == 0
    ensures Describe(sys, n).children == []
  {
  }
}
