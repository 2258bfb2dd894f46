// The live-state builder of src/dutil_linux.c: add_type_specific_info and its callbacks write the
// running interfaces, and those below them, into a mutable document.
module LiveState {
  import opened Text

  // ---- the running system ----

  const NOT_FOUND: nat := 0

  type Index = i: nat | i != 0 witness 1

  /** A link of the netlink cache; mac is its address unless that is absent or zero. */
  datatype Link = Link(
    name: string, index: Index, kind: string, mac: Option<string>,
    lower: nat, vlanId: nat, slave: bool, master: nat)

  /** What /proc/net/vlan and /sys/class/net show, and the link cache. */
  datatype System = System(vlans: set<string>, bridges: map<string, seq<string>>, bonds: set<string>, links: seq<Link>)

  datatype IfType = Ethernet | Bridge | Vlan | Bond

  /** if_type. */
  function TypeOf(sys: System, name: string): IfType {
    if name in sys.vlans then Vlan
    else if name in sys.bridges then Bridge
    else if name in sys.bonds then Bond
    else Ethernet
  }

  /** if_type_str. */
  function TypeText(t: IfType): string {
    match t
    case Ethernet => "ethernet"
    case Bridge => "bridge"
    case Vlan => "vlan"
    case Bond => "bond"
  }

  /** rtnl_link_name2i. */
  function IndexOfName(links: seq<Link>, name: string): nat {
    if links == [] then NOT_FOUND
    else if links[0].name == name then links[0].index
    else IndexOfName(links[1..], name)
  }

  /** rtnl_link_get. */
  function LinkAt(links: seq<Link>, index: nat): Option<Link> {
    if links == [] then None
    else if links[0].index == index then Some(links[0])
    else LinkAt(links[1..], index)
  }

  /** An interface as add_type_specific_info is called for it. */
  datatype Node = Node(name: string, index: nat)

  function NodeOf(sys: System, name: string): Node {
    Node(name, IndexOfName(sys.links, name))
  }

  /** The link below a VLAN link, if the callback accepts it. */
  function MasterOf(sys: System, l: Link): Option<Link> {
    if l.kind != "vlan" || l.lower == NOT_FOUND then None else LinkAt(sys.links, l.lower)
  }

  datatype VlanLink = VlanLink(id: nat, master: string)

  /** What add_vlan_info_cb finds first among the links with the index. */
  function FindVlan(sys: System, links: seq<Link>, index: nat): Option<VlanLink> {
    if links == [] then None
    else if links[0].index == index && MasterOf(sys, links[0]).Some? then
      Some(VlanLink(links[0].vlanId, MasterOf(sys, links[0]).value.name))
    else FindVlan(sys, links[1..], index)
  }

  function FindMac(links: seq<Link>, index: nat): Option<string> {
    if links == [] then None
    else if links[0].index == index && links[0].mac.Some? then links[0].mac
    else FindMac(links[1..], index)
  }

  predicate IsSlaveOf(l: Link, index: nat) {
    l.slave && l.master == index
  }

  function SlavesOf(links: seq<Link>, index: nat): seq<Node> {
    if links == [] then []
    else
      (if IsSlaveOf(links[0], index) then [Node(links[0].name, links[0].index)] else [])
      + SlavesOf(links[1..], index)
  }

  function NodesOf(sys: System, names: seq<string>): seq<Node> {
    seq(|names|, i requires 0 <= i < |names| => NodeOf(sys, names[i]))
  }

  /** The interfaces directly below one, in the order the system supplies. */
  function Below(sys: System, n: Node): seq<Node> {
    match TypeOf(sys, n.name)
    case Ethernet => []
    case Bridge => NodesOf(sys, sys.bridges[n.name])
    case Vlan =>
      if n.index == NOT_FOUND then []
      else
        var v := FindVlan(sys, sys.links, n.index);
        if v.Some? then [NodeOf(sys, v.value.master)] else []
    case Bond => if n.index == NOT_FOUND then [] else SlavesOf(sys.links, n.index)
  }

  // ---- acyclic systems ----

  /** p leads from a to b, one step or more. */
  ghost predicate Leads(sys: System, p: seq<Node>, a: Node, b: Node) {
    |p| >= 2 && p[0] == a && p[|p| - 1] == b && forall i | 0 < i < |p| :: p[i] in Below(sys, p[i - 1])
  }

  ghost predicate Path(sys: System, a: Node, b: Node) {
    exists p :: Leads(sys, p, a, b)
  }

  /** No interface is below itself. */
  ghost predicate Acyclic(sys: System) {
    forall n :: !Path(sys, n, n)
  }

  /** Every interface that can be below another. */
  function Targets(sys: System): set<Node> {
    (set b, p | b in sys.bridges && p in sys.bridges[b] :: NodeOf(sys, p))
    + (set l | l in sys.links :: NodeOf(sys, l.name))
    + (set l | l in sys.links :: Node(l.name, l.index))
  }

  ghost function Reach(sys: System, n: Node): set<Node> {
    set x | x in Targets(sys) && Path(sys, n, x)
  }

  /** How far down the recursion can go. */
  ghost function Rank(sys: System, n: Node): nat {
    |Reach(sys, n)|
  }

  lemma {:induction false} LinkAtIn(links: seq<Link>, index: nat)
    ensures LinkAt(links, index).Some? ==> LinkAt(links, index).value in links
  {
    if links != [] {
      LinkAtIn(links[1..], index);
    }
  }

  lemma {:induction false} FindVlanIn(sys: System, links: seq<Link>, index: nat)
    ensures var v := FindVlan(sys, links, index);
      v.Some? ==> exists l | l in sys.links :: l.name == v.value.master
  {
    if links != [] {
      FindVlanIn(sys, links[1..], index);
      LinkAtIn(sys.links, links[0].lower);
    }
  }

  lemma {:induction false} SlavesIn(links: seq<Link>, index: nat)
    ensures forall x | x in SlavesOf(links, index) :: exists l | l in links :: x == Node(l.name, l.index)
  {
    if links != [] {
      SlavesIn(links[1..], index);
      assert links[0] in links;
      assert forall l | l in links[1..] :: l in links;
    }
  }

  lemma BelowTargets(sys: System, n: Node, c: Node)
    requires c in Below(sys, n)
    ensures c in Targets(sys)
  {
    match TypeOf(sys, n.name) {
      case Ethernet =>
      case Bridge =>
        var ports := sys.bridges[n.name];
        var i :| 0 <= i < |ports| && NodesOf(sys, ports)[i] == c;
        assert ports[i] in ports;
      case Vlan => FindVlanIn(sys, sys.links, n.index);
      case Bond => SlavesIn(sys.links, n.index);
    }
  }

  lemma StepPath(sys: System, a: Node, c: Node)
    requires c in Below(sys, a)
    ensures Path(sys, a, c)
    ensures forall x | Path(sys, c, x) :: Path(sys, a, x)
  {
    assert Leads(sys, [a, c], a, c);
    forall x | Path(sys, c, x)
      ensures Path(sys, a, x)
    {
      var p :| Leads(sys, p, c, x);
      var q := [a] + p;
      forall i | 0 < i < |q|
        ensures q[i] in Below(sys, q[i - 1])
      {
        assert i > 1 ==> p[i - 1] in Below(sys, p[i - 2]);
      }
      assert Leads(sys, q, a, x);
    }
  }

  /** In an acyclic system the rank falls with every step down. */
  lemma RankFalls(sys: System, n: Node, c: Node)
    requires Acyclic(sys) && c in Below(sys, n)
    ensures Rank(sys, c) < Rank(sys, n)
  {
    BelowTargets(sys, n, c);
    StepPath(sys, n, c);
    assert c in Reach(sys, n) && c !in Reach(sys, c);
    assert Reach(sys, c) <= Reach(sys, n) - {c};
    SmallerSet(Reach(sys, c), Reach(sys, n), c);
  }

  lemma SmallerSet<T>(a: set<T>, b: set<T>, x: T)
    requires x in b && a <= b - {x}
    ensures |a| < |b|
  {
    SubsetSize(a, b - {x});
  }

  lemma {:induction false} SubsetSize<T>(a: set<T>, b: set<T>)
    requires a <= b
    ensures |a| <= |b|
    decreases |a|
  {
    if a != {} {
      var x :| x in a;
      SubsetSize(a - {x}, b - {x});
    }
  }

  /** A measure that falls with every step exists for acyclic systems and for no others. */
  lemma {:induction false} MeasureAlong(sys: System, measure: Node -> nat, p: seq<Node>, a: Node, b: Node)
    requires forall n, c | c in Below(sys, n) :: measure(c) < measure(n)
    requires Leads(sys, p, a, b)
    ensures measure(b) < measure(a)
    decreases |p|
  {
    var c := p[|p| - 2];
    assert p[|p| - 1] in Below(sys, c);
    if |p| > 2 {
      assert Leads(sys, p[..|p| - 1], a, c);
      MeasureAlong(sys, measure, p[..|p| - 1], a, c);
    }
  }

  lemma CyclesUnmeasured(sys: System, measure: Node -> nat)
    requires forall n, c | c in Below(sys, n) :: measure(c) < measure(n)
    ensures Acyclic(sys)
  {
    forall n | Path(sys, n, n)
      ensures false
    {
      var p :| Leads(sys, p, n, n);
      MeasureAlong(sys, measure, p, n, n);
    }
  }

  // ---- the document as a value ----

  datatype Xml = Xml(tag: string, attrs: map<string, string>, children: seq<Xml>)

  function MacXml(links: seq<Link>, index: nat): seq<Xml> {
    var mac := if index == NOT_FOUND then None else FindMac(links, index);
    if mac.Some? then [Xml("mac", map["address" := mac.value], [])] else []
  }

  ghost function DescribeAll(sys: System, parent: Node, nodes: seq<Node>): (r: seq<Xml>)
    requires Acyclic(sys) && forall n | n in nodes :: n in Below(sys, parent)
    ensures |r| == |nodes|
    decreases Rank(sys, parent), 0, |nodes|
  {
    if nodes == [] then []
    else
      RankFalls(sys, parent, nodes[0]);
      [Describe(sys, nodes[0])] + DescribeAll(sys, parent, nodes[1..])
  }

  ghost function DescribeVlan(sys: System, n: Node): seq<Xml>
    requires Acyclic(sys) && TypeOf(sys, n.name) == Vlan
    decreases Rank(sys, n), 1
  {
    var v := if n.index == NOT_FOUND then None else FindVlan(sys, sys.links, n.index);
    if v.None? then [] else [Xml("vlan", map["tag" := Decimal(v.value.id)], DescribeAll(sys, n, Below(sys, n)))]
  }

  /** The interface element of an interface of the running system. */
  ghost function Describe(sys: System, n: Node): (r: Xml)
    requires Acyclic(sys)
    ensures r.tag == "interface" && "name" in r.attrs && r.attrs["name"] == n.name
    decreases Rank(sys, n), 2
  {
    Xml("interface", map["name" := n.name, "type" := TypeText(TypeOf(sys, n.name))],
        match TypeOf(sys, n.name)
        case Ethernet => MacXml(sys.links, n.index)
        case Bridge => [Xml("bridge", map[], DescribeAll(sys, n, Below(sys, n)))]
        case Vlan => DescribeVlan(sys, n)
        case Bond => if Below(sys, n) == [] then [] else [Xml("bond", map[], DescribeAll(sys, n, Below(sys, n)))])
  }

  lemma {:induction false} DescribeAllAt(sys: System, parent: Node, nodes: seq<Node>, i: nat)
    requires Acyclic(sys) && (forall n | n in nodes :: n in Below(sys, parent)) && i < |nodes|
    ensures DescribeAll(sys, parent, nodes)[i] == Describe(sys, nodes[i])
    decreases |nodes|
  {
    if i > 0 {
      DescribeAllAt(sys, parent, nodes[1..], i - 1);
    }
  }

  /** One element below the interface holds the interfaces below it: all of them, in order, each described in turn. */
  lemma ChildrenExact(sys: System, n: Node)
    requires Acyclic(sys) && Below(sys, n) != []
    ensures var r, below := Describe(sys, n), Below(sys, n);
      |r.children| == 1 && r.children[0].tag == TypeText(TypeOf(sys, n.name))
      && |r.children[0].children| == |below|
      && forall i | 0 <= i < |below| :: r.children[0].children[i] == Describe(sys, below[i])
  {
    forall i | 0 <= i < |Below(sys, n)|
      ensures DescribeAll(sys, n, Below(sys, n))[i] == Describe(sys, Below(sys, n)[i])
    {
      DescribeAllAt(sys, n, Below(sys, n), i);
    }
  }

  /** The slaves of a bond are the links that say so, in the order of the cache. */
  lemma {:induction false} SlavesExact(links: seq<Link>, index: nat, x: Node)
    ensures x in SlavesOf(links, index) <==> exists l :: l in links && IsSlaveOf(l, index) && Node(l.name, l.index) == x
  {
    if links != [] {
      SlavesExact(links[1..], index, x);
      assert forall l :: l in links <==> l == links[0] || l in links[1..];
    }
  }

  // ---- the document in place ----

  /** An element of a document; children are positions of later elements. */
  datatype Element = Element(tag: string, attrs: map<string, string>, children: seq<nat>)

  /** Children are created after their parents. */
  predicate Ordered(nodes: seq<Element>) {
    forall i, k | 0 <= i < |nodes| && 0 <= k < |nodes[i].children| :: i < nodes[i].children[k] < |nodes|
  }

  ghost predicate Later(nodes: seq<Element>, cs: seq<nat>, above: nat) {
    forall k | 0 <= k < |cs| :: above < cs[k] < |nodes|
  }

  /** The element at a position, as a value. */
  ghost function Contents(nodes: seq<Element>, i: nat): Xml
    requires Ordered(nodes) && i < |nodes|
    decreases |nodes| - i, 1, 0
  {
    Xml(nodes[i].tag, nodes[i].attrs, ContentsAll(nodes, nodes[i].children, i))
  }

  ghost function ContentsAll(nodes: seq<Element>, cs: seq<nat>, above: nat): seq<Xml>
    requires Ordered(nodes) && above < |nodes| && Later(nodes, cs, above)
    decreases |nodes| - above, 0, |cs|
  {
    if cs == [] then [] else [Contents(nodes, cs[0])] + ContentsAll(nodes, cs[1..], above)
  }

  /** Elements created later, and elements before this one, do not matter. */
  lemma {:induction false} SameContents(was: seq<Element>, now: seq<Element>, i: nat)
    requires Ordered(was) && Ordered(now) && i < |was| <= |now|
    requires forall j | i <= j < |was| :: now[j] == was[j]
    ensures Contents(now, i) == Contents(was, i)
    decreases |was| - i, 1, 0
  {
    SameContentsAll(was, now, was[i].children, i);
  }

  lemma {:induction false} SameContentsAll(was: seq<Element>, now: seq<Element>, cs: seq<nat>, above: nat)
    requires Ordered(was) && Ordered(now) && above < |was| <= |now| && Later(was, cs, above)
    requires forall j | above < j < |was| :: now[j] == was[j]
    ensures ContentsAll(now, cs, above) == ContentsAll(was, cs, above)
    decreases |was| - above, 0, |cs|
  {
    if cs != [] {
      SameContents(was, now, cs[0]);
      SameContentsAll(was, now, cs[1..], above);
    }
  }

  lemma {:induction false} ContentsAppend(nodes: seq<Element>, cs: seq<nat>, c: nat, above: nat)
    requires Ordered(nodes) && above < c < |nodes| && Later(nodes, cs, above)
    ensures ContentsAll(nodes, cs + [c], above) == ContentsAll(nodes, cs, above) + [Contents(nodes, c)]
    decreases |cs|
  {
    if cs == [] {
      assert cs + [c] == [c] && [c][1..] == [];
    } else {
      assert (cs + [c])[0] == cs[0] && (cs + [c])[1..] == cs[1..] + [c];
      ContentsAppend(nodes, cs[1..], c, above);
    }
  }

  lemma {:induction false} DescribeAppend(sys: System, parent: Node, nodes: seq<Node>, n: Node)
    requires Acyclic(sys) && n in Below(sys, parent) && forall m | m in nodes :: m in Below(sys, parent)
    ensures DescribeAll(sys, parent, nodes + [n]) == DescribeAll(sys, parent, nodes) + [Describe(sys, n)]
    decreases |nodes|
  {
    if nodes == [] {
      assert nodes + [n] == [n] && [n][1..] == [];
    } else {
      assert (nodes + [n])[0] == nodes[0] && (nodes + [n])[1..] == nodes[1..] + [n];
      DescribeAppend(sys, parent, nodes[1..], n);
    }
  }

  /** Only the element at root, and new ones, differ. */
  ghost predicate Grown(was: seq<Element>, now: seq<Element>, root: nat) {
    Ordered(now) && |was| <= |now| && forall j | 0 <= j < |was| && j != root :: now[j] == was[j]
  }

  class XmlDoc {
    var nodes: seq<Element>

    /** xml_new_node. */
    method NewNode(parent: nat, name: string) returns (n: nat)
      requires Ordered(nodes) && parent < |nodes|
      modifies this
      ensures Ordered(nodes) && n == |old(nodes)|
      ensures var p := old(nodes)[parent];
        nodes == old(nodes)[parent := p.(children := p.children + [n])] + [Element(name, map[], [])]
    {
      n := |nodes|;
      var p := nodes[parent];
      nodes := nodes[parent := p.(children := p.children + [n])] + [Element(name, map[], [])];
    }

    /** xml_node: the first child of that name, or a new one. */
    method FindNode(parent: nat, name: string) returns (n: nat)
      requires Ordered(nodes) && parent < |nodes|
      modifies this
      ensures Ordered(nodes)
      ensures var p, made := old(nodes)[parent], [Element(name, map[], [])];
        if exists k :: 0 <= k < |p.children| && old(nodes)[p.children[k]].tag == name
        then nodes == old(nodes) && n in p.children && nodes[n].tag == name
        else n == |old(nodes)| && nodes == old(nodes)[parent := p.(children := p.children + [n])] + made
    {
      var children := nodes[parent].children;
      for k := 0 to |children|
        invariant nodes == old(nodes)
        invariant forall j | 0 <= j < k :: nodes[children[j]].tag != name
      {
        if nodes[children[k]].tag == name {
          return children[k];
        }
      }
      n := NewNode(parent, name);
    }

    /** xmlSetProp and xmlNewProp. */
    method SetProp(n: nat, key: string, value: string)
      requires Ordered(nodes) && n < |nodes|
      modifies this
      ensures Ordered(nodes)
      ensures nodes == old(nodes)[n := old(nodes)[n].(attrs := old(nodes)[n].attrs[key := value])]
    {
      nodes := nodes[n := nodes[n].(attrs := nodes[n].attrs[key := value])];
    }

    // ---- add_type_specific_info and its parts ----

    /** An interface element, new under b, filled in for one of the interfaces below parent. */
    method AddInterface(sys: System, ghost parent: Node, child: Node, b: nat)
      requires Acyclic(sys) && child in Below(sys, parent)
      requires Ordered(nodes) && b < |nodes|
      modifies this
      ensures Grown(old(nodes), nodes, b)
      ensures nodes[b] == old(nodes)[b].(children := old(nodes)[b].children + [|old(nodes)|])
      ensures |old(nodes)| < |nodes|
      ensures ContentsAll(nodes, nodes[b].children, b)
           == ContentsAll(old(nodes), old(nodes)[b].children, b) + [Describe(sys, child)]
      decreases Rank(sys, parent), 0, 0
    {
      ghost var was := nodes;
      var c := NewNode(b, "interface");
      RankFalls(sys, parent, child);
      AddTypeSpecificInfo(sys, child, c);
      SameContentsAll(was, nodes, was[b].children, b);
      ContentsAppend(nodes, was[b].children, c, b);
    }

    /** add_bridge_info. */
    method AddBridgeInfo(sys: System, n: Node, root: nat)
      requires Acyclic(sys) && TypeOf(sys, n.name) == Bridge
      requires Ordered(nodes) && root < |nodes| && nodes[root].children == []
      modifies this
      ensures Grown(old(nodes), nodes, root) && nodes[root] == old(nodes)[root].(children := nodes[root].children)
      ensures ContentsAll(nodes, nodes[root].children, root)
           == [Xml("bridge", map[], DescribeAll(sys, n, Below(sys, n)))]
      decreases Rank(sys, n), 1
    {
      ghost var was := nodes;
      var b := FindNode(root, "bridge");
      var phys := sys.bridges[n.name];
      ghost var below := Below(sys, n);
      for i := 0 to |phys|
        invariant BridgeSoFar(sys, n, was, nodes, root, b, below[..i])
      {
        assert below[i] == NodeOf(sys, phys[i]);
        assert below[..i + 1] == below[..i] + [below[i]];
        AddPort(sys, n, NodeOf(sys, phys[i]), root, was, b, below[..i]);
      }
      assert below[..|phys|] == below;
      BridgeDone(sys, n, was, nodes, root, b, below);
    }

    /** One round of the loop over the ports. */
    method AddPort(
      sys: System, n: Node, port: Node, root: nat, ghost was: seq<Element>, b: nat, ghost done: seq<Node>)
      requires BridgeSoFar(sys, n, was, nodes, root, b, done) && port in Below(sys, n)
      modifies this
      ensures BridgeSoFar(sys, n, was, nodes, root, b, done + [port])
      decreases Rank(sys, n), 0, 1
    {
      DescribeAppend(sys, n, done, port);
      AddInterface(sys, n, port, b);
    }

    /** add_bond_info, with the callback run on every link of the cache. */
    method AddBondInfo(sys: System, n: Node, root: nat)
      requires Acyclic(sys) && TypeOf(sys, n.name) == Bond
      requires Ordered(nodes) && root < |nodes| && nodes[root].children == []
      modifies this
      ensures Grown(old(nodes), nodes, root) && nodes[root] == old(nodes)[root].(children := nodes[root].children)
      ensures ContentsAll(nodes, nodes[root].children, root)
           == if Below(sys, n) == [] then [] else [Xml("bond", map[], DescribeAll(sys, n, Below(sys, n)))]
      decreases Rank(sys, n), 1
    {
      if n.index == NOT_FOUND {
        return;
      }
      ghost var was := nodes;
      ghost var b := |nodes|;
      ghost var done: seq<Node> := [];
      for i := 0 to |sys.links|
        invariant done + SlavesOf(sys.links[i..], n.index) == Below(sys, n)
        invariant BondSoFar(sys, n, was, nodes, root, b, done)
      {
        NextLink(sys.links, i, n.index, done);
        if IsSlaveOf(sys.links[i], n.index) {
          var slave := Node(sys.links[i].name, sys.links[i].index);
          assert slave in Below(sys, n);
          AddSlave(sys, n, slave, root, was, b, done);
          done := done + [slave];
        }
      }
      assert done + [] == done;
      BondDone(sys, n, was, nodes, root, b, done);
    }

    /** add_bond_info_cb on a slave of the bond: the bond element is found, or made for the first. */
    method AddSlave(
      sys: System, n: Node, slave: Node, root: nat, ghost was: seq<Element>, ghost b: nat, ghost done: seq<Node>)
      requires BondSoFar(sys, n, was, nodes, root, b, done) && slave in Below(sys, n)
      requires Ordered(was) && was[root].children == []
      modifies this
      ensures BondSoFar(sys, n, was, nodes, root, b, done + [slave])
      decreases Rank(sys, n), 0, 1
    {
      assert done != [] ==> nodes[root].children[0] == b;
      var bond := FindNode(root, "bond");
      assert bond == b && nodes[root].children == [b];
      DescribeAppend(sys, n, done, slave);
      AddInterface(sys, n, slave, bond);
    }

    /** add_vlan_info, with the callback run on the links that have the index. */
    method AddVlanInfo(sys: System, n: Node, root: nat)
      requires Acyclic(sys) && TypeOf(sys, n.name) == Vlan
      requires Ordered(nodes) && root < |nodes| && nodes[root].children == []
      modifies this
      ensures Grown(old(nodes), nodes, root) && nodes[root] == old(nodes)[root].(children := nodes[root].children)
      ensures ContentsAll(nodes, nodes[root].children, root) == DescribeVlan(sys, n)
      decreases Rank(sys, n), 1
    {
      if n.index == NOT_FOUND {
        return;
      }
      for i := 0 to |sys.links|
        invariant nodes == old(nodes)
        invariant FindVlan(sys, sys.links[i..], n.index) == FindVlan(sys, sys.links, n.index)
      {
        var l := sys.links[i];
        assert sys.links[i..][0] == l && sys.links[i..][1..] == sys.links[i + 1..];
        var master := MasterOf(sys, l);
        if l.index == n.index && master.Some? {
          AddVlan(sys, n, root, l.vlanId, master.value.name);
          return;
        }
      }
    }

    /** The vlan element, its tag, and the interface below. */
    method AddVlan(sys: System, n: Node, root: nat, id: nat, master: string)
      requires Acyclic(sys) && TypeOf(sys, n.name) == Vlan && n.index != NOT_FOUND
      requires FindVlan(sys, sys.links, n.index) == Some(VlanLink(id, master))
      requires Ordered(nodes) && root < |nodes| && nodes[root].children == []
      modifies this
      ensures Grown(old(nodes), nodes, root) && nodes[root] == old(nodes)[root].(children := nodes[root].children)
      ensures ContentsAll(nodes, nodes[root].children, root) == DescribeVlan(sys, n)
      decreases Rank(sys, n), 0, 1
    {
      var v := FindNode(root, "vlan");
      SetProp(v, "tag", Decimal(id));
      ghost var below := Below(sys, n);
      assert below == [] + [NodeOf(sys, master)];
      DescribeAppend(sys, n, [], NodeOf(sys, master));
      AddInterface(sys, n, NodeOf(sys, master), v);
      ContentsOne(nodes, v, root);
    }

    /** add_ethernet_info, with the callback run on the links that have the index. */
    method AddEthernetInfo(sys: System, index: nat, root: nat)
      requires Ordered(nodes) && root < |nodes| && nodes[root].children == []
      modifies this
      ensures Grown(old(nodes), nodes, root) && nodes[root] == old(nodes)[root].(children := nodes[root].children)
      ensures ContentsAll(nodes, nodes[root].children, root) == MacXml(sys.links, index)
    {
      if index == NOT_FOUND {
        return;
      }
      for i := 0 to |sys.links|
        invariant nodes == old(nodes)
        invariant FindMac(sys.links[i..], index) == FindMac(sys.links, index)
      {
        var l := sys.links[i];
        assert sys.links[i..][0] == l && sys.links[i..][1..] == sys.links[i + 1..];
        if l.index == index && l.mac.Some? {
          var mac := FindNode(root, "mac");
          SetProp(mac, "address", l.mac.value);
          ContentsOne(nodes, mac, root);
          return;
        }
      }
    }

    /** add_type_specific_info on an interface element without content. */
    method AddTypeSpecificInfo(sys: System, n: Node, root: nat)
      requires Acyclic(sys)
      requires Ordered(nodes) && root < |nodes| && nodes[root] == Element("interface", map[], [])
      modifies this
      ensures Grown(old(nodes), nodes, root)
      ensures Contents(nodes, root) == Describe(sys, n)
      decreases Rank(sys, n), 2
    {
      SetProp(root, "name", n.name);
      SetProp(root, "type", TypeText(TypeOf(sys, n.name)));
      match TypeOf(sys, n.name) {
        case Ethernet => AddEthernetInfo(sys, n.index, root);
        case Bridge => AddBridgeInfo(sys, n, root);
        case Vlan => AddVlanInfo(sys, n, root);
        case Bond => AddBondInfo(sys, n, root);
      }
    }
  }

  lemma ContentsOne(nodes: seq<Element>, b: nat, root: nat)
    requires Ordered(nodes) && root < b < |nodes|
    ensures ContentsAll(nodes, [b], root) == [Contents(nodes, b)]
  {
    assert [b][1..] == [];
  }

  /** The bridge element is there from the start. */
  ghost predicate BridgeSoFar(
    sys: System, n: Node, was: seq<Element>, nodes: seq<Element>, root: nat, b: nat, done: seq<Node>)
  {
    root < |was| == b < |nodes| && Grown(was, nodes, root)
    && Acyclic(sys) && (forall p | p in done :: p in Below(sys, n))
    && nodes[root] == was[root].(children := [b]) && nodes[b] == Element("bridge", map[], nodes[b].children)
    && ContentsAll(nodes, nodes[b].children, b) == DescribeAll(sys, n, done)
  }

  lemma BridgeDone(sys: System, n: Node, was: seq<Element>, nodes: seq<Element>, root: nat, b: nat, done: seq<Node>)
    requires BridgeSoFar(sys, n, was, nodes, root, b, done)
    ensures ContentsAll(nodes, nodes[root].children, root) == [Xml("bridge", map[], DescribeAll(sys, n, done))]
  {
    ContentsOne(nodes, b, root);
  }

  lemma BondDone(sys: System, n: Node, was: seq<Element>, nodes: seq<Element>, root: nat, b: nat, done: seq<Node>)
    requires BondSoFar(sys, n, was, nodes, root, b, done) && Ordered(was) && was[root].children == []
    ensures nodes[root] == was[root].(children := nodes[root].children)
    ensures ContentsAll(nodes, nodes[root].children, root)
         == if done == [] then [] else [Xml("bond", map[], DescribeAll(sys, n, done))]
  {
    if done != [] {
      ContentsOne(nodes, b, root);
    }
  }

  lemma NextLink(links: seq<Link>, i: nat, index: nat, done: seq<Node>)
    requires i < |links|
    ensures var slave := Node(links[i].name, links[i].index);
      done + SlavesOf(links[i..], index)
      == (if IsSlaveOf(links[i], index) then done + [slave] else done) + SlavesOf(links[i + 1..], index)
    ensures IsSlaveOf(links[i], index) ==> Node(links[i].name, links[i].index) in done + SlavesOf(links[i..], index)
  {
    var slave, rest := Node(links[i].name, links[i].index), SlavesOf(links[i + 1..], index);
    assert links[i..][0] == links[i] && links[i..][1..] == links[i + 1..];
    NoneBeside(rest);
    Assoc(done, [slave], rest);
    assert slave in [slave] + rest;
  }

  /** The bond element is there as soon as a slave is. */
  ghost predicate BondSoFar(
    sys: System, n: Node, was: seq<Element>, nodes: seq<Element>, root: nat, b: nat, done: seq<Node>)
  {
    root < |was| == b && Grown(was, nodes, root) && Acyclic(sys) && (forall s | s in done :: s in Below(sys, n))
    && if done == [] then nodes == was
       else b < |nodes| && nodes[root] == was[root].(children := [b])
            && nodes[b] == Element("bond", map[], nodes[b].children)
            && ContentsAll(nodes, nodes[b].children, b) == DescribeAll(sys, n, done)
  }
}
