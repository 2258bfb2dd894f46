// The Red Hat round trip: put after get, and exactly when that is the document.
module RedHatRoundTrip {
  import opened Text
  import opened Document
  import opened RedHat
  import opened RedHatAddressing
  import BondOpts
  import opened RedHatImage

  // ---- the round trip ----

  /** Any forest that realises an interface is read back as the image of that interface, alone. */
  lemma PutRealised(f: Forest, d: Interface)
    requires ValidInterface(d) && Realises(f, d)
    ensures Put(f) == Ok([Image(d)])
  {
    var root := RootTree(d).value;
    PutRoot(f, d);
    var i :| 0 <= i < |f| && f[i] == root && forall j | 0 <= j < |f| && j != i :: Dead(f, f[j]);
    PutTreesOne(f, f, i, Image(d));
  }

  /** The forest of a document with distinct device names realises the document. */
  lemma GetRealises(d: Interface)
    requires ValidInterface(d) && Distinct(Devices(d.kind)) && Get(d).Ok?
    ensures Realises(Get(d).value, d)
  {
    match d.kind {
      case BondKind(_, _) => BondRealises(d);
      case BridgeKind(_, _, _, _) => BridgeRealises(d);
      case _ =>
        CommonIsCommon(d);
        RootFirst(Get(d).value, RootTree(d).value, []);
    }
  }

  /** Compiling and rebuilding gives one interface, with nesting, order and every field as in Image. */
  lemma PutGet(d: Interface)
    requires ValidInterface(d) && Distinct(Devices(d.kind)) && Get(d).Ok?
    ensures Put(Get(d).value) == Ok([Image(d)])
  {
    GetRealises(d);
    PutRealised(Get(d).value, d);
  }

  // ---- exactly when the document itself comes back ----

  predicate VlanSurvives(v: Vlan) {
    v.name == Some(VlanName(v)) && '.' !in v.base
  }

  predicate PortSurvives(p: Port) {
    match p
    case EthernetPort(_) => true
    case VlanPort(v) => VlanSurvives(v)
    case BondPort(_, bond) => BondOpts.PrimaryClear(bond)
  }

  predicate PortsSurvive(ports: seq<Port>) {
    ports == [] || (PortSurvives(ports[0]) && PortsSurvive(ports[1..]))
  }

  predicate KindSurvives(k: Kind) {
    match k
    case EthernetKind(_) => true
    case VlanKind(v) => VlanSurvives(v)
    case BridgeKind(_, _, _, ports) => PortsSurvive(ports)
    case BondKind(_, bond) => BondOpts.PrimaryClear(bond)
  }

  /** The condition a caller can check on the document. */
  predicate RoundTrips(d: Interface) {
    KindSurvives(d.kind) && AddressingSurvives(d.addressing)
  }

  /** The document with IPv4 before IPv6, the order the stylesheet writes. */
  function Normal(d: Interface): Interface {
    d.(addressing := d.addressing.(v6First := false))
  }

  lemma VlanFixed(v: Vlan)
    ensures ImageVlan(v) == v <==> VlanSurvives(v)
  {
    if '.' !in v.base {
      BeforeAfter(v.base, '.', v.tag);
    }
    assert '.' !in Before(VlanName(v), '.');
  }

  lemma {:induction false} PortsFixed(ports: seq<Port>)
    requires forall p | p in ports :: ValidPort(p)
    ensures ImagePorts(ports) == ports <==> PortsSurvive(ports)
  {
    if ports != [] {
      var p, rest := ports[0], ports[1..];
      assert p in ports;
      PortFixed(p);
      PortsFixed(rest);
      ConsEqual(ImagePort(p), ImagePorts(rest), p, rest);
    }
  }

  lemma ConsEqual(a: Port, s: seq<Port>, b: Port, bs: seq<Port>)
    ensures [a] + s == [b] + bs <==> a == b && s == bs
  {
    assert ([a] + s)[0] == a && ([a] + s)[1..] == s;
    assert ([b] + bs)[0] == b && ([b] + bs)[1..] == bs;
  }

  lemma PortFixed(p: Port)
    requires ValidPort(p)
    ensures ImagePort(p) == p <==> PortSurvives(p)
  {
    match p {
      case EthernetPort(_) =>
      case VlanPort(v) => VlanFixed(v);
      case BondPort(_, bond) => BondOpts.ParsePrint(bond);
    }
  }

  lemma KindFixed(k: Kind)
    requires ValidKind(k)
    ensures ImageKind(k) == k <==> KindSurvives(k)
  {
    match k {
      case EthernetKind(_) =>
      case VlanKind(v) => VlanFixed(v);
      case BridgeKind(_, _, _, ports) => PortsFixed(ports);
      case BondKind(_, bond) => BondOpts.ParsePrint(bond);
    }
  }

  /**
   * put(get(d)) is d (with IPv4 first) for every valid document with distinct device names that
   * meets RoundTrips, and for no other.
   */
  lemma RoundTrip(d: Interface)
    requires ValidInterface(d) && Distinct(Devices(d.kind))
    ensures Get(d).Ok? && Put(Get(d).value) == Ok([Normal(d)]) <==> RoundTrips(d)
  {
    KindFixed(d.kind);
    AddressingFixed(d.addressing);
    if Get(d).Ok? {
      PutGet(d);
      assert Image(d) == Normal(d) <==> RoundTrips(d);
    }
  }
}
