// <interface> documents as data/xml/interface.rng describes them. Attribute values are text;
// ValidInterface says which texts the schema admits as far as the proofs need it.
module Document {
  import opened Text

  datatype Ethernet = Ethernet(name: string, mac: Option<string>)

  /** name is optional in the schema; base and tag are vlan/interface/@name and vlan/@tag. */
  datatype Vlan = Vlan(name: Option<string>, base: string, tag: string)

  datatype Miimon = Miimon(freq: string, downdelay: Option<string>, updelay: Option<string>, carrier: Option<string>)

  datatype Arpmon = Arpmon(interval: string, target: string, validate: Option<string>)

  datatype Bond = Bond(mode: Option<string>, miimon: Option<Miimon>, arpmon: Option<Arpmon>, slaves: seq<Ethernet>)

  datatype Port =
    | EthernetPort(ethernet: Ethernet)
    | VlanPort(vlan: Vlan)
    | BondPort(name: string, bond: Bond)

  datatype Kind =
    | EthernetKind(ethernet: Ethernet)
    | VlanKind(vlan: Vlan)
    | BridgeKind(name: string, stp: Option<string>, delay: Option<string>, ports: seq<Port>)
    | BondKind(name: string, bond: Bond)

  datatype IPv4 =
    | Dhcp4(peerdns: Option<string>)
    | Static4(address: string, prefix: Option<string>, gateway: Option<string>)

  datatype IPv6Address = IPv6Address(address: string, prefix: Option<string>)

  datatype Dhcp6 = Dhcp6(peerdns: Option<string>)

  datatype IPv6 = IPv6(autoconf: bool, dhcp: Option<Dhcp6>, ips: seq<IPv6Address>, gateway: Option<string>)

  /** The two protocol elements; v6First tells their order when both are there. */
  datatype Addressing = Addressing(ipv4: Option<IPv4>, ipv6: Option<IPv6>, v6First: bool)

  datatype StartMode = OnBoot | NoStart | HotPlug

  datatype Interface = Interface(kind: Kind, start: StartMode, mtu: Option<string>, addressing: Addressing)

  // ---- names ----

  function VlanName(v: Vlan): string {
    v.base + "." + v.tag
  }

  function PortName(p: Port): string {
    match p
    case EthernetPort(e) => e.name
    case VlanPort(v) => VlanName(v)
    case BondPort(name, _) => name
  }

  function KindName(k: Kind): string {
    match k
    case EthernetKind(e) => e.name
    case VlanKind(v) => VlanName(v)
    case BridgeKind(name, _, _, _) => name
    case BondKind(name, _) => name
  }

  function SlaveNames(slaves: seq<Ethernet>): seq<string> {
    seq(|slaves|, i requires 0 <= i < |slaves| => slaves[i].name)
  }

  function PortNames(p: Port): seq<string> {
    [PortName(p)] + if p.BondPort? then SlaveNames(p.bond.slaves) else []
  }

  function PortsNames(ports: seq<Port>): seq<string> {
    if ports == [] then [] else PortNames(ports[0]) + PortsNames(ports[1..])
  }

  /** Every device a document configures, in document order; the base of a VLAN is not one. */
  function Devices(k: Kind): seq<string> {
    [KindName(k)] +
    match k
    case BridgeKind(_, _, _, ports) => PortsNames(ports)
    case BondKind(_, bond) => SlaveNames(bond.slaves)
    case _ => []
  }

  ghost predicate Distinct<T>(s: seq<T>) {
    forall i, j | 0 <= i < j < |s| :: s[i] != s[j]
  }

  // ---- validity ----

  predicate NameChar(c: char) {
    'a' <= c <= 'z' || 'A' <= c <= 'Z' || '0' <= c <= '9' || c in "_.-:/"
  }

  predicate DeviceName(s: string) {
    s != "" && forall c | c in s :: NameChar(c)
  }

  const MODES := ["balance-rr", "active-backup", "balance-xor", "broadcast", "802.3ad", "balance-tlb", "balance-alb"]
  const VALIDATE := ["none", "active", "backup", "all"]

  predicate OptDigits(s: Option<string>) {
    s.Some? ==> Digits(s.value)
  }

  predicate ValidMiimon(m: Miimon) {
    Digits(m.freq) && OptDigits(m.downdelay) && OptDigits(m.updelay) &&
    (m.carrier.Some? ==> m.carrier.value in ["ioctl", "netif"])
  }

  predicate QuadChars(s: string) {
    s != "" && forall c | c in s :: IsDigit(c) || c == '.'
  }

  predicate ValidArpmon(a: Arpmon) {
    Digits(a.interval) && QuadChars(a.target) && (a.validate.Some? ==> a.validate.value in VALIDATE)
  }

  predicate ValidBond(b: Bond) {
    (b.mode.Some? ==> b.mode.value in MODES) &&
    (b.miimon.Some? ==> ValidMiimon(b.miimon.value)) &&
    (b.arpmon.Some? ==> ValidArpmon(b.arpmon.value)) &&
    !(b.miimon.Some? && b.arpmon.Some?) &&
    b.slaves != [] &&
    forall e | e in b.slaves :: DeviceName(e.name)
  }

  predicate ValidVlan(v: Vlan) {
    DeviceName(v.base) && Digits(v.tag) && (v.name.Some? ==> DeviceName(v.name.value))
  }

  predicate ValidPort(p: Port) {
    match p
    case EthernetPort(e) => DeviceName(e.name)
    case VlanPort(v) => ValidVlan(v)
    case BondPort(name, bond) => DeviceName(name) && ValidBond(bond)
  }

  predicate ValidKind(k: Kind) {
    match k
    case EthernetKind(e) => DeviceName(e.name)
    case VlanKind(v) => ValidVlan(v)
    case BridgeKind(name, _, _, ports) => DeviceName(name) && forall p | p in ports :: ValidPort(p)
    case BondKind(name, bond) => DeviceName(name) && ValidBond(bond)
  }

  predicate AddressChars(s: string) {
    s != "" && forall c | c in s :: IsDigit(c) || 'a' <= c <= 'f' || 'A' <= c <= 'F' || c in ".:"
  }

  predicate ValidAddressing(a: Addressing) {
    (a.ipv4.Some? && a.ipv4.value.Static4? ==> ValidPrefix4(a.ipv4.value.prefix)) &&
    (a.ipv6.Some? ==> forall ip | ip in a.ipv6.value.ips :: AddressChars(ip.address) && OptDigits(ip.prefix))
  }

  /** xs:unsignedInt with maxInclusive 32. */
  predicate ValidPrefix4(prefix: Option<string>) {
    prefix.Some? ==> Digits(prefix.value) && Number(prefix.value) <= 32
  }

  predicate ValidInterface(d: Interface) {
    ValidKind(d.kind) && ValidAddressing(d.addressing) && (d.mtu.Some? ==> Digits(d.mtu.value))
  }
}
