// The configuration store of src/drv_redhat.c on values: the ifcfg files, the modprobe aliases, and
// what define, undefine, xml_desc and the listings compute from them.
module RedHatStore {
  import opened Text
  import opened Document
  import opened RedHat
  import Names

  /** ifcfg-X files by X. */
  type Store = map<string, Nodes>

  /** Aliased name -> the modulename of each of its alias entries. */
  type Aliases = map<string, seq<string>>

  /** The files Augeas loads; macs is /sys/class/net/NAME/address. */
  datatype Files = Files(ifcfg: Store, aliases: Aliases, macs: map<string, string>)

  datatype Failure = Compiling(fault: Fault) | MissingName | AmbiguousAlias

  datatype Outcome<+T> = Done(value: T) | Failed(why: Failure) {
    predicate IsFailure() {
      Failed?
    }
    function PropagateFailure<U>(): Outcome<U>
      requires Failed?
    {
      Failed(why)
    }
    function Extract(): T
      requires Done?
    {
      value
    }
  }

  // ---- relational queries ----

  /** MASTER = ../ *[BRIDGE = name]/DEVICE */
  predicate MasterInBridge(s: Store, n: Nodes, name: string) {
    n.MASTER.Some? && exists p | p in s :: s[p].BRIDGE == Some(name) && s[p].DEVICE == n.MASTER
  }

  /** The predicate of rm_interface and aug_get_xml_for_nif, with its four or-clauses. */
  predicate Related(s: Store, n: Nodes, name: string) {
    n.DEVICE == Some(name) || n.BRIDGE == Some(name) || n.MASTER == Some(name) || MasterInBridge(s, n, name)
  }

  predicate IsBond(s: Store, name: string) {
    exists p | p in s :: s[p].MASTER == Some(name)
  }

  predicate IsBridge(s: Store, name: string) {
    exists p | p in s :: s[p].DEVICE == Some(name) && s[p].TYPE == Some("Bridge")
  }

  /** The devices of the trees with BRIDGE = name. */
  function BridgeSlaves(s: Store, name: string): set<string> {
    set p | p in s && s[p].BRIDGE == Some(name) && s[p].DEVICE.Some? :: s[p].DEVICE.value
  }

  // ---- define and undefine ----

  /** rm_interface. */
  function Rm(s: Store, name: string): Store {
    map p | p in s && !Related(s, s[p], name) :: s[p]
  }

  /** rm_all_interfaces: one removal after the other. */
  function RmAll(s: Store, names: seq<string>): Store
    decreases |names|
  {
    if names == [] then s else RmAll(Rm(s, names[0]), names[1..])
  }

  /** aug_put_xml: each tree replaces the whole file. */
  function PutForest(s: Store, f: Forest): Store
    decreases |f|
  {
    if f == [] then s else PutForest(s[f[0].file := f[0].nodes], f[1..])
  }

  /** The name attribute; a root VLAN without one is given an empty one. */
  function VlanAttr(v: Vlan): string {
    if v.name.Some? then v.name.value else ""
  }

  function PortAttrs(p: Port): seq<string> {
    match p
    case VlanPort(v) => [VlanAttr(v)]
    case _ => PortNames(p)
  }

  function PortsAttrs(ports: seq<Port>): seq<string> {
    if ports == [] then [] else PortAttrs(ports[0]) + PortsAttrs(ports[1..])
  }

  /** The name attributes of //interface[count(parent::vlan) = 0], in document order. */
  function Attrs(k: Kind): seq<string> {
    match k
    case VlanKind(v) => [VlanAttr(v)]
    case BridgeKind(name, _, _, ports) => [name] + PortsAttrs(ports)
    case _ => Devices(k)
  }

  /** A VLAN port without a name attribute makes rm_all_interfaces fail. */
  predicate PortUnnamed(k: Kind) {
    k.BridgeKind? && exists p | p in k.ports :: p.VlanPort? && p.vlan.name.None?
  }

  /** device_name_from_xml: an empty name counts as none. */
  function RootName(k: Kind): string {
    if k.VlanKind? && VlanAttr(k.vlan) != "" then VlanAttr(k.vlan) else KindName(k)
  }

  /** The bonds bond_setup visits for an interface: itself, and those enslaved to it as a bridge. */
  function SetupNames(s: Store, name: string): set<string> {
    (if IsBond(s, name) then {name} else {})
    + (if IsBridge(s, name) then set b | b in BridgeSlaves(s, name) && IsBond(s, b) else {})
  }

  function Entries(a: Aliases, name: string): seq<string> {
    if name in a then a[name] else []
  }

  /** modprobed_alias_bond: several alias entries of one name cannot be set together. */
  function Alias(a: Aliases, name: string): Outcome<Aliases> {
    if |Entries(a, name)| > 1 then Failed(AmbiguousAlias) else Done(a[name := ["bonding"]])
  }

  function NotBonding(entries: seq<string>): seq<string> {
    if entries == [] then []
    else (if entries[0] == "bonding" then [] else [entries[0]]) + NotBonding(entries[1..])
  }

  /** modprobed_unalias_bond. */
  function Unalias(a: Aliases, name: string): Aliases {
    var left := NotBonding(Entries(a, name));
    if left == [] then a - {name} else a[name := left]
  }

  /** bond_setup(.., true) for a set of bonds; the order in which they come does not matter. */
  function AliasAll(a: Aliases, names: set<string>): Outcome<Aliases> {
    if exists n | n in names :: |Entries(a, n)| > 1 then Failed(AmbiguousAlias)
    else Done(a + map n | n in names :: ["bonding"])
  }

  /** bond_setup(.., false). */
  function UnaliasAll(a: Aliases, names: set<string>): Aliases {
    map n | n in a && (n in names ==> NotBonding(a[n]) != []) :: if n in names then NotBonding(a[n]) else a[n]
  }

  /** drv_define up to the save. */
  function Define(c: Files, d: Interface): Outcome<Files> {
    if PortUnnamed(d.kind) then Failed(MissingName)
    else
      var forest := Get(d);
      if forest.Err? then Failed(Compiling(forest.fault))
      else
        var ifcfg := PutForest(RmAll(c.ifcfg, Attrs(d.kind)), forest.value);
        var aliases :- AliasAll(c.aliases, SetupNames(ifcfg, RootName(d.kind)));
        Done(Files(ifcfg, aliases, c.macs))
  }

  /** drv_undefine up to the save. */
  function Undefine(c: Files, name: string): Files {
    Files(Rm(c.ifcfg, name), UnaliasAll(c.aliases, SetupNames(c.ifcfg, name)), c.macs)
  }

  // ---- finding the file of a device ----

  function Lower(c: char): char {
    if 'A' <= c <= 'Z' then (c as int + 32) as char else c
  }

  /** strcasecmp(a, b) == 0. */
  predicate SameIgnoringCase(a: string, b: string) {
    |a| == |b| && forall i | 0 <= i < |a| :: Lower(a[i]) == Lower(b[i])
  }

  /** The files whose HWADDR is the address. */
  function FilesWithMac(s: Store, mac: string): set<string> {
    set p | p in s && s[p].HWADDR.Some? && SameIgnoringCase(s[p].HWADDR.value, mac)
  }

  function FilesWithDevice(s: Store, name: string): set<string> {
    set p | p in s && s[p].DEVICE == Some(name)
  }

  /** find_ifcfg_path: ifcfg-NAME, else the last file with the MAC of NAME, else the last with DEVICE NAME. */
  ghost function FindPath(c: Files, name: string): (p: Option<string>)
    ensures p.Some? ==> p.value in c.ifcfg
  {
    if name in c.ifcfg then Some(name)
    else
      var byMac := if name in c.macs then FilesWithMac(c.ifcfg, c.macs[name]) else {};
      if byMac != {} then Some(Names.Last(byMac, "/HWADDR"))
      else
        var byDevice := FilesWithDevice(c.ifcfg, name);
        if byDevice != {} then Some(Names.Last(byDevice, "")) else None
  }

  function DevicesOf(s: Store): set<string> {
    set p | p in s && s[p].DEVICE.Some? :: s[p].DEVICE.value
  }

  function RelatedDevices(s: Store, name: string): set<string> {
    set p | p in s && Related(s, s[p], name) && s[p].DEVICE.Some? :: s[p].DEVICE.value
  }
}
