// The modprobe aliases under define and undefine: which bonds get the alias of the bonding module, which
// lose it, and that no other name is touched.
module RedHatAliases {
  import opened Text
  import opened Document
  import opened RedHat
  import opened RedHatStore
  import opened RedHatStoreProofs
  import RedHatCompiled

  // ---- single names ----

  /** Setting the alias of a name fails when there are several, and leaves the others alone. */
  lemma AliasMeaning(a: Aliases, name: string, x: string)
    ensures Alias(a, name).Failed? <==> |Entries(a, name)| > 1
    ensures Alias(a, name).Done? ==> Entries(Alias(a, name).value, name) == ["bonding"]
    ensures Alias(a, name).Done? && x != name ==>
      Entries(Alias(a, name).value, x) == Entries(a, x) && (x in Alias(a, name).value <==> x in a)
  {
  }

  /** Removing aliases of the bonding module keeps all others, in order. */
  lemma {:induction false} OthersKept(a: seq<string>, b: seq<string>)
    ensures NotBonding(a + b) == NotBonding(a) + NotBonding(b)
    ensures NotBonding([]) == [] && NotBonding(["bonding"]) == []
    ensures forall m | m != "bonding" :: NotBonding([m]) == [m]
  {
    if a == [] {
      NoneBeside(NotBonding(b));
      assert a + b == b;
    } else {
      assert (a + b)[0] == a[0] && (a + b)[1..] == a[1..] + b;
      OthersKept(a[1..], b);
      Assoc(if a[0] == "bonding" then [] else [a[0]], NotBonding(a[1..]), NotBonding(b));
    }
  }

  lemma {:induction false} NoBondingLeft(entries: seq<string>)
    ensures "bonding" !in NotBonding(entries)
  {
    if entries != [] {
      NoBondingLeft(entries[1..]);
    }
  }

  lemma UnaliasMeaning(a: Aliases, name: string, x: string)
    ensures Entries(Unalias(a, name), name) == NotBonding(Entries(a, name))
    ensures "bonding" !in Entries(Unalias(a, name), name)
    ensures x != name ==> Entries(Unalias(a, name), x) == Entries(a, x) && (x in Unalias(a, name) <==> x in a)
  {
    NoBondingLeft(Entries(a, name));
  }

  // ---- the bonds below an interface ----

  /** Some tree is enslaved to the name. */
  ghost predicate Enslaves(s: Store, name: string) {
    exists p | p in s :: s[p].MASTER == Some(name)
  }

  /** x is the interface itself or, if that is a bridge, enslaved to it; and something is enslaved to x. */
  ghost predicate Below(s: Store, name: string, x: string) {
    Enslaves(s, x)
    && (x == name
        || ((exists p | p in s :: s[p].DEVICE == Some(name) && s[p].TYPE == Some("Bridge"))
            && exists p | p in s :: s[p].BRIDGE == Some(name) && s[p].DEVICE == Some(x)))
  }

  lemma SetupMeaning(s: Store, name: string, x: string)
    ensures x in SetupNames(s, name) <==> Below(s, name, x)
  {
  }

  /** The name define reports and sets up: the name attribute, for a VLAN without one its device. */
  predicate Reported(k: Kind, name: string) {
    match k
    case EthernetKind(e) => name == e.name
    case VlanKind(v) => name == if v.name.Some? && v.name.value != "" then v.name.value else v.base + "." + v.tag
    case BridgeKind(bridge, _, _, _) => name == bridge
    case BondKind(bond, _) => name == bond
  }

  lemma ReportedName(k: Kind, name: string)
    ensures Reported(k, name) <==> name == RootName(k)
  {
  }

  /** After a define, the bonds below its root have the alias and nothing else, and no other name has changed. */
  lemma DefinedAliases(c: Files, d: Interface, name: string, x: string)
    requires Define(c, d).Done? && Reported(d.kind, name)
    ensures var r := Define(c, d).value;
      if Below(r.ifcfg, name, x) then Entries(r.aliases, x) == ["bonding"]
      else Entries(r.aliases, x) == Entries(c.aliases, x) && (x in r.aliases <==> x in c.aliases)
  {
    ReportedName(d.kind, name);
    SetupMeaning(Define(c, d).value.ifcfg, name, x);
  }

  /** After an undefine, the bonds that were below it have lost the alias, and no other name has changed. */
  lemma UndefinedAliases(c: Files, name: string, x: string)
    ensures var r := Undefine(c, name);
      if Below(c.ifcfg, name, x) then
        Entries(r.aliases, x) == NotBonding(Entries(c.aliases, x)) && "bonding" !in Entries(r.aliases, x)
      else Entries(r.aliases, x) == Entries(c.aliases, x) && (x in r.aliases <==> x in c.aliases)
  {
    SetupMeaning(c.ifcfg, name, x);
    NoBondingLeft(Entries(c.aliases, x));
  }

  // ---- defining bonds ----

  /** The trees of a document are in the store after a define. */
  lemma TreeDefined(c: Files, d: Interface, t: Tree)
    requires Define(c, d).Done? && Distinct(Devices(d.kind)) && t in Get(d).value
    ensures t.file in Define(c, d).value.ifcfg && Define(c, d).value.ifcfg[t.file] == t.nodes
    ensures t.nodes.DEVICE == Some(t.file)
  {
    FilesOfGet(d);
    PutForestInside(RmAll(c.ifcfg, Attrs(d.kind)), Get(d).value, t);
    RedHatCompiled.CompiledDevice(d, t);
  }

  lemma BondEnslaves(c: Files, d: Interface, name: string, bond: Bond)
    requires Define(c, d).Done? && Distinct(Devices(d.kind))
    requires RedHatCompiled.HasBond(d.kind, name, bond) && bond.slaves != []
    ensures Enslaves(Define(c, d).value.ifcfg, name)
  {
    var t := RedHatCompiled.CompiledSlave(d, name, bond, bond.slaves[0]);
    TreeDefined(c, d, t);
  }

  /** Defining a bond gives it the alias of the bonding module; undefining it takes that alias away. */
  lemma BondAliased(c: Files, d: Interface, name: string, bond: Bond)
    requires Define(c, d).Done? && Distinct(Devices(d.kind)) && d.kind == BondKind(name, bond) && bond.slaves != []
    ensures var r := Define(c, d).value;
      name in r.aliases && r.aliases[name] == ["bonding"] && name !in Undefine(r, name).aliases
  {
    BondEnslaves(c, d, name, bond);
    var r := Define(c, d).value;
    DefinedAliases(c, d, name, name);
    UndefinedAliases(r, name, name);
    OthersKept([], []);
  }

  /** Defining a bridge does so for each bond among its ports. */
  lemma PortAliased(c: Files, d: Interface, name: string, bond: Bond)
    requires Define(c, d).Done? && Distinct(Devices(d.kind)) && d.kind.BridgeKind?
    requires BondPort(name, bond) in d.kind.ports && bond.slaves != []
    ensures var r := Define(c, d).value;
      name in r.aliases && r.aliases[name] == ["bonding"] && name !in Undefine(r, d.kind.name).aliases
  {
    BondEnslaves(c, d, name, bond);
    var r := Define(c, d).value;
    var t := RedHatCompiled.CompiledPort(d, BondPort(name, bond));
    assert Get(d).value[1..] <= Get(d).value || t in Get(d).value;
    TreeDefined(c, d, t);
    RedHatCompiled.CompiledRoot(d);
    TreeDefined(c, d, Get(d).value[0]);
    DefinedAliases(c, d, d.kind.name, name);
    UndefinedAliases(r, d.kind.name, name);
    OthersKept([], []);
  }

  /** A name that no tree gives as its MASTER keeps its aliases. */
  lemma OthersAliased(c: Files, d: Interface, x: string)
    requires Define(c, d).Done?
    requires forall p | p in Define(c, d).value.ifcfg :: Define(c, d).value.ifcfg[p].MASTER != Some(x)
    ensures Entries(Define(c, d).value.aliases, x) == Entries(c.aliases, x)
    ensures x in Define(c, d).value.aliases <==> x in c.aliases
  {
    ReportedName(d.kind, RootName(d.kind));
    DefinedAliases(c, d, RootName(d.kind), x);
  }
}
