// The driver state of src/dutil_linux.c and src/drv_redhat.c: the Augeas tree as a cache of the disk,
// the transform tables, and the API calls that edit the tree and save it.
module Driver {
  import opened Text
  import opened Document
  import opened RedHat
  import opened RedHatStore
  import opened Tables
  import RedHatListing
  import RedHatDescribe
  import Proofs = RedHatStoreProofs
  import Names

  // ---- partial saves ----

  /** Every entry of m is as in a or as in b. */
  ghost predicate Mixed<V>(a: map<string, V>, b: map<string, V>, m: map<string, V>) {
    forall k :: Lookup(m, k) == Lookup(a, k) || Lookup(m, k) == Lookup(b, k)
  }

  /** What a save that fails half-way leaves: each file, and each alias, is the old or the new one. */
  ghost predicate MixedFiles(before: Files, after: Files, disk: Files) {
    Mixed(before.ifcfg, after.ifcfg, disk.ifcfg) && Mixed(before.aliases, after.aliases, disk.aliases)
    && disk.macs == before.macs
  }

  /** Every file and every alias entry is the old or the new one. */
  lemma MixedMeaning(before: Files, after: Files, disk: Files, k: string)
    requires MixedFiles(before, after, disk)
    ensures Lookup(disk.ifcfg, k) == Lookup(before.ifcfg, k) || Lookup(disk.ifcfg, k) == Lookup(after.ifcfg, k)
    ensures Lookup(disk.aliases, k) == Lookup(before.aliases, k) || Lookup(disk.aliases, k) == Lookup(after.aliases, k)
    ensures disk.macs == before.macs
  {
    assert Mixed(before.ifcfg, after.ifcfg, disk.ifcfg) && Mixed(before.aliases, after.aliases, disk.aliases);
  }

  // ---- setting up bonds one by one ----

  /** after is what alias (or unalias) of all the names makes of before. */
  ghost predicate SetUp(before: Aliases, names: set<string>, alias: bool, after: Aliases) {
    if alias then AliasAll(before, names) == Done(after) else after == UnaliasAll(before, names)
  }

  lemma NothingSetUp(a: Aliases, alias: bool)
    ensures SetUp(a, {}, alias, a)
  {
    var none: set<string> := {};
    assert a + (map n | n in none :: ["bonding"]) == a;
    assert UnaliasAll(a, none) == a;
  }

  lemma {:induction false} NotBondingTwice(entries: seq<string>)
    ensures NotBonding(NotBonding(entries)) == NotBonding(entries)
  {
    if entries != [] {
      var rest := NotBonding(entries[1..]);
      NotBondingTwice(entries[1..]);
      if entries[0] == "bonding" {
        assert NotBonding(entries) == rest;
      } else {
        assert NotBonding(entries) == [entries[0]] + rest && ([entries[0]] + rest)[1..] == rest;
      }
    }
  }

  lemma AliasNext(before: Aliases, names: set<string>, n: string, after: Aliases)
    requires AliasAll(before, names) == Done(after)
    ensures Alias(after, n) == AliasAll(before, names + {n})
  {
    if n in names {
      assert names + {n} == names && after[n := ["bonding"]] == after;
    } else if |Entries(before, n)| <= 1 {
      assert after[n := ["bonding"]] == before + map x | x in names + {n} :: ["bonding"];
    }
  }

  lemma UnaliasNext(before: Aliases, names: set<string>, n: string)
    ensures Unalias(UnaliasAll(before, names), n) == UnaliasAll(before, names + {n})
  {
    if n in before {
      NotBondingTwice(before[n]);
    }
  }

  lemma AliasFails(before: Aliases, some: set<string>, all: set<string>)
    requires some <= all && AliasAll(before, some).Failed?
    ensures AliasAll(before, all).Failed?
  {
    var n :| n in some && |Entries(before, n)| > 1;
    assert n in all;
  }

  /** One more bond set up after those in names. */
  lemma SetUpNext(before: Aliases, names: set<string>, n: string, alias: bool, after: Aliases)
    requires SetUp(before, names, alias, after)
    ensures alias ==> Alias(after, n) == AliasAll(before, names + {n})
    ensures !alias ==> Unalias(after, n) == UnaliasAll(before, names + {n})
  {
    if alias {
      AliasNext(before, names, n, after);
    } else {
      UnaliasNext(before, names, n);
    }
  }

  // ---- runs of API calls ----

  datatype Request =
    | DefineRequest(doc: Interface)
    | UndefineRequest(name: string)
    | DescRequest(name: string)
    | AddRequest(table: Table)
    | RemoveRequest(table: Table)

  /** Unchanged: the disk was not written. Saved: the call succeeded. Torn: it failed at its save or later. */
  datatype Effect = Unchanged | Saved | Torn

  function EffectOf(ok: bool, saving: bool): Effect {
    if ok then Saved else if saving then Torn else Unchanged
  }

  function Change(r: Request): seq<Proofs.Call> {
    match r
    case DefineRequest(d) => [Proofs.DefineCall(d)]
    case UndefineRequest(name) => [Proofs.UndefineCall(name)]
    case _ => []
  }

  /** The changes that were saved, in order. */
  function SavedChanges(requests: seq<Request>, effects: seq<Effect>): seq<Proofs.Call>
    requires |requests| == |effects|
  {
    if requests == [] then []
    else
      var last := |requests| - 1;
      SavedChanges(requests[..last], effects[..last]) + if effects[last].Saved? then Change(requests[last]) else []
  }

  lemma {:induction false} SavedAreRequested(requests: seq<Request>, effects: seq<Effect>)
    requires |requests| == |effects|
    ensures forall c | c in SavedChanges(requests, effects) :: exists r | r in requests :: c in Change(r)
  {
    if requests != [] {
      var last := |requests| - 1;
      SavedAreRequested(requests[..last], effects[..last]);
      assert requests[last] in requests;
      assert forall r | r in requests[..last] :: r in requests;
    }
  }

  /** The disk after one more request. */
  lemma SavedNext(files: Files, requests: seq<Request>, effects: seq<Effect>, r: Request, e: Effect)
    requires |requests| == |effects|
    ensures SavedChanges(requests + [r], effects + [e])
         == SavedChanges(requests, effects) + if e.Saved? then Change(r) else []
    ensures var before := Proofs.Run(files, SavedChanges(requests, effects));
      Proofs.Run(files, SavedChanges(requests + [r], effects + [e]))
      == if e.Saved? && Change(r) != [] then Proofs.Step(before, Change(r)[0]) else before
  {
    var changes := SavedChanges(requests, effects);
    assert (requests + [r])[..|requests|] == requests && (effects + [e])[..|effects|] == effects;
    if e.Saved? && Change(r) != [] {
      var c := Change(r)[0];
      assert Change(r) == [c];
      assert (changes + [c])[..|changes|] == changes;
    } else {
      assert changes + [] == changes;
    }
  }

  /** The tables in use after one request: a successful add or remove changes one use of one table. */
  function TableStep(tables: multiset<Table>, r: Request, effect: Effect): multiset<Table> {
    match r
    case AddRequest(table) => if effect.Saved? then tables + multiset{table} else tables
    case RemoveRequest(table) => if effect.Saved? then tables - multiset{table} else tables
    case _ => tables
  }

  function TablesAfter(tables: multiset<Table>, requests: seq<Request>, effects: seq<Effect>): multiset<Table>
    requires |requests| == |effects|
  {
    if requests == [] then tables
    else
      var last := |requests| - 1;
      TableStep(TablesAfter(tables, requests[..last], effects[..last]), requests[last], effects[last])
  }

  lemma TablesNext(tables: multiset<Table>, requests: seq<Request>, effects: seq<Effect>, r: Request, e: Effect)
    requires |requests| == |effects|
    ensures TablesAfter(tables, requests + [r], effects + [e])
         == TableStep(TablesAfter(tables, requests, effects), r, e)
  {
    assert (requests + [r])[..|requests|] == requests && (effects + [e])[..|effects|] == effects;
  }

  /** All the changes asked for, in order. */
  function Changes(requests: seq<Request>): seq<Proofs.Call> {
    if requests == [] then []
    else Changes(requests[..|requests| - 1]) + Change(requests[|requests| - 1])
  }

  /** The effect of a request when no operation fails. */
  ghost function Answer(files: Files, tables: multiset<Table>, r: Request): Effect {
    match r
    case DefineRequest(d) => EffectOf(RedHatStore.Define(files, d).Done?, false)
    case UndefineRequest(_) => Saved
    case DescRequest(name) => EffectOf(RedHatDescribe.Desc(files, name).Ok?, false)
    case AddRequest(_) => Saved
    case RemoveRequest(table) => EffectOf(table in tables, false)
  }

  /** The i-th request had the effect that the disk and the tables before it call for. */
  ghost predicate AnsweredAt(
    files: Files, tables: multiset<Table>, requests: seq<Request>, effects: seq<Effect>, i: nat)
    requires i < |requests| == |effects|
  {
    effects[i] == Answer(Proofs.Run(files, Changes(requests[..i])),
                         TablesAfter(tables, requests[..i], effects[..i]), requests[i])
  }

  ghost predicate Answered(
    files: Files, disk: Files, tables: multiset<Table>, requests: seq<Request>, effects: seq<Effect>)
  {
    |requests| == |effects| && disk == Proofs.Run(files, Changes(requests))
    && forall i | 0 <= i < |requests| :: AnsweredAt(files, tables, requests, effects, i)
  }

  lemma ChangesNext(files: Files, requests: seq<Request>, r: Request)
    ensures var before := Proofs.Run(files, Changes(requests));
      Proofs.Run(files, Changes(requests + [r]))
      == if Change(r) == [] then before else Proofs.Step(before, Change(r)[0])
  {
    var changes := Changes(requests);
    assert (requests + [r])[..|requests|] == requests;
    if Change(r) != [] {
      var c := Change(r)[0];
      assert Change(r) == [c] && (changes + [c])[..|changes|] == changes;
    } else {
      assert changes + [] == changes;
    }
  }

  lemma AnsweredLonger(files: Files, tables: multiset<Table>, requests: seq<Request>, effects: seq<Effect>, r: Request,
                       effect: Effect, i: nat)
    requires i < |requests| == |effects| && AnsweredAt(files, tables, requests, effects, i)
    ensures AnsweredAt(files, tables, requests + [r], effects + [effect], i)
  {
    assert (requests + [r])[..i] == requests[..i] && (effects + [effect])[..i] == effects[..i];
  }

  lemma AnsweredLast(files: Files, before: Files, tables: multiset<Table>, requests: seq<Request>, effects: seq<Effect>,
                     r: Request, effect: Effect)
    requires |requests| == |effects| && before == Proofs.Run(files, Changes(requests))
    requires effect == Answer(before, TablesAfter(tables, requests, effects), r)
    ensures AnsweredAt(files, tables, requests + [r], effects + [effect], |requests|)
  {
    assert (requests + [r])[..|requests|] == requests && (effects + [effect])[..|effects|] == effects;
  }

  lemma AnsweredNext(files: Files, before: Files, after: Files, tables: multiset<Table>, requests: seq<Request>,
                     effects: seq<Effect>, r: Request, effect: Effect)
    requires Answered(files, before, tables, requests, effects)
    requires after == if Change(r) == [] then before else Proofs.Step(before, Change(r)[0])
    requires effect == Answer(before, TablesAfter(tables, requests, effects), r)
    ensures Answered(files, after, tables, requests + [r], effects + [effect])
  {
    ChangesNext(files, requests, r);
    forall i | 0 <= i < |requests| + 1
      ensures AnsweredAt(files, tables, requests + [r], effects + [effect], i)
    {
      if i < |requests| {
        AnsweredLonger(files, tables, requests, effects, r, effect, i);
      } else {
        AnsweredLast(files, before, tables, requests, effects, r, effect);
      }
    }
  }

  /** A request that is refused would have changed nothing. */
  lemma AnswerServed(files: Files, after: Files, tables: multiset<Table>, r: Request, effect: Effect)
    requires effect == Answer(files, tables, r) && Served(files, after, r, effect)
    ensures after == if Change(r) == [] then files else Proofs.Step(files, Change(r)[0])
  {
  }

  /** Removing a table takes effect exactly when it is registered. */
  lemma RemoveAnswered(files: Files, tables: seq<Option<Table>>, table: Table)
    ensures var inUse, effect := multiset(Live(tables)), if Some(table) in tables then Saved else Unchanged;
      effect == Answer(files, inUse, RemoveRequest(table))
      && TableStep(inUse, RemoveRequest(table), effect)
         == if Some(table) in tables then multiset(Live(Drop(tables, table))) else inUse
  {
    LiveHas(tables, table);
    if Some(table) in tables {
      DropKeepsOthers(tables, table);
    }
  }

  /** Every document to be defined is one a store can take. */
  ghost predicate AllDefinable(requests: seq<Request>) {
    forall r | r in requests && r.DefineRequest? :: Proofs.Definable(r.doc)
  }

  /** Only a define or an undefine can leave a save half done. */
  ghost predicate OnlyChangesTear(requests: seq<Request>, effects: seq<Effect>) {
    forall i | 0 <= i < |requests| && i < |effects| && effects[i].Torn? ::
      requests[i].DefineRequest? || requests[i].UndefineRequest?
  }

  /** Unless a save was torn, the disk is what the saved changes make of the files. */
  ghost predicate Replayed(files: Files, disk: Files, requests: seq<Request>, effects: seq<Effect>) {
    |requests| == |effects| && OnlyChangesTear(requests, effects)
    && (Torn !in effects ==> disk == Proofs.Run(files, SavedChanges(requests, effects)))
  }

  /** How one request may change the disk. */
  ghost predicate Served(before: Files, after: Files, r: Request, effect: Effect) {
    (effect.Unchanged? ==> after == before)
    && (effect.Saved? ==> after == if Change(r) == [] then before else Proofs.Step(before, Change(r)[0]))
    && (effect.Torn? ==> Change(r) != [] && MixedFiles(before, Proofs.Step(before, Change(r)[0]), after))
  }

  lemma NothingServed(files: Files, r: Request, effect: Effect)
    requires Change(r) == [] && !effect.Torn?
    ensures Served(files, files, r, effect)
  {
  }

  lemma ReplayedNext(files: Files, before: Files, after: Files, requests: seq<Request>, effects: seq<Effect>,
                     r: Request, effect: Effect)
    requires Replayed(files, before, requests, effects) && Served(before, after, r, effect)
    ensures Replayed(files, after, requests + [r], effects + [effect])
  {
    SavedNext(files, requests, effects, r, effect);
    if Torn !in effects + [effect] {
      assert forall e | e in effects :: e in effects + [effect];
      assert effect in effects + [effect];
    }
  }

  /** What a run of requests has come to. */
  ghost predicate Reached(files: Files, disk: Files, start: multiset<Table>, inUse: multiset<Table>, reliable: bool,
                          requests: seq<Request>, effects: seq<Effect>)
  {
    Replayed(files, disk, requests, effects) && inUse == TablesAfter(start, requests, effects)
    && (reliable ==> Answered(files, disk, start, requests, effects))
  }

  lemma ReachedNext(files: Files, before: Files, after: Files, start: multiset<Table>, tables: multiset<Table>,
                    reliable: bool, requests: seq<Request>, effects: seq<Effect>, r: Request, effect: Effect)
    requires Reached(files, before, start, tables, reliable, requests, effects)
    requires Served(before, after, r, effect)
    requires reliable ==> effect == Answer(before, tables, r)
    ensures Reached(files, after, start, TableStep(tables, r, effect), reliable, requests + [r], effects + [effect])
  {
    ReplayedNext(files, before, after, requests, effects, r, effect);
    TablesNext(start, requests, effects, r, effect);
    if reliable {
      AnswerServed(before, after, tables, r, effect);
      AnsweredNext(files, before, after, start, requests, effects, r, effect);
    }
  }

  class Netcf {
    /** No operation that may fail, such as an allocation or a write, does fail. */
    const reliable: bool
    var disk: Files
    var tree: Files
    var augeas: bool
    var loadAugeas: bool
    var copyAugeasXfm: bool
    var tables: seq<Option<Table>>
    var settings: Settings
    var failed: bool
    ghost var loads: nat

    ghost predicate Valid()
      reads this
    {
      augeas && !copyAugeasXfm ==> settings == LoadSettings(tables)
    }

    /** get_augeas has nothing left to do. */
    predicate Ready()
      reads this
    {
      augeas && !copyAugeasXfm && !loadAugeas
    }

    /** A driver as drv_init allocates it: all fields zero. */
    constructor (files: Files, reliable: bool)
      ensures Valid() && disk == files && tables == [] && settings == map[] && this.reliable == reliable
      ensures !augeas && !loadAugeas && !copyAugeasXfm && !failed && loads == 0
    {
      this.reliable := reliable;
      disk, tree := files, files;
      augeas, loadAugeas, copyAugeasXfm := false, false, false;
      tables, settings, failed, loads := [], map[], false, 0;
    }

    /** API_ENTRY with drv_entry: errors are cleared and the tree must be loaded again. */
    method ApiEntry()
      requires Valid()
      modifies this`failed, this`loadAugeas, this`loads
      ensures Valid() && !failed && loadAugeas && loads == 0 && !Ready()
    {
      failed, loadAugeas, loads := false, true, 0;
    }

    /** Whether an operation that may fail succeeds. */
    method Try() returns (ok: bool)
      ensures reliable ==> ok
    {
      ok := *;
      ok := ok || reliable;
    }

    // ---- tables ----

    /** add_augeas_xfm_table: the first free slot, or a new one. */
    method AddTable(xfm: Table) returns (ok: bool)
      requires Valid()
      modifies this`tables, this`copyAugeasXfm, this`failed
      ensures Valid()
      ensures reliable ==> ok
      ensures failed == (old(failed) || !ok)
      ensures !ok ==> tables == old(tables) && copyAugeasXfm == old(copyAugeasXfm)
      ensures ok ==> copyAugeasXfm
      ensures ok ==> tables == Place(old(tables), xfm)
      ensures ok && (forall k | 0 <= k < |old(tables)| :: old(tables)[k].Some?) ==>
        tables == old(tables) + [Some(xfm)]
      ensures ok ==> forall slot: nat | slot < |old(tables)| && old(tables)[slot].None?
          && (forall k | 0 <= k < slot :: old(tables)[k].Some?) ::
        tables == old(tables)[slot := Some(xfm)]
    {
      PlaceFirst(tables, xfm);
      var slot := 0;
      while slot < |tables| && tables[slot].Some?
        invariant slot <= |tables|
        invariant slot + FirstFree(tables[slot..]) == FirstFree(tables)
      {
        assert tables[slot..][1..] == tables[slot + 1..];
        slot := slot + 1;
      }
      if slot == |tables| {
        var grown := Try();
        if !grown {
          failed := true;
          return false;
        }
        tables := tables + [Some(xfm)];
      } else {
        tables := tables[slot := Some(xfm)];
      }
      copyAugeasXfm := true;
      ok := true;
    }

    /** remove_augeas_xfm_table; a table that is not registered would be looked for past the end. */
    method RemoveTable(xfm: Table)
      requires Valid() && Some(xfm) in tables
      modifies this`tables, this`copyAugeasXfm
      ensures Valid() && copyAugeasXfm
      ensures tables == Drop(old(tables), xfm)
      ensures forall slot: nat | slot < |old(tables)| && old(tables)[slot] == Some(xfm)
          && Some(xfm) !in old(tables)[..slot] ::
        tables == old(tables)[slot := None]
    {
      DropFirst(tables, xfm);
      var slot := 0;
      while slot < |tables| && tables[slot] != Some(xfm)
        invariant slot <= |tables| && Some(xfm) in tables[slot..]
        invariant slot + FirstSlot(tables[slot..], xfm) == FirstSlot(tables, xfm)
      {
        assert tables[slot..][1..] == tables[slot + 1..];
        slot := slot + 1;
      }
      tables := tables[slot := None];
      copyAugeasXfm := true;
    }

    /** The loops of get_augeas that write the tables into /augeas/load. */
    method CopyTables() returns (ok: bool)
      modifies this`settings
      ensures reliable ==> ok
      ensures ok ==> settings == LoadSettings(tables) && Holds(tables, settings)
    {
      ok := Try();
      if !ok {
        return;
      }
      settings := map[];
      for slot := 0 to |tables|
        invariant settings == LoadSettings(tables[..slot])
      {
        assert tables[..slot + 1][..slot] == tables[..slot];
        if tables[slot].Some? {
          ok := CopyTable(tables[slot].value.pv);
          if !ok {
            return;
          }
        }
      }
      assert tables[..|tables|] == tables;
      LoadSettingsHold(tables);
    }

    method CopyTable(pv: seq<Pv>) returns (ok: bool)
      modifies this`settings
      ensures reliable ==> ok
      ensures ok ==> settings == Apply(old(settings), pv)
    {
      for i := 0 to |pv|
        invariant settings == Apply(old(settings), pv[..i])
      {
        ok := Try();
        if !ok {
          return;
        }
        assert pv[..i + 1][..i] == pv[..i];
        settings := settings[pv[i].path := pv[i].value];
      }
      assert pv[..|pv|] == pv;
      ok := true;
    }

    // ---- get_augeas ----

    /**
     * Initialise, copy the tables, load: each only when its flag says so, each may fail. A load
     * replaces the tree by the disk; a failure closes Augeas.
     */
    method GetAugeas() returns (ok: bool)
      requires Valid()
      modifies this`tree, this`augeas, this`loadAugeas, this`copyAugeasXfm, this`settings, this`failed, this`loads
      ensures Valid()
      ensures ok ==> Ready() && Holds(tables, settings) && failed == old(failed)
      ensures ok && !old(Ready()) ==> tree == disk && loads == old(loads) + 1
      ensures old(Ready()) ==> ok && tree == old(tree) && loads == old(loads)
      ensures reliable ==> ok
      ensures !ok ==> failed && !augeas && loads <= old(loads) + 1
    {
      if !augeas {
        var initialised := Try();
        if !initialised {
          failed := true;
          return false;
        }
        augeas := true;
        copyAugeasXfm := true;
      }
      if copyAugeasXfm {
        var copied := CopyTables();
        if !copied {
          augeas, failed := false, true;
          return false;
        }
        copyAugeasXfm := false;
        loadAugeas := true;
      }
      if loadAugeas {
        loads := loads + 1;
        var loaded := Try();
        if !loaded {
          augeas, failed := false, true;
          return false;
        }
        tree := disk;
        loadAugeas := false;
      }
      LoadSettingsHold(tables);
      ok := true;
    }

    // ---- saving ----

    /** aug_save writes file by file; a file that cannot be written stays as it was. */
    method AugSave() returns (ok: bool)
      modifies this`disk, this`failed
      ensures reliable ==> ok
      ensures failed == (old(failed) || !ok)
      ensures ok ==> disk == tree.(macs := old(disk.macs))
      ensures MixedFiles(old(disk), tree, disk)
    {
      var ifcfg, saved := SaveMap(disk.ifcfg, tree.ifcfg, reliable);
      var aliases, saved' := SaveMap(disk.aliases, tree.aliases, reliable);
      disk := Files(ifcfg, aliases, disk.macs);
      ok := saved && saved';
      failed := failed || !ok;
    }

    // ---- edits of the tree ----

    /** rm_interface. */
    method RmInterface(name: string) returns (ok: bool)
      requires Valid() && Ready()
      modifies this`tree, this`augeas, this`loadAugeas, this`copyAugeasXfm, this`settings, this`failed, this`loads
      ensures Valid() && Ready() && loads == old(loads)
      ensures failed == (old(failed) || !ok)
      ensures reliable ==> ok
      ensures ok ==> tree == old(tree).(ifcfg := Rm(old(tree.ifcfg), name))
    {
      var ready := GetAugeas();
      ok := Try();
      if ok {
        tree := tree.(ifcfg := Rm(tree.ifcfg, name));
      } else {
        failed := true;
      }
    }

    /** rm_all_interfaces, over the name attributes of the document. */
    method RmAllInterfaces(names: seq<string>) returns (ok: bool)
      requires Valid() && Ready()
      modifies this`tree, this`augeas, this`loadAugeas, this`copyAugeasXfm, this`settings, this`failed, this`loads
      ensures Valid() && Ready() && loads == old(loads)
      ensures failed == (old(failed) || !ok)
      ensures reliable ==> ok
      ensures ok ==> tree == old(tree).(ifcfg := RmAll(old(tree.ifcfg), names))
    {
      for i := 0 to |names|
        invariant Valid() && Ready() && loads == old(loads) && failed == old(failed)
        invariant tree == old(tree).(ifcfg := tree.ifcfg)
        invariant RmAll(tree.ifcfg, names[i..]) == RmAll(old(tree.ifcfg), names)
      {
        assert names[i..][1..] == names[i + 1..];
        ok := RmInterface(names[i]);
        if !ok {
          return;
        }
      }
      ok := true;
    }

    /** aug_put_xml: every tree clears its file and writes its nodes. */
    method AugPutXml(forest: Forest) returns (ok: bool)
      requires Valid() && Ready()
      modifies this`tree, this`augeas, this`loadAugeas, this`copyAugeasXfm, this`settings, this`failed, this`loads
      ensures Valid() && Ready() && loads == old(loads)
      ensures failed == (old(failed) || !ok)
      ensures reliable ==> ok
      ensures ok ==> tree == old(tree).(ifcfg := PutForest(old(tree.ifcfg), forest))
    {
      var ready := GetAugeas();
      for i := 0 to |forest|
        invariant Valid() && Ready() && loads == old(loads) && failed == old(failed)
        invariant tree == old(tree).(ifcfg := tree.ifcfg)
        invariant PutForest(tree.ifcfg, forest[i..]) == PutForest(old(tree.ifcfg), forest)
      {
        assert forest[i..][1..] == forest[i + 1..];
        ok := Try();
        if !ok {
          tree := tree.(ifcfg := tree.ifcfg - {forest[i].file});
          failed := true;
          return;
        }
        tree := tree.(ifcfg := tree.ifcfg[forest[i].file := forest[i].nodes]);
      }
      ok := true;
    }

    // ---- aliases ----

    /** modprobed_alias_bond or modprobed_unalias_bond. */
    method Setup(name: string, alias: bool) returns (ok: bool)
      requires Valid() && Ready()
      modifies this`tree, this`augeas, this`loadAugeas, this`copyAugeasXfm, this`settings, this`failed, this`loads
      ensures Valid() && Ready() && loads == old(loads)
      ensures failed == (old(failed) || !ok)
      ensures reliable ==> ok == (alias ==> Alias(old(tree.aliases), name).Done?)
      ensures ok && alias ==> Alias(old(tree.aliases), name) == Done(tree.aliases)
      ensures ok && !alias ==> tree.aliases == Unalias(old(tree.aliases), name)
      ensures tree == old(tree).(aliases := tree.aliases)
    {
      var ready := GetAugeas();
      ok := Try();
      if ok && alias {
        var r := Alias(tree.aliases, name);
        if r.Done? {
          tree := tree.(aliases := r.value);
        } else {
          ok := false;
        }
      } else if ok {
        tree := tree.(aliases := Unalias(tree.aliases, name));
      }
      if !ok {
        failed := true;
      }
    }

    /** bond_setup. */
    method BondSetup(name: string, alias: bool) returns (ok: bool)
      requires Valid() && Ready()
      modifies this`tree, this`augeas, this`loadAugeas, this`copyAugeasXfm, this`settings, this`failed, this`loads
      ensures Valid() && Ready() && loads == old(loads)
      ensures failed == (old(failed) || !ok)
      ensures reliable ==>
        ok == (alias ==> AliasAll(old(tree.aliases), SetupNames(tree.ifcfg, name)).Done?)
      ensures tree == old(tree).(aliases := tree.aliases)
      ensures ok ==> SetUp(old(tree.aliases), SetupNames(tree.ifcfg, name), alias, tree.aliases)
    {
      ghost var start := tree.aliases;
      ghost var visited: set<string> := {};
      NothingSetUp(start, alias);
      if IsBond(tree.ifcfg, name) {
        SetUpNext(start, {}, name, alias, start);
        ok := Setup(name, alias);
        if !ok {
          if alias && AliasAll(start, {} + {name}).Failed? {
            AliasFails(start, {} + {name}, SetupNames(tree.ifcfg, name));
          }
          return;
        }
        visited := {} + {name};
      }
      if IsBridge(tree.ifcfg, name) {
        ok, visited := BridgeSetup(name, alias, visited, start);
        if !ok {
          return;
        }
      }
      assert visited == SetupNames(tree.ifcfg, name);
      ok := true;
    }

    /** The loop of bond_setup over the bonds enslaved to a bridge. */
    method BridgeSetup(name: string, alias: bool, ghost before: set<string>, ghost start: Aliases)
      returns (ok: bool, ghost visited: set<string>)
      requires Valid() && Ready() && SetUp(start, before, alias, tree.aliases)
      modifies this`tree, this`augeas, this`loadAugeas, this`copyAugeasXfm, this`settings, this`failed, this`loads
      ensures Valid() && Ready() && loads == old(loads)
      ensures failed == (old(failed) || !ok)
      ensures reliable ==> ok == (alias ==> AliasAll(start, visited).Done?)
      ensures tree == old(tree).(aliases := tree.aliases)
      ensures visited == before + set b | b in BridgeSlaves(tree.ifcfg, name) && IsBond(tree.ifcfg, b)
      ensures ok ==> SetUp(start, visited, alias, tree.aliases)
    {
      var slaves := RedHatListing.Match(BridgeSlaves(tree.ifcfg, name));
      ghost var bonds := set b | b in BridgeSlaves(tree.ifcfg, name) && IsBond(tree.ifcfg, b);
      visited := before + bonds;
      ghost var done := before;
      for i := 0 to |slaves|
        invariant Valid() && Ready() && loads == old(loads) && failed == old(failed)
        invariant done <= visited
        invariant tree == old(tree).(aliases := tree.aliases)
        invariant done == before + set b | b in slaves[..i] && IsBond(tree.ifcfg, b)
        invariant SetUp(start, done, alias, tree.aliases)
      {
        assert slaves[..i + 1] == slaves[..i] + [slaves[i]];
        if IsBond(tree.ifcfg, slaves[i]) {
          SetUpNext(start, done, slaves[i], alias, tree.aliases);
          ok := Setup(slaves[i], alias);
          if !ok {
            if alias && AliasAll(start, done + {slaves[i]}).Failed? {
              AliasFails(start, done + {slaves[i]}, visited);
            }
            return;
          }
          done := done + {slaves[i]};
        }
      }
      assert slaves[..|slaves|] == slaves;
      assert done == visited;
      ok := true;
    }

    // ---- API calls ----

    /**
     * ncf_define. saving tells whether the save was reached. Until then the disk is untouched; from
     * then on each file is the old or the new one, and all are new on success.
     */
    method Define(d: Interface) returns (ok: bool, saving: bool)
      requires Valid()
      modifies this
      ensures Valid() && tables == old(tables) && loads <= 1 && disk.macs == old(disk.macs)
      ensures !saving ==> !ok && disk == old(disk)
      ensures saving ==> RedHatStore.Define(old(disk), d).Done?
      ensures saving ==> MixedFiles(old(disk), RedHatStore.Define(old(disk), d).value, disk)
      ensures ok ==> RedHatStore.Define(old(disk), d) == Done(disk)
      ensures failed == !ok
      ensures reliable ==> ok == RedHatStore.Define(old(disk), d).Done? && saving == ok
    {
      ok, saving := false, false;
      ApiEntry();
      var ready := GetAugeas();
      if !ready {
        return;
      }
      var accepted := Try();
      if !accepted || PortUnnamed(d.kind) {
        failed := true;
        return;
      }
      var removed := RmAllInterfaces(Attrs(d.kind));
      if !removed {
        return;
      }
      var forest := Get(d);
      if forest.Err? {
        failed := true;
        return;
      }
      var written := AugPutXml(forest.value);
      if !written {
        return;
      }
      var aliased := BondSetup(RootName(d.kind), true);
      if !aliased {
        return;
      }
      saving := true;
      ok := AugSave();
      var made := Try();
      ok := ok && made;
      failed := failed || !made;
    }

    /** ncf_if_undefine; returns as Define does. */
    method Undefine(name: string) returns (ok: bool, saving: bool)
      requires Valid()
      modifies this
      ensures Valid() && tables == old(tables) && loads <= 1 && disk.macs == old(disk.macs)
      ensures !saving ==> !ok && disk == old(disk)
      ensures saving ==> MixedFiles(old(disk), RedHatStore.Undefine(old(disk), name), disk)
      ensures ok ==> disk == RedHatStore.Undefine(old(disk), name)
      ensures failed == !ok
      ensures reliable ==> ok && saving
    {
      ok, saving := false, false;
      ApiEntry();
      var ready := GetAugeas();
      if !ready {
        return;
      }
      var unaliased := BondSetup(name, false);
      if !unaliased {
        return;
      }
      var removed := RmInterface(name);
      if !removed {
        return;
      }
      saving := true;
      ok := AugSave();
    }

    /** ncf_if_xml_desc: what is on the disk, whatever edits an earlier call left in the tree. */
    method XmlDesc(name: string) returns (ok: bool, doc: Result<seq<Interface>>)
      requires Valid()
      modifies this
      ensures Valid() && tables == old(tables) && loads <= 1 && disk == old(disk)
      ensures ok ==> doc == RedHatDescribe.Desc(old(disk), name) && doc.Ok?
      ensures failed == !ok
      ensures reliable ==> ok == RedHatDescribe.Desc(old(disk), name).Ok?
    {
      doc := Ok([]);
      ApiEntry();
      ok := GetAugeas();
      if !ok {
        return;
      }
      var forest := AugGetXmlForNif(name);
      doc := Put(forest);
      ok := doc.Ok?;
      failed := !ok;
    }

    method ServeDefine(d: Interface) returns (effect: Effect)
      requires Valid()
      modifies this
      ensures Valid() && tables == old(tables) && Served(old(disk), disk, DefineRequest(d), effect)
      ensures reliable ==> effect == Answer(old(disk), multiset{}, DefineRequest(d))
    {
      var ok, saving := Define(d);
      effect := EffectOf(ok, saving);
    }

    method ServeUndefine(name: string) returns (effect: Effect)
      requires Valid()
      modifies this
      ensures Valid() && tables == old(tables) && Served(old(disk), disk, UndefineRequest(name), effect)
      ensures reliable ==> effect.Saved?
    {
      var ok, saving := Undefine(name);
      effect := EffectOf(ok, saving);
    }

    method ServeAdd(table: Table) returns (effect: Effect)
      requires Valid()
      modifies this`tables, this`copyAugeasXfm, this`failed
      ensures Valid() && effect != Torn
      ensures multiset(Live(tables)) == TableStep(multiset(Live(old(tables))), AddRequest(table), effect)
      ensures reliable ==> effect == Saved
    {
      PlaceKeepsLive(tables, table);
      var ok := AddTable(table);
      effect := EffectOf(ok, false);
    }

    /** Only a registered table is ever removed. */
    method ServeRemove(table: Table) returns (effect: Effect)
      requires Valid()
      modifies this`tables, this`copyAugeasXfm
      ensures Valid()
      ensures multiset(Live(tables)) == TableStep(multiset(Live(old(tables))), RemoveRequest(table), effect)
      ensures effect == Answer(disk, multiset(Live(old(tables))), RemoveRequest(table))
    {
      RemoveAnswered(disk, tables, table);
      if Some(table) in tables {
        RemoveTable(table);
        effect := Saved;
      } else {
        effect := Unchanged;
      }
    }

    /** One API call, or one change of the tables. */
    method Serve(r: Request) returns (effect: Effect)
      requires Valid()
      modifies this
      ensures Valid()
      ensures Served(old(disk), disk, r, effect)
      ensures multiset(Live(tables)) == TableStep(multiset(Live(old(tables))), r, effect)
      ensures reliable ==> effect == Answer(old(disk), multiset(Live(old(tables))), r)
    {
      if r.AddRequest? || r.RemoveRequest? {
        effect := ServeTables(r);
        NothingServed(disk, r, effect);
      } else {
        effect := ServeCall(r);
      }
    }

    method ServeTables(r: Request) returns (effect: Effect)
      requires Valid() && (r.AddRequest? || r.RemoveRequest?)
      modifies this`tables, this`copyAugeasXfm, this`failed
      ensures Valid() && effect != Torn
      ensures multiset(Live(tables)) == TableStep(multiset(Live(old(tables))), r, effect)
      ensures reliable ==> effect == Answer(disk, multiset(Live(old(tables))), r)
    {
      if r.AddRequest? {
        effect := ServeAdd(r.table);
      } else {
        effect := ServeRemove(r.table);
      }
    }

    method ServeCall(r: Request) returns (effect: Effect)
      requires Valid() && !r.AddRequest? && !r.RemoveRequest?
      modifies this
      ensures Valid() && tables == old(tables) && Served(old(disk), disk, r, effect)
      ensures reliable ==> effect == Answer(old(disk), multiset(Live(tables)), r)
    {
      match r {
        case DefineRequest(d) => effect := ServeDefine(d);
        case UndefineRequest(name) => effect := ServeUndefine(name);
        case DescRequest(name) =>
          var ok, doc := XmlDesc(name);
          effect := EffectOf(ok, ok);
          NothingServed(disk, r, effect);
      }
    }

    /**
     * Any run of API calls, with failures anywhere. Unless a save was torn, the disk is what the saved
     * calls alone make of it, one after the other, and a well-formed store stays well-formed. The tables
     * in use are what the successful adds and removes make of them. When no operation fails, the disk
     * is what all the requests make of it, and each has the effect it must have.
     */
    method Session(requests: seq<Request>) returns (effects: seq<Effect>)
      requires Valid()
      modifies this
      ensures Valid() && |effects| == |requests|
      ensures Torn !in effects ==> disk == Proofs.Run(old(disk), SavedChanges(requests, effects))
      ensures OnlyChangesTear(requests, effects)
      ensures multiset(Live(tables)) == TablesAfter(multiset(Live(old(tables))), requests, effects)
      ensures Torn !in effects && Proofs.WellFormed(old(disk).ifcfg) && AllDefinable(requests) ==>
        Proofs.WellFormed(disk.ifcfg)
      ensures reliable ==> Answered(old(disk), disk, multiset(Live(old(tables))), requests, effects)
    {
      ghost var start, inUse := disk, multiset(Live(tables));
      effects := [];
      for i := 0 to |requests|
        invariant Valid()
        invariant Reached(start, disk, inUse, multiset(Live(tables)), reliable, requests[..i], effects)
      {
        assert requests[..i + 1] == requests[..i] + [requests[i]];
        ghost var before, live := disk, multiset(Live(tables));
        var effect := Serve(requests[i]);
        ReachedNext(start, before, disk, inUse, live, reliable, requests[..i], effects, requests[i], effect);
        effects := effects + [effect];
      }
      assert requests[..|requests|] == requests;
      if Proofs.WellFormed(start.ifcfg) && AllDefinable(requests) {
        RunWellFormed(start, requests, effects);
      }
    }

    /** aug_get_xml_for_nif. */
    method AugGetXmlForNif(name: string) returns (forest: Forest)
      ensures forest == RedHatDescribe.DescForest(tree, name)
    {
      var s := tree.ifcfg;
      var devs := RedHatListing.MatchDevices(s, set p | p in s && Related(s, s[p], name) && s[p].DEVICE.Some?);
      assert Names.ToSet(devs) == RelatedDevices(s, name);
      assert forall d | d in devs :: d in Names.ToSet(devs);
      var devnames, n := RedHatListing.UniqNames(devs);
      var names := devnames[..n];
      RedHatDescribe.RelatedFound(tree, name);
      forest := AugGetXml(names);
    }

    /** aug_get_xml on the canonical files of the names. */
    method AugGetXml(names: seq<string>) returns (forest: Forest)
      requires RedHatDescribe.AllFound(tree, names)
      ensures forest == RedHatDescribe.TreesAt(tree, names)
    {
      forest := [];
      for i := 0 to |names|
        invariant forest + RedHatDescribe.TreesAt(tree, names[i..]) == RedHatDescribe.TreesAt(tree, names)
      {
        assert names[i..][0] == names[i] && names[i..][1..] == names[i + 1..] && names[i] in names;
        var path := RedHatListing.FindIfcfgPath(tree, names[i]);
        forest := forest + [Tree(path.value, tree.ifcfg[path.value])];
      }
      assert names[|names|..] == [];
    }
  }

  lemma RunWellFormed(files: Files, requests: seq<Request>, effects: seq<Effect>)
    requires |requests| == |effects| && Proofs.WellFormed(files.ifcfg) && AllDefinable(requests)
    ensures Proofs.WellFormed(Proofs.Run(files, SavedChanges(requests, effects)).ifcfg)
  {
    var changes := SavedChanges(requests, effects);
    SavedAreRequested(requests, effects);
    forall c | c in changes && c.DefineCall?
      ensures Proofs.Definable(c.doc)
    {
      var r :| r in requests && c in Change(r);
    }
    Proofs.RunKeepsWellFormed(files, changes);
  }

  function WriteEntry<V>(m: map<string, V>, after: map<string, V>, k: string): map<string, V> {
    if k in after then m[k := after[k]] else m - {k}
  }

  lemma WriteEntryLookup<V>(m: map<string, V>, after: map<string, V>, k: string, j: string)
    ensures Lookup(WriteEntry(m, after, k), j) == if j == k then Lookup(after, k) else Lookup(m, j)
  {
  }

  lemma SameLookups<V>(a: map<string, V>, b: map<string, V>)
    requires forall k :: Lookup(a, k) == Lookup(b, k)
    ensures a == b
  {
    forall k
      ensures k in a <==> k in b
      ensures k in a ==> a[k] == b[k]
    {
      assert Lookup(a, k) == Lookup(b, k);
    }
  }

  /** Writes some of the entries of after over before; all of them when ok. */
  method SaveMap<V>(before: map<string, V>, after: map<string, V>, reliable: bool)
    returns (m: map<string, V>, ok: bool)
    ensures forall k :: Lookup(m, k) == Lookup(before, k) || Lookup(m, k) == Lookup(after, k)
    ensures reliable ==> ok
    ensures ok ==> m == after
  {
    m, ok := before, true;
    var rest := before.Keys + after.Keys;
    while rest != {}
      invariant Mixed(before, after, m) && (reliable ==> ok)
      invariant ok ==> forall k :: k in rest || Lookup(m, k) == Lookup(after, k)
      decreases |rest|
    {
      var k :| k in rest;
      rest := rest - {k};
      var written := *;
      if written || reliable {
        forall j {
          WriteEntryLookup(m, after, k, j);
        }
        m := WriteEntry(m, after, k);
      } else {
        ok := false;
      }
    }
    if ok {
      SameLookups(m, after);
    }
  }
}
