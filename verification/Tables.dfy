// The transform tables of src/dutil_linux.c: which tables are in use, and the load settings they make.
module Tables {
  import opened Text

  datatype Pv = Pv(path: string, value: string)

  /** id stands for the address of the table. */
  datatype Table = Table(id: nat, pv: seq<Pv>)

  type Settings = map<string, string>

  function Apply(s: Settings, pv: seq<Pv>): Settings {
    if pv == [] then s
    else
      var last := pv[|pv| - 1];
      Apply(s, pv[..|pv| - 1])[last.path := last.value]
  }

  /** The load settings: the live tables, applied in slot order to an empty /augeas/load. */
  function LoadSettings(tables: seq<Option<Table>>): Settings {
    if tables == [] then map[]
    else
      var before := LoadSettings(tables[..|tables| - 1]);
      var last := tables[|tables| - 1];
      if last.Some? then Apply(before, last.value.pv) else before
  }

  // ---- what the load settings hold ----

  function PvAt(tables: seq<Option<Table>>, slot: nat): seq<Pv>
    requires slot < |tables|
  {
    if tables[slot].Some? then tables[slot].value.pv else []
  }

  predicate Sets(pv: seq<Pv>, path: string) {
    exists i | 0 <= i < |pv| :: pv[i].path == path
  }

  /** No entry after the i-th of the slot sets its path: neither in the slot nor in a later one. */
  predicate IsLast(tables: seq<Option<Table>>, slot: nat, i: nat)
    requires slot < |tables| && i < |PvAt(tables, slot)|
  {
    var pv := PvAt(tables, slot);
    !Sets(pv[i + 1..], pv[i].path) && forall k | slot < k < |tables| :: !Sets(PvAt(tables, k), pv[i].path)
  }

  /** The paths of all entries of the tables in use, each with the value of the last entry that sets it. */
  ghost predicate Holds(tables: seq<Option<Table>>, s: Settings) {
    (forall slot: nat, i: nat | slot < |tables| && i < |PvAt(tables, slot)| ::
      var pv := PvAt(tables, slot)[i];
      pv.path in s && (IsLast(tables, slot, i) ==> s[pv.path] == pv.value))
    && forall path | path in s :: exists slot: nat | slot < |tables| :: Sets(PvAt(tables, slot), path)
  }

  lemma {:induction false} ApplySets(s: Settings, pv: seq<Pv>, path: string)
    ensures Sets(pv, path) ==> path in Apply(s, pv)
    ensures !Sets(pv, path) ==> Lookup(Apply(s, pv), path) == Lookup(s, path)
  {
    if pv != [] {
      var front, last := pv[..|pv| - 1], pv[|pv| - 1];
      ApplySets(s, front, path);
      assert last.path == path ==> pv[|pv| - 1].path == path;
      assert forall i | 0 <= i < |front| :: front[i] == pv[i];
      if Sets(pv, path) && last.path != path {
        var i :| 0 <= i < |pv| && pv[i].path == path;
        assert front[i].path == path;
      }
    }
  }

  lemma {:induction false} ApplyLast(s: Settings, pv: seq<Pv>, i: nat)
    requires i < |pv| && !Sets(pv[i + 1..], pv[i].path)
    ensures Lookup(Apply(s, pv), pv[i].path) == Some(pv[i].value)
  {
    var front, last := pv[..|pv| - 1], pv[|pv| - 1];
    if i < |pv| - 1 {
      var rest := pv[i + 1..];
      assert rest[|rest| - 1] == last;
      assert forall k | 0 <= k < |front[i + 1..]| :: front[i + 1..][k] == rest[k];
      ApplyLast(s, front, i);
    }
  }

  lemma {:induction false} LoadSettingsHold(tables: seq<Option<Table>>)
    ensures Holds(tables, LoadSettings(tables))
  {
    var s := LoadSettings(tables);
    forall slot: nat, i: nat | slot < |tables| && i < |PvAt(tables, slot)|
      ensures PvAt(tables, slot)[i].path in s
      ensures IsLast(tables, slot, i) ==> s[PvAt(tables, slot)[i].path] == PvAt(tables, slot)[i].value
    {
      SettingsHold(tables, slot, i);
    }
    forall path | path in s
      ensures exists slot: nat | slot < |tables| :: Sets(PvAt(tables, slot), path)
    {
      var slot := SettingOf(tables, path);
    }
  }

  /** An entry of a table in use is there, with its value unless a later entry sets its path. */
  lemma HeldEntry(tables: seq<Option<Table>>, s: Settings, slot: nat, i: nat)
    requires Holds(tables, s) && slot < |tables| && tables[slot].Some? && i < |tables[slot].value.pv|
    ensures tables[slot].value.pv[i].path in s
    ensures (forall k: nat, j: nat | k < |tables| && tables[k].Some? && j < |tables[k].value.pv|
              && (k > slot || (k == slot && j > i)) :: tables[k].value.pv[j].path != tables[slot].value.pv[i].path) ==>
      s[tables[slot].value.pv[i].path] == tables[slot].value.pv[i].value
  {
    var pv := PvAt(tables, slot);
    if forall k: nat, j: nat | k < |tables| && tables[k].Some? && j < |tables[k].value.pv|
         && (k > slot || (k == slot && j > i)) :: tables[k].value.pv[j].path != pv[i].path
    {
      var rest := pv[i + 1..];
      assert forall j | 0 <= j < |rest| :: rest[j] == tables[slot].value.pv[i + 1 + j];
      assert IsLast(tables, slot, i);
    }
  }

  /** Every path that is set is that of an entry of a table in use. */
  lemma HeldPath(tables: seq<Option<Table>>, s: Settings, path: string) returns (slot: nat, i: nat)
    requires Holds(tables, s) && path in s
    ensures slot < |tables| && tables[slot].Some? && i < |tables[slot].value.pv|
    ensures tables[slot].value.pv[i].path == path
  {
    slot :| slot < |tables| && Sets(PvAt(tables, slot), path);
    i :| i < |PvAt(tables, slot)| && PvAt(tables, slot)[i].path == path;
  }

  lemma LoadSettingsNext(tables: seq<Option<Table>>)
    requires tables != []
    ensures LoadSettings(tables) == Apply(LoadSettings(tables[..|tables| - 1]), PvAt(tables, |tables| - 1))
  {
  }

  lemma {:induction false} SettingsHold(tables: seq<Option<Table>>, slot: nat, i: nat)
    requires slot < |tables| && i < |PvAt(tables, slot)|
    ensures PvAt(tables, slot)[i].path in LoadSettings(tables)
    ensures IsLast(tables, slot, i) ==>
      LoadSettings(tables)[PvAt(tables, slot)[i].path] == PvAt(tables, slot)[i].value
    decreases |tables|
  {
    var front, pv := tables[..|tables| - 1], PvAt(tables, |tables| - 1);
    var e := PvAt(tables, slot)[i];
    LoadSettingsNext(tables);
    ApplySets(LoadSettings(front), pv, e.path);
    if slot < |tables| - 1 {
      assert PvAt(front, slot) == PvAt(tables, slot);
      SettingsHold(front, slot, i);
      if IsLast(tables, slot, i) {
        assert forall k | slot < k < |front| :: PvAt(front, k) == PvAt(tables, k);
        assert IsLast(front, slot, i);
      }
    } else {
      assert Sets(pv, e.path);
      if IsLast(tables, slot, i) {
        ApplyLast(LoadSettings(front), pv, i);
      }
    }
  }

  lemma {:induction false} SettingOf(tables: seq<Option<Table>>, path: string) returns (slot: nat)
    requires path in LoadSettings(tables)
    ensures slot < |tables| && Sets(PvAt(tables, slot), path)
  {
    var front, pv := tables[..|tables| - 1], PvAt(tables, |tables| - 1);
    LoadSettingsNext(tables);
    ApplySets(LoadSettings(front), pv, path);
    if Sets(pv, path) {
      slot := |tables| - 1;
    } else {
      slot := SettingOf(front, path);
      assert PvAt(front, slot) == PvAt(tables, slot);
    }
  }

  // ---- the tables in use ----

  /** The tables in use, in slot order. */
  function Live(tables: seq<Option<Table>>): seq<Table> {
    if tables == [] then []
    else (if tables[0].Some? then [tables[0].value] else []) + Live(tables[1..])
  }

  lemma {:induction false} LiveConcat(a: seq<Option<Table>>, b: seq<Option<Table>>)
    ensures Live(a + b) == Live(a) + Live(b)
  {
    if a == [] {
      assert a + b == b;
    } else {
      assert (a + b)[0] == a[0] && (a + b)[1..] == a[1..] + b;
      LiveConcat(a[1..], b);
      Assoc(if a[0].Some? then [a[0].value] else [], Live(a[1..]), Live(b));
    }
  }

  lemma {:induction false} LiveHas(tables: seq<Option<Table>>, t: Table)
    ensures t in Live(tables) <==> Some(t) in tables
  {
    if tables != [] {
      LiveHas(tables[1..], t);
      assert tables == [tables[0]] + tables[1..];
    }
  }

  /** Empty slots do not matter: the settings are those of the live tables alone. */
  lemma {:induction false} LoadSettingsLive(tables: seq<Option<Table>>)
    ensures LoadSettings(tables) == LoadSettings(Slots(Live(tables)))
  {
    if tables != [] {
      var front, last := tables[..|tables| - 1], tables[|tables| - 1];
      assert tables == front + [last];
      LiveConcat(front, [last]);
      LoadSettingsLive(front);
      if last.Some? {
        assert Live([last]) == [last.value];
        SlotsAppend(Live(front), last.value);
        var s := Slots(Live(tables));
        assert s[..|s| - 1] == Slots(Live(front)) && s[|s| - 1] == last;
      } else {
        assert Live([last]) == [] && Live(front) + [] == Live(front);
      }
    }
  }

  function Slots(tables: seq<Table>): seq<Option<Table>> {
    seq(|tables|, i requires 0 <= i < |tables| => Some(tables[i]))
  }

  lemma SlotsAppend(tables: seq<Table>, t: Table)
    ensures Slots(tables + [t]) == Slots(tables) + [Some(t)]
  {
  }

  lemma LiveUpdate(tables: seq<Option<Table>>, slot: nat, t: Option<Table>)
    requires slot < |tables|
    ensures Live(tables[slot := t]) == Live(tables[..slot]) + Live([t]) + Live(tables[slot + 1..])
  {
    assert tables[slot := t] == tables[..slot] + [t] + tables[slot + 1..];
    LiveConcat(tables[..slot] + [t], tables[slot + 1..]);
    LiveConcat(tables[..slot], [t]);
  }

  function FirstFree(tables: seq<Option<Table>>): (slot: nat)
    ensures slot <= |tables| && forall k | 0 <= k < slot :: tables[k].Some?
    ensures slot < |tables| ==> tables[slot].None?
  {
    if tables == [] || tables[0].None? then 0 else 1 + FirstFree(tables[1..])
  }

  /** The table goes into the first free slot, or into a new one at the end. */
  function Place(tables: seq<Option<Table>>, xfm: Table): seq<Option<Table>> {
    var slot := FirstFree(tables);
    if slot < |tables| then tables[slot := Some(xfm)] else tables + [Some(xfm)]
  }

  /** The table takes the first free slot; when all are taken, a new one. */
  lemma PlaceFirst(tables: seq<Option<Table>>, xfm: Table)
    ensures (forall k | 0 <= k < |tables| :: tables[k].Some?) ==> Place(tables, xfm) == tables + [Some(xfm)]
    ensures forall slot: nat | slot < |tables| && tables[slot].None? && (forall k | 0 <= k < slot :: tables[k].Some?) ::
      Place(tables, xfm) == tables[slot := Some(xfm)]
  {
    forall slot: nat | slot < |tables| && tables[slot].None? && (forall k | 0 <= k < slot :: tables[k].Some?)
      ensures FirstFree(tables) == slot
    {
      assert forall k | 0 <= k < FirstFree(tables) :: tables[k].Some?;
    }
  }

  /** Adding a table loses none of those in use. */
  lemma PlaceKeepsLive(tables: seq<Option<Table>>, xfm: Table)
    ensures multiset(Live(Place(tables, xfm))) == multiset(Live(tables)) + multiset{xfm}
  {
    var slot := FirstFree(tables);
    LiveOne(xfm);
    if slot < |tables| {
      LiveUpdate(tables, slot, Some(xfm));
      LiveUpdate(tables, slot, None);
      assert tables[slot := None] == tables;
      MultisetMiddle(Live(tables[..slot]), xfm, Live(tables[slot + 1..]));
    } else {
      LiveConcat(tables, [Some(xfm)]);
      MultisetMiddle(Live(tables), xfm, []);
    }
  }

  lemma LiveOne(xfm: Table)
    ensures Live([Some(xfm)]) == [xfm] && Live([None]) == []
  {
  }

  lemma MultisetMiddle(a: seq<Table>, x: Table, b: seq<Table>)
    ensures multiset(a + [x] + b) == multiset(a + [] + b) + multiset{x}
    ensures a + [x] + [] == a + [x] && a + [] == a
  {
  }

  function FirstSlot(tables: seq<Option<Table>>, xfm: Table): (slot: nat)
    requires Some(xfm) in tables
    ensures slot < |tables| && tables[slot] == Some(xfm)
    ensures forall k | 0 <= k < slot :: tables[k] != Some(xfm)
  {
    if tables[0] == Some(xfm) then 0 else 1 + FirstSlot(tables[1..], xfm)
  }

  function Drop(tables: seq<Option<Table>>, xfm: Table): seq<Option<Table>>
    requires Some(xfm) in tables
  {
    tables[FirstSlot(tables, xfm) := None]
  }

  /** The first slot with the table is emptied. */
  lemma DropFirst(tables: seq<Option<Table>>, xfm: Table)
    requires Some(xfm) in tables
    ensures forall slot: nat | slot < |tables| && tables[slot] == Some(xfm) && Some(xfm) !in tables[..slot] ::
      Drop(tables, xfm) == tables[slot := None]
  {
    forall slot: nat | slot < |tables| && tables[slot] == Some(xfm) && Some(xfm) !in tables[..slot]
      ensures FirstSlot(tables, xfm) == slot
    {
      assert forall k | 0 <= k < FirstSlot(tables, xfm) :: tables[k] != Some(xfm);
    }
  }

  /** Removing a table takes away exactly one use of it. */
  lemma DropKeepsOthers(tables: seq<Option<Table>>, xfm: Table)
    requires Some(xfm) in tables
    ensures xfm in Live(tables) && multiset(Live(Drop(tables, xfm))) == multiset(Live(tables)) - multiset{xfm}
  {
    var slot := FirstSlot(tables, xfm);
    LiveUpdate(tables, slot, None);
    LiveUpdate(tables, slot, Some(xfm));
    assert tables[slot := Some(xfm)] == tables;
    assert Live([Some(xfm)]) == [xfm] && Live([None]) == [];
  }
}
