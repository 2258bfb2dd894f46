// Listing and lookup in src/drv_redhat.c: the dedupe loop, the search for the canonical file and the
// in-place filter, and what they amount to in a well-formed store.
module RedHatListing {
  import opened Text
  import opened RedHat
  import opened RedHatStore
  import opened RedHatStoreProofs
  import opened Names

  // ---- what the loops compute ----

  /** A tree with MASTER or BRIDGE is not a top-level interface. */
  predicate IsSlave(n: Nodes) {
    n.MASTER.Some? || n.BRIDGE.Some?
  }

  function Unslaved(s: Store, paths: seq<string>): seq<string> {
    if paths == [] then []
    else (if paths[0] in s && IsSlave(s[paths[0]]) then [] else [paths[0]]) + Unslaved(s, paths[1..])
  }

  ghost function Paths(c: Files, names: seq<string>): seq<string> {
    if names == [] then []
    else (if FindPath(c, names[0]).Some? then [FindPath(c, names[0]).value] else []) + Paths(c, names[1..])
  }

  /** The DEVICE entries of the files, file by file. */
  function Ids(s: Store, paths: seq<string>): seq<string> {
    if paths == [] then []
    else (if paths[0] in s && s[paths[0]].DEVICE.Some? then [s[paths[0]].DEVICE.value] else []) + Ids(s, paths[1..])
  }

  /** The files list_interfaces returns. */
  ghost function TopPaths(c: Files): seq<string> {
    Unslaved(c.ifcfg, Paths(c, Sorted(DevicesOf(c.ifcfg))))
  }

  /** The names drv_list_interfaces returns when all are asked for. */
  ghost function Listing(c: Files): seq<string> {
    Ids(c.ifcfg, TopPaths(c))
  }

  /** drv_lookup_by_name finds the interface. */
  ghost predicate Found(c: Files, name: string) {
    var p := FindPath(c, name);
    p.Some? && !IsSlave(c.ifcfg[p.value])
  }

  datatype Flags = Flags(active: bool, inactive: bool)

  predicate Qualified(name: string, up: set<string>, flags: Flags) {
    (flags.active && flags.inactive) || (name in up && flags.active) || (name !in up && flags.inactive)
  }

  /** The names of interfaces in the wanted state; up holds the interfaces that are active. */
  function Qualifying(names: seq<string>, up: set<string>, flags: Flags): seq<string> {
    if names == [] then []
    else (if Qualified(names[0], up, flags) then [names[0]] else []) + Qualifying(names[1..], up, flags)
  }

  // ---- well-formed stores ----

  /** The top-level interfaces. */
  function TopLevel(s: Store): set<string> {
    set p | p in s && !IsSlave(s[p])
  }

  /** A HWADDR entry equal to the address of a device is in the file of that device. */
  predicate MacsOwn(c: Files) {
    forall n | n in c.macs :: forall p | p in FilesWithMac(c.ifcfg, c.macs[n]) :: p == n
  }

  lemma {:induction false} PathsNamed(c: Files, names: seq<string>)
    requires forall n | n in names :: n in c.ifcfg
    ensures Paths(c, names) == names
  {
    if names != [] {
      assert names[0] in names;
      PathsNamed(c, names[1..]);
    }
  }

  lemma {:induction false} IdsNamed(s: Store, paths: seq<string>)
    requires NamedFiles(s) && forall p | p in paths :: p in s
    ensures Ids(s, paths) == paths
  {
    if paths != [] {
      assert paths[0] in paths;
      IdsNamed(s, paths[1..]);
    }
  }

  lemma {:induction false} UnslavedSorted(s: Store, paths: seq<string>)
    requires StrictlySorted(paths) && forall p | p in paths :: p in s
    ensures StrictlySorted(Unslaved(s, paths))
    ensures forall p :: p in Unslaved(s, paths) <==> p in paths && !IsSlave(s[p])
  {
    if paths != [] {
      assert paths[0] in paths;
      assert forall p | p in paths[1..] :: p in paths;
      UnslavedSorted(s, paths[1..]);
      var r := Unslaved(s, paths[1..]);
      forall j | 0 <= j < |r|
        ensures Less(paths[0], r[j])
      {
        assert r[j] in r;
        var k :| 0 <= k < |paths[1..]| && paths[1..][k] == r[j];
        assert paths[k + 1] == r[j];
      }
    }
  }

  /** In a store of named files the listing is the sorted list of the top-level interfaces. */
  lemma ListingTopLevel(c: Files)
    requires NamedFiles(c.ifcfg)
    ensures Listing(c) == Sorted(TopLevel(c.ifcfg))
  {
    var names := Sorted(DevicesOf(c.ifcfg));
    assert DevicesOf(c.ifcfg) == c.ifcfg.Keys by {
      forall p | p in c.ifcfg
        ensures p in DevicesOf(c.ifcfg)
      {
        assert c.ifcfg[p].DEVICE.value == p;
      }
    }
    forall n | n in names
      ensures n in c.ifcfg
    {
      assert n in ToSet(names);
    }
    PathsNamed(c, names);
    UnslavedSorted(c.ifcfg, names);
    IdsNamed(c.ifcfg, Unslaved(c.ifcfg, names));
    assert ToSet(Listing(c)) == TopLevel(c.ifcfg) by {
      forall p
        ensures p in names <==> p in c.ifcfg
      {
        assert p in names <==> p in ToSet(names);
      }
    }
    SortedUnique(Listing(c), Sorted(TopLevel(c.ifcfg)));
  }

  /** The name has no file, but its MAC is the HWADDR of a top-level tree. */
  ghost predicate StrayMac(c: Files, name: string) {
    name !in c.ifcfg && name in c.macs &&
    var files := FilesWithMac(c.ifcfg, c.macs[name]);
    files != {} && !IsSlave(c.ifcfg[Last(files, "/HWADDR")])
  }

  /** Lookup by name succeeds on the listed names and, beside them, only through a stray MAC. */
  lemma FoundExactly(c: Files, name: string)
    requires NamedFiles(c.ifcfg)
    ensures Found(c, name) <==> name in Listing(c) || StrayMac(c, name)
  {
    ListingTopLevel(c);
    assert name in Listing(c) <==> name in ToSet(Sorted(TopLevel(c.ifcfg)));
    if name !in c.ifcfg {
      assert FilesWithDevice(c.ifcfg, name) == {};
    }
  }

  /** Where HWADDR entries belong to their own devices, lookup succeeds exactly on the listed names. */
  lemma FoundListed(c: Files, name: string)
    requires NamedFiles(c.ifcfg) && MacsOwn(c)
    ensures Found(c, name) <==> name in Listing(c)
  {
    FoundExactly(c, name);
  }

  /** Active and inactive interfaces make up the listing. */
  lemma {:induction false} ActiveInactive(names: seq<string>, up: set<string>)
    ensures |Qualifying(names, up, Flags(true, false))| + |Qualifying(names, up, Flags(false, true))|
         == |Qualifying(names, up, Flags(true, true))|
    ensures Qualifying(names, up, Flags(true, true)) == names
    ensures Qualifying(names, up, Flags(false, false)) == []
  {
    if names != [] {
      ActiveInactive(names[1..], up);
    }
  }

  // ---- the loops ----

  /** An Augeas match: every element once, in some order. */
  method Match(names: set<string>) returns (r: seq<string>)
    ensures forall x :: x in r <==> x in names
    ensures |r| == |names|
  {
    r := [];
    var rest := names;
    while rest != {}
      invariant rest <= names
      invariant forall x :: x in r <==> x in names - rest
      invariant |r| + |rest| == |names|
      decreases |rest|
    {
      var x :| x in rest;
      r := r + [x];
      rest := rest - {x};
    }
  }

  function Same(s: string): string {
    s
  }

  /** qsort of the first n elements. */
  method QSort(a: array<string>, n: nat)
    requires n <= a.Length
    modifies a
    ensures a[..n] == SortBy(Same, old(a[..n]))
  {
    var sorted := SortBy(Same, a[..n]);
    SortByLength(Same, a[..n]);
    forall i | 0 <= i < n {
      a[i] := sorted[i];
    }
  }

  lemma SortByLength<T>(key: T -> string, s: seq<T>)
    ensures |SortBy(key, s)| == |s|
  {
    SortByMultiset(key, s);
    assert |multiset(SortBy(key, s))| == |multiset(s)|;
  }

  predicate NoRepeats(s: seq<string>) {
    forall i, j | 0 <= i < j < |s| :: s[i] != s[j]
  }

  lemma SortedNames(names: seq<string>)
    requires NoRepeats(names)
    ensures SortBy(Same, names) == Sorted(ToSet(names))
  {
    SortByResult(Same, names);
    var r := SortBy(Same, names);
    assert StrictlySorted(r) by {
      assert forall i, j | 0 <= i < j < |r| :: Less(Same(r[i]), Same(r[j])) ==> Less(r[i], r[j]);
    }
    SortedUnique(r, Sorted(ToSet(names)));
  }

  /** The first half of uniq_ifcfg_paths: the distinct names among devs, sorted. */
  method UniqNames(devs: seq<string>) returns (devnames: array<string>, n: nat)
    ensures fresh(devnames) && n <= devnames.Length == |devs|
    ensures devnames[..n] == Sorted(ToSet(devs))
  {
    devnames := new string[|devs|](_ => "");
    n := 0;
    for i := 0 to |devs|
      invariant n <= i && fresh(devnames)
      invariant NoRepeats(devnames[..n])
      invariant forall x :: x in devnames[..n] <==> x in devs[..i]
    {
      var name := devs[i];
      var exists' := Occurs(name, devnames, n);
      ghost var before := devnames[..n];
      if !exists' {
        devnames[n] := name;
        n := n + 1;
        assert devnames[..n] == before + [name];
      }
      assert devs[..i + 1] == devs[..i] + [name];
    }
    assert devs[..|devs|] == devs;
    ghost var names := devnames[..n];
    assert ToSet(names) == ToSet(devs);
    SortedNames(names);
    QSort(devnames, n);
  }

  method Occurs(name: string, devnames: array<string>, n: nat) returns (found: bool)
    requires n <= devnames.Length
    ensures found <==> name in devnames[..n]
  {
    found := false;
    for j := 0 to n
      invariant name !in devnames[..j]
    {
      if name == devnames[j] {
        return true;
      }
    }
  }

  function HwaddrKey(p: string): string {
    p + "/HWADDR"
  }

  lemma LastUnique(names: set<string>, suffix: string, x: string)
    requires x in names && forall y | y in names :: Leq(y + suffix, x + suffix)
    ensures Last(names, suffix) == x
  {
    var z := Last(names, suffix);
    LeqAntisymmetric(z + suffix, x + suffix);
    assert |z + suffix| == |x + suffix|;
    assert z == (z + suffix)[..|z|] && x == (x + suffix)[..|x|];
  }

  /** find_ifcfg_path_by_hwaddr: of the files with this HWADDR, the last by path. */
  method FindByHwaddr(s: Store, mac: string) returns (path: Option<string>)
    ensures path == if FilesWithMac(s, mac) == {} then None else Some(Last(FilesWithMac(s, mac), "/HWADDR"))
  {
    var matches := Match(set p | p in s && s[p].HWADDR.Some?);
    var hwaddr := SortBy(HwaddrKey, matches);
    SortBySorted(HwaddrKey, matches);
    path := None;
    for i := 0 to |hwaddr|
      invariant path.None? ==> forall k | 0 <= k < i :: hwaddr[k] !in FilesWithMac(s, mac)
      invariant path.Some? ==> path.value in FilesWithMac(s, mac)
      invariant path.Some? ==> forall k | 0 <= k < i && hwaddr[k] in FilesWithMac(s, mac) ::
        Leq(HwaddrKey(hwaddr[k]), HwaddrKey(path.value))
    {
      assert hwaddr[i] in hwaddr;
      if SameIgnoringCase(s[hwaddr[i]].HWADDR.value, mac) {
        forall k | 0 <= k <= i
          ensures Leq(HwaddrKey(hwaddr[k]), HwaddrKey(hwaddr[i]))
        {
          LeqReflexive(HwaddrKey(hwaddr[i]));
        }
        path := Some(hwaddr[i]);
      }
    }
    forall p | p in FilesWithMac(s, mac)
      ensures exists k :: 0 <= k < |hwaddr| && hwaddr[k] == p
    {
      assert p in hwaddr;
    }
    if path.Some? {
      LastUnique(FilesWithMac(s, mac), "/HWADDR", path.value);
    }
  }

  /** find_ifcfg_path_by_device: of the files with this DEVICE, the last by path. */
  method FindByDevice(s: Store, name: string) returns (path: Option<string>)
    ensures path == if FilesWithDevice(s, name) == {} then None else Some(Last(FilesWithDevice(s, name), ""))
  {
    var devs := Match(FilesWithDevice(s, name));
    if |devs| == 0 {
      return None;
    }
    var sorted := SortBy(Same, devs);
    SortBySorted(Same, devs);
    SortByLength(Same, devs);
    var last := sorted[|sorted| - 1];
    assert last in sorted;
    forall y | y in FilesWithDevice(s, name)
      ensures Leq(y + "", last + "")
    {
      assert y in sorted;
      var k :| 0 <= k < |sorted| && sorted[k] == y;
      assert Leq(Same(sorted[k]), Same(last)) by {
        LeqReflexive(last);
      }
      assert y + "" == y && last + "" == last;
    }
    LastUnique(FilesWithDevice(s, name), "", last);
    path := Some(last);
  }

  method FindIfcfgPath(c: Files, name: string) returns (path: Option<string>)
    ensures path == FindPath(c, name)
  {
    if name in c.ifcfg {
      return Some(name);
    }
    if name in c.macs {
      path := FindByHwaddr(c.ifcfg, c.macs[name]);
      if path.Some? {
        return;
      }
    }
    path := FindByDevice(c.ifcfg, name);
  }

  lemma {:induction false} PathsAppend(c: Files, names: seq<string>, n: string)
    ensures Paths(c, names + [n])
         == Paths(c, names) + if FindPath(c, n).Some? then [FindPath(c, n).value] else []
  {
    if names == [] {
      assert names + [n] == [n];
    } else {
      assert (names + [n])[1..] == names[1..] + [n];
      PathsAppend(c, names[1..], n);
    }
  }

  lemma {:induction false} PathsInStore(c: Files, names: seq<string>)
    ensures forall p | p in Paths(c, names) :: p in c.ifcfg
    ensures |Paths(c, names)| <= |names|
  {
    if names != [] {
      PathsInStore(c, names[1..]);
    }
  }

  lemma FindDevice(c: Files, n: string)
    requires n in DevicesOf(c.ifcfg)
    ensures FindPath(c, n).Some?
  {
    var p :| p in c.ifcfg && c.ifcfg[p].DEVICE == Some(n);
    assert p in FilesWithDevice(c.ifcfg, n);
  }

  /** The second half of uniq_ifcfg_paths: the canonical file of each name. */
  method CanonicalPaths(c: Files, names: seq<string>) returns (intf: array<string>)
    requires forall n | n in names :: n in DevicesOf(c.ifcfg)
    ensures fresh(intf) && intf.Length == |names|
    ensures intf[..] == Paths(c, names)
  {
    intf := new string[|names|](_ => "");
    for i := 0 to |names|
      invariant intf[..i] == Paths(c, names[..i])
    {
      ghost var done := intf[..i];
      assert names[i] in names;
      FindDevice(c, names[i]);
      var path := FindIfcfgPath(c, names[i]);
      intf[i] := path.value;
      PathsAppend(c, names[..i], names[i]);
      assert names[..i + 1] == names[..i] + [names[i]];
      assert intf[..i + 1] == done + [path.value];
    }
    assert names[..|names|] == names && intf[..|names|] == intf[..];
  }

  /** uniq_ifcfg_paths: the canonical file of each distinct device, by sorted device name. */
  method UniqIfcfgPaths(c: Files, devs: seq<string>) returns (intf: array<string>)
    requires forall d | d in devs :: d in DevicesOf(c.ifcfg)
    ensures fresh(intf)
    ensures intf[..] == Paths(c, Sorted(ToSet(devs)))
  {
    var devnames, n := UniqNames(devs);
    var names := devnames[..n];
    forall d | d in names
      ensures d in DevicesOf(c.ifcfg)
    {
      assert d in ToSet(names);
    }
    intf := CanonicalPaths(c, names);
  }

  /** memmove(intf + i, intf + i + 1, nint - (i + 1)). */
  method MoveDown(intf: array<string>, i: nat, nint: nat)
    requires i < nint <= intf.Length
    modifies intf
    ensures intf[..][..i] == old(intf[..])[..i]
    ensures forall j | i <= j < nint - 1 :: intf[..][j] == old(intf[..])[j + 1]
  {
    forall j | i <= j < nint - 1 {
      intf[j] := intf[j + 1];
    }
  }

  lemma UnslavedStep(s: Store, done: seq<string>, rest: seq<string>)
    requires rest != []
    ensures done + Unslaved(s, rest)
         == (if rest[0] in s && IsSlave(s[rest[0]]) then done else done + [rest[0]]) + Unslaved(s, rest[1..])
  {
    var u := Unslaved(s, rest[1..]);
    NoneBeside(u);
    Assoc(done, [rest[0]], u);
  }

  /** The array starts with the names kept, then those still to be looked at. */
  ghost predicate Laid(a: seq<string>, kept: seq<string>, rest: seq<string>) {
    |kept| + |rest| <= |a| && a[..|kept|] == kept && a[|kept|..|kept| + |rest|] == rest
  }

  lemma LaidKeep(a: seq<string>, kept: seq<string>, rest: seq<string>)
    requires Laid(a, kept, rest) && rest != []
    ensures a[|kept|] == rest[0]
    ensures Laid(a, kept + [rest[0]], rest[1..])
  {
    assert a[|kept|..|kept| + |rest|][0] == rest[0];
    assert a[..|kept| + 1] == a[..|kept|] + [a[|kept|]];
    assert a[|kept| + 1..|kept| + |rest|] == a[|kept|..|kept| + |rest|][1..];
  }

  lemma LaidMove(a: seq<string>, now: seq<string>, kept: seq<string>, rest: seq<string>, nint: nat)
    requires Laid(a, kept, rest) && rest != [] && |kept| + |rest| <= nint <= |a| == |now|
    requires now[..|kept|] == a[..|kept|] && forall j | |kept| <= j < nint - 1 :: now[j] == a[j + 1]
    ensures Laid(now, kept, rest[1..])
  {
    var from, to := |kept|, |kept| + |rest| - 1;
    assert forall j | from <= j < to :: now[j] == a[from..to + 1][j - from + 1];
    assert now[from..to] == rest[1..];
  }

  /** The loop of list_interfaces: slaves are squeezed out of the array in place. */
  method RemoveSlaves(s: Store, intf: array<string>, nint: nat) returns (result: nat)
    requires nint <= intf.Length && forall i | 0 <= i < nint :: intf[i] in s
    modifies intf
    ensures result <= nint
    ensures intf[..result] == Unslaved(s, old(intf[..nint]))
  {
    ghost var was := intf[..nint];
    ghost var kept: seq<string>, rest := [], was;
    result := nint;
    var i := 0;
    while i < result
      invariant i == |kept| <= result == |kept| + |rest| <= nint
      invariant Laid(intf[..], kept, rest)
      invariant kept + Unslaved(s, rest) == Unslaved(s, was)
      invariant forall x | x in rest :: x in s
      decreases result - i
    {
      UnslavedStep(s, kept, rest);
      LaidKeep(intf[..], kept, rest);
      if IsSlave(s[intf[i]]) {
        ghost var before := intf[..];
        MoveDown(intf, i, nint);
        LaidMove(before, intf[..], kept, rest, nint);
        result := result - 1;
      } else {
        kept := kept + [rest[0]];
        i := i + 1;
      }
      rest := rest[1..];
    }
  }

  /** A match on .../DEVICE: the device of each of the files, in some order, repeats included. */
  method MatchDevices(s: Store, files: set<string>) returns (devs: seq<string>)
    requires forall p | p in files :: p in s && s[p].DEVICE.Some?
    ensures ToSet(devs) == set p | p in files :: s[p].DEVICE.value
  {
    var matches := Match(files);
    devs := [];
    for i := 0 to |matches|
      invariant forall x :: x in devs <==> exists k | 0 <= k < i :: s[matches[k]].DEVICE.value == x
    {
      assert matches[i] in matches;
      devs := devs + [s[matches[i]].DEVICE.value];
    }
    forall x
      ensures x in devs <==> exists p | p in files :: s[p].DEVICE.value == x
    {
      if p :| p in files && s[p].DEVICE.value == x {
        assert p in matches;
      }
      if k :| 0 <= k < |matches| && s[matches[k]].DEVICE.value == x {
        assert matches[k] in matches;
      }
    }
  }

  /** list_interfaces. */
  method ListInterfaces(c: Files) returns (intf: array<string>, n: nat)
    ensures n <= intf.Length
    ensures intf[..n] == TopPaths(c)
  {
    var devs := MatchDevices(c.ifcfg, set p | p in c.ifcfg && c.ifcfg[p].DEVICE.Some?);
    assert ToSet(devs) == DevicesOf(c.ifcfg);
    assert forall d | d in devs :: d in ToSet(devs);
    intf := UniqIfcfgPaths(c, devs);
    PathsInStore(c, Sorted(DevicesOf(c.ifcfg)));
    assert intf[..intf.Length] == intf[..];
    forall i | 0 <= i < intf.Length
      ensures intf[i] in c.ifcfg
    {
      assert intf[i] in intf[..];
    }
    n := RemoveSlaves(c.ifcfg, intf, intf.Length);
  }

  lemma {:induction false} QualifyingConcat(a: seq<string>, b: seq<string>, up: set<string>, flags: Flags)
    ensures Qualifying(a + b, up, flags) == Qualifying(a, up, flags) + Qualifying(b, up, flags)
  {
    if a == [] {
      assert a + b == b;
    } else {
      assert (a + b)[1..] == a[1..] + b;
      QualifyingConcat(a[1..], b, up, flags);
    }
  }

  lemma {:induction false} IdsConcat(s: Store, a: seq<string>, b: seq<string>)
    ensures Ids(s, a + b) == Ids(s, a) + Ids(s, b)
  {
    if a == [] {
      assert a + b == b;
    } else {
      assert (a + b)[1..] == a[1..] + b;
      IdsConcat(s, a[1..], b);
    }
  }

  function Picked(s: Store, paths: seq<string>, up: set<string>, flags: Flags): seq<string> {
    Qualifying(Ids(s, paths), up, flags)
  }

  lemma PickedConcat(s: Store, a: seq<string>, b: seq<string>, up: set<string>, flags: Flags)
    ensures Picked(s, a + b, up, flags) == Picked(s, a, up, flags) + Picked(s, b, up, flags)
  {
    IdsConcat(s, a, b);
    QualifyingConcat(Ids(s, a), Ids(s, b), up, flags);
  }

  lemma PickedOne(s: Store, path: string, up: set<string>, flags: Flags)
    ensures Picked(s, [path], up, flags)
         == if path in s && s[path].DEVICE.Some? && Qualified(s[path].DEVICE.value, up, flags)
            then [s[path].DEVICE.value] else []
  {
    var ids := if path in s && s[path].DEVICE.Some? then [s[path].DEVICE.value] else [];
    assert [path][1..] == [] && Ids(s, []) == [];
    assert Ids(s, [path]) == ids;
    if ids != [] {
      assert ids[1..] == [] && Qualifying([], up, flags) == [];
      assert Qualifying(ids, up, flags) == if Qualified(ids[0], up, flags) then [ids[0]] else [];
    }
  }

  lemma PickedNext(s: Store, paths: seq<string>, i: nat, up: set<string>, flags: Flags)
    requires i < |paths|
    ensures Picked(s, paths[..i + 1], up, flags) == Picked(s, paths[..i], up, flags) + Picked(s, [paths[i]], up, flags)
  {
    assert paths[..i + 1] == paths[..i] + [paths[i]];
    PickedConcat(s, paths[..i], [paths[i]], up, flags);
  }

  lemma PickedPrefix(s: Store, paths: seq<string>, i: nat, up: set<string>, flags: Flags)
    requires i <= |paths|
    ensures Picked(s, paths[..i], up, flags) <= Picked(s, paths, up, flags)
    ensures i == |paths| ==> Picked(s, paths[..i], up, flags) == Picked(s, paths, up, flags)
  {
    assert paths == paths[..i] + paths[i..];
    PickedConcat(s, paths[..i], paths[i..], up, flags);
    assert i == |paths| ==> paths[..i] == paths;
  }

  method PutName(names: array?<string>, n: nat, name: string)
    requires names != null ==> n < names.Length
    modifies names
    ensures names != null ==> names[..n + 1] == old(names[..n]) + [name]
  {
    if names != null {
      names[n] := name;
    }
  }

  method QualifiedName(s: Store, path: string, up: set<string>, flags: Flags) returns (name: Option<string>)
    ensures Picked(s, [path], up, flags) == if name.Some? then [name.value] else []
  {
    PickedOne(s, path, up, flags);
    if path in s && s[path].DEVICE.Some? && Qualified(s[path].DEVICE.value, up, flags) {
      name := s[path].DEVICE;
    } else {
      name := None;
    }
  }

  /**
   * list_interface_ids: fills names with the first maxnames qualifying interfaces, or, without names,
   * counts them all. up tells which interfaces are active.
   */
  method ListInterfaceIds(c: Files, names: array?<string>, maxnames: nat, up: set<string>, flags: Flags)
    returns (nqualified: nat)
    requires names != null ==> maxnames <= names.Length
    modifies names
    ensures names == null ==> nqualified == |Qualifying(Listing(c), up, flags)|
    ensures names != null ==> nqualified <= maxnames && names[..nqualified] <= Qualifying(Listing(c), up, flags)
    ensures names != null ==> nqualified == maxnames || names[..nqualified] == Qualifying(Listing(c), up, flags)
  {
    var intf, nint := ListInterfaces(c);
    var paths := intf[..nint];
    var limit := if names == null then nint else maxnames;
    nqualified := 0;
    var result := 0;
    while result < nint && nqualified < limit
      invariant 0 <= result <= nint && nqualified <= result && nqualified <= limit
      invariant |Picked(c.ifcfg, paths[..result], up, flags)| == nqualified
      invariant names != null ==> names[..nqualified] == Picked(c.ifcfg, paths[..result], up, flags)
    {
      PickedNext(c.ifcfg, paths, result, up, flags);
      var name := QualifiedName(c.ifcfg, paths[result], up, flags);
      if name.Some? {
        PutName(names, nqualified, name.value);
        nqualified := nqualified + 1;
      }
      result := result + 1;
    }
    PickedPrefix(c.ifcfg, paths, result, up, flags);
    assert Picked(c.ifcfg, paths, up, flags) == Qualifying(Listing(c), up, flags);
  }

  /** drv_lookup_by_name. */
  method LookupByName(c: Files, name: string) returns (found: bool)
    ensures found <==> Found(c, name)
  {
    var path := FindIfcfgPath(c, name);
    found := path.Some? && !IsSlave(c.ifcfg[path.value]);
  }
}
