// Snapshot, commit and rollback of the network configuration: src/netcf-transaction.init.sh as a
// state machine over directories, in which every cp, rm and mkdir may fail.
module Transaction {
  import opened Text

  /** A directory of regular files, by file name. */
  type Dir = map<string, string>

  const EINVALID_IN_THIS_STATE := 199
  const KEEP := 20

  /** The globs ifcfg-*, route-* and rule-*. */
  predicate IsManaged(f: string) {
    "ifcfg-" <= f || "route-" <= f || "rule-" <= f
  }

  function Managed(d: Dir): Dir {
    map f | f in d && IsManaged(f) :: d[f]
  }

  function Unmanaged(d: Dir): Dir {
    map f | f in d && !IsManaged(f) :: d[f]
  }

  function Get(d: Dir, f: string): Option<string> {
    if f in d then Some(d[f]) else None
  }

  lemma SameManaged(a: Dir, b: Dir)
    requires Managed(a) == Managed(b)
    ensures forall x: string :: Get(a, "ifcfg-" + x) == Get(b, "ifcfg-" + x)
    ensures forall x: string :: Get(a, "route-" + x) == Get(b, "route-" + x)
    ensures forall x: string :: Get(a, "rule-" + x) == Get(b, "rule-" + x)
  {
    forall f | IsManaged(f)
      ensures Get(a, f) == Get(b, f)
    {
      assert Get(Managed(a), f) == Get(Managed(b), f);
    }
  }

  lemma SameOthers(a: Dir, b: Dir)
    requires Unmanaged(a) == Unmanaged(b)
    ensures forall f | !("ifcfg-" <= f || "route-" <= f || "rule-" <= f) :: Get(a, f) == Get(b, f)
  {
    forall f | !IsManaged(f)
      ensures Get(a, f) == Get(b, f)
    {
      assert Get(Unmanaged(a), f) == Get(Unmanaged(b), f);
    }
  }

  /** d and e differ at f at most. */
  ghost predicate SameBut(d: Dir, e: Dir, f: string) {
    forall g | g != f :: Get(d, g) == Get(e, g)
  }

  /** The target after the managed files of the source are copied over it. */
  function Overlay(source: Dir, target: Dir): Dir {
    target + Managed(source)
  }

  lemma SameFiles(d: Dir, e: Dir)
    requires forall f :: Get(d, f) == Get(e, f)
    ensures d == e
  {
    forall f
      ensures f in d <==> f in e
      ensures f in d ==> d[f] == e[f]
    {
      assert Get(d, f) == Get(e, f);
    }
  }

  /** Part of a directory that an unsuccessful rm -rf leaves. */
  ghost predicate Leftover(d: Dir, e: Dir) {
    forall f :: Get(d, f) == None || Get(d, f) == Get(e, f)
  }

  /** The file is in conf as it was taken, or still in the snapshot. */
  predicate Safe(taken: Dir, conf: Dir, snapshot: Option<Dir>, f: string) {
    Get(conf, f) == Get(taken, f) || (snapshot.Some? && Get(snapshot.value, f) == Get(taken, f))
  }

  /** No managed file of the snapshot taken is lost. */
  ghost predicate Kept(taken: Dir, conf: Dir, snapshot: Option<Dir>) {
    forall f | f in taken && IsManaged(f) :: Safe(taken, conf, snapshot, f)
  }

  lemma KeptStep(taken: Dir, conf: Dir, snapshot: Dir, conf': Dir, snapshot': Dir, f: string)
    requires Kept(taken, conf, Some(snapshot)) && SameBut(conf', conf, f) && SameBut(snapshot', snapshot, f)
    requires f in taken ==> Safe(taken, conf', Some(snapshot'), f)
    ensures Kept(taken, conf', Some(snapshot'))
  {
    forall g | g in taken && IsManaged(g)
      ensures Safe(taken, conf', Some(snapshot'), g)
    {
      assert Safe(taken, conf, Some(snapshot), g);
    }
  }

  /** How far the loop over the current files has come: done holds the files dealt with. */
  ghost predicate Restored(taken: Dir, orig: Dir, conf: Dir, snapshot: Dir, done: set<string>, warned: bool) {
    (forall g | g !in done :: Get(conf, g) == Get(orig, g) && Get(snapshot, g) == Get(taken, g))
    && (forall g | g in done && g in taken :: Get(conf, g) == Get(taken, g))
    && (!warned ==> forall g | g in done && g !in taken :: g !in conf)
  }

  lemma RestoredStep(taken: Dir, orig: Dir, conf: Dir, snapshot: Dir, conf': Dir, snapshot': Dir, done: set<string>,
                     warned: bool, warns: bool, f: string)
    requires Restored(taken, orig, conf, snapshot, done, warned)
    requires SameBut(conf', conf, f) && SameBut(snapshot', snapshot, f)
    requires f in taken ==> Get(conf', f) == Get(taken, f)
    requires f !in taken ==> warns || f !in conf'
    ensures Restored(taken, orig, conf', snapshot', done + {f}, warned || warns)
  {
    forall g | g !in done + {f}
      ensures Get(conf', g) == Get(orig, g) && Get(snapshot', g) == Get(taken, g)
    {
      assert Get(conf', g) == Get(conf, g);
    }
    forall g | g in done + {f} && g in taken
      ensures Get(conf', g) == Get(taken, g)
    {
      assert g != f ==> Get(conf', g) == Get(conf, g);
    }
    if !warned && !warns {
      forall g | g in done + {f} && g !in taken
        ensures g !in conf'
      {
        assert g != f ==> Get(conf', g) == Get(conf, g);
      }
    }
  }

  /** dir with the first files of the source copied over it. */
  ghost predicate Overlaid(source: Dir, dir: Dir, after: Dir, files: seq<string>) {
    forall f :: Get(after, f) == if f in files && f in source then Some(source[f]) else Get(dir, f)
  }

  lemma OverlaidNext(source: Dir, dir: Dir, before: Dir, after: Dir, files: seq<string>, i: nat)
    requires i < |files| && files[i] in source && Overlaid(source, dir, before, files[..i])
    requires after == before[files[i] := source[files[i]]]
    ensures Overlaid(source, dir, after, files[..i + 1])
  {
    assert files[..i + 1] == files[..i] + [files[i]];
    forall f
      ensures Get(after, f) == if f in files[..i + 1] && f in source then Some(source[f]) else Get(dir, f)
    {
      assert Get(before, f) == if f in files[..i] && f in source then Some(source[f]) else Get(dir, f);
    }
  }

  lemma OverlaidAll(source: Dir, dir: Dir, after: Dir, files: seq<string>)
    requires Overlaid(source, dir, after, files) && forall f :: f in files <==> f in source && IsManaged(f)
    ensures after == Overlay(source, dir)
  {
    forall f
      ensures Get(after, f) == Get(Overlay(source, dir), f)
    {
      assert Get(after, f) == if f in files && f in source then Some(source[f]) else Get(dir, f);
    }
    SameFiles(after, Overlay(source, dir));
  }

  /** How far the loop over the files left in the snapshot has come. */
  ghost predicate Copied(source: Dir, orig: Dir, conf: Dir, done: set<string>) {
    forall g :: Get(conf, g) == if g in done then Get(source, g) else Get(orig, g)
  }

  lemma SameUnmanaged(before: Dir, after: Dir, files: set<string>)
    requires forall f | f in files :: IsManaged(f)
    requires forall g | g !in files :: Get(after, g) == Get(before, g)
    ensures Unmanaged(after) == Unmanaged(before)
  {
    forall f
      ensures Get(Unmanaged(after), f) == Get(Unmanaged(before), f)
    {
      assert !IsManaged(f) ==> Get(after, f) == Get(before, f);
    }
    SameFiles(Unmanaged(after), Unmanaged(before));
  }

  // ---- what happens during a rollback ----

  /** The directories after a file operation. */
  datatype Moment = Moment(conf: Dir, snapshot: Option<Dir>, archives: map<nat, Dir>)

  ghost predicate OneFile(d: Dir, e: Dir) {
    exists f :: SameBut(d, e, f)
  }

  function ArchiveAt(archives: map<nat, Dir>, t: nat): Option<Dir> {
    if t in archives then Some(archives[t]) else None
  }

  /** mkdir -p, cp of one file into, or rm -rf of, the archive t. */
  ghost predicate ArchiveOp(before: map<nat, Dir>, after: map<nat, Dir>, t: nat) {
    (forall u | u != t :: ArchiveAt(after, u) == ArchiveAt(before, u))
    && (t in after ==>
      var dir := if t in before then before[t] else map[];
      Leftover(after[t], dir) || OneFile(after[t], dir))
  }

  /** One operation: on a file of the configuration, on the snapshot, or on an archive. */
  ghost predicate Step(a: Moment, b: Moment) {
    (b.snapshot == a.snapshot && b.archives == a.archives && OneFile(b.conf, a.conf))
    || (b.conf == a.conf && b.archives == a.archives && a.snapshot.Some?
        && (b.snapshot.Some? ==>
          OneFile(b.snapshot.value, a.snapshot.value) || Leftover(b.snapshot.value, a.snapshot.value)))
    || (b.conf == a.conf && b.snapshot == a.snapshot && exists t :: ArchiveOp(a.archives, b.archives, t))
  }

  /** One operation changes one place, and there one file of the configuration or one archive. */
  lemma StepChanges(a: Moment, b: Moment, f: string, g: string, t: nat, u: nat)
    requires Step(a, b) && f != g && t != u
    ensures b.conf != a.conf ==> b.snapshot == a.snapshot && b.archives == a.archives
    ensures b.snapshot != a.snapshot ==> a.snapshot.Some? && b.conf == a.conf && b.archives == a.archives
    ensures Get(b.conf, f) == Get(a.conf, f) || Get(b.conf, g) == Get(a.conf, g)
    ensures ArchiveAt(b.archives, t) == ArchiveAt(a.archives, t) || ArchiveAt(b.archives, u) == ArchiveAt(a.archives, u)
  {
    if b.conf != a.conf {
      var h :| SameBut(b.conf, a.conf, h);
    } else if b.archives != a.archives {
      var v :| ArchiveOp(a.archives, b.archives, v);
    }
  }

  /** From since on the history leads from start to now, one operation at a time. */
  ghost predicate Trace(history: seq<Moment>, since: nat, start: Moment, now: Moment) {
    since < |history| && history[since] == start && history[|history| - 1] == now
    && forall i | since < i < |history| :: Step(history[i - 1], history[i])
  }

  /** The archive holds the configuration a rollback started from, and nothing else if it is new. */
  ghost predicate Archived(archives: map<nat, Dir>, stamp: nat, start: Moment) {
    stamp in archives
    && (forall f | f in start.conf && IsManaged(f) :: Get(archives[stamp], f) == Get(start.conf, f))
    && (stamp !in start.archives ==> archives[stamp] == Managed(start.conf))
  }

  /** No file of the snapshot is lost, and nothing has changed unless the archive is complete. */
  ghost predicate Sound(m: Moment, start: Moment, taken: Dir, stamp: nat) {
    Kept(taken, m.conf, m.snapshot)
    && (m.conf != start.conf || m.snapshot != start.snapshot ==> Archived(m.archives, stamp, start))
  }

  /** Of each file with one of the three prefixes, the snapshot's version is in place or still in the snapshot. */
  lemma SoundKeeps(m: Moment, start: Moment, taken: Dir, stamp: nat)
    requires Sound(m, start, taken, stamp)
    ensures forall x: string | "ifcfg-" + x in taken ::
      Get(m.conf, "ifcfg-" + x) == Get(taken, "ifcfg-" + x)
      || (m.snapshot.Some? && Get(m.snapshot.value, "ifcfg-" + x) == Get(taken, "ifcfg-" + x))
    ensures forall x: string | "route-" + x in taken ::
      Get(m.conf, "route-" + x) == Get(taken, "route-" + x)
      || (m.snapshot.Some? && Get(m.snapshot.value, "route-" + x) == Get(taken, "route-" + x))
    ensures forall x: string | "rule-" + x in taken ::
      Get(m.conf, "rule-" + x) == Get(taken, "rule-" + x)
      || (m.snapshot.Some? && Get(m.snapshot.value, "rule-" + x) == Get(taken, "rule-" + x))
  {
    assert forall f | f in taken && IsManaged(f) :: Safe(taken, m.conf, m.snapshot, f);
  }

  /** Once the configuration or the snapshot has changed, the archive holds every file of the three prefixes. */
  lemma SoundArchives(m: Moment, start: Moment, taken: Dir, stamp: nat)
    requires Sound(m, start, taken, stamp) && (m.conf != start.conf || m.snapshot != start.snapshot)
    ensures stamp in m.archives
    ensures forall x: string | "ifcfg-" + x in start.conf ::
      Get(m.archives[stamp], "ifcfg-" + x) == Get(start.conf, "ifcfg-" + x)
    ensures forall x: string | "route-" + x in start.conf ::
      Get(m.archives[stamp], "route-" + x) == Get(start.conf, "route-" + x)
    ensures forall x: string | "rule-" + x in start.conf ::
      Get(m.archives[stamp], "rule-" + x) == Get(start.conf, "rule-" + x)
  {
    assert forall f | f in start.conf && IsManaged(f) :: Get(m.archives[stamp], f) == Get(start.conf, f);
  }

  /** A call of change_rollback: where its history begins, what it started from, and its date stamp. */
  datatype Call = Call(since: nat, start: Moment, taken: Dir, stamp: nat)

  ghost predicate Written(history: seq<Moment>, call: Call, now: Moment) {
    Trace(history, call.since, call.start, now)
    && forall i | call.since <= i < |history| :: Sound(history[i], call.start, call.taken, call.stamp)
  }

  datatype Command = Begin | Commit | Rollback(now: nat) | Edit

  /** Whether a snapshot is open after the command. */
  predicate OpenAfter(command: Command, open: bool) {
    command.Begin? || (command.Edit? && open)
  }

  /** Whether a snapshot is open after the commands, given whether one was before. */
  predicate Open(commands: seq<Command>, open: bool) {
    if commands == [] then open
    else OpenAfter(commands[|commands| - 1], Open(commands[..|commands| - 1], open))
  }

  predicate Refused(command: Command, open: bool) {
    (command.Begin? && open) || ((command.Commit? || command.Rollback?) && !open)
  }

  class Host {
    /** No file operation fails. */
    const reliable: bool
    var conf: Dir
    var snapshot: Option<Dir>
    var archives: map<nat, Dir>
    /** The state when a rollback was called, and after each of its file operations. */
    ghost var history: seq<Moment>

    constructor (conf: Dir, reliable: bool)
      ensures this.conf == conf && this.reliable == reliable && snapshot == None && archives == map[] && history == []
    {
      this.conf, this.reliable, snapshot, archives, history := conf, reliable, None, map[], [];
    }

    ghost function Now(): Moment
      reads this
    {
      Moment(conf, snapshot, archives)
    }

    /** The history of the call leads, operation by operation and soundly, to the present state. */
    ghost predicate Logged(call: Call)
      reads this
    {
      Written(history, call, Now())
    }

    // ---- file operations ----

    /** Whether a file operation succeeds. */
    method Try() returns (ok: bool)
      ensures reliable ==> ok
    {
      ok := *;
      ok := ok || reliable;
    }

    method Expand(d: Dir) returns (files: seq<string>)
      ensures forall f :: f in files <==> f in d && IsManaged(f)
      ensures forall i, j | 0 <= i < j < |files| :: files[i] != files[j]
    {
      files := [];
      var rest := (set f | f in d && IsManaged(f));
      while rest != {}
        invariant forall f | f in rest :: f in d && IsManaged(f)
        invariant forall f :: f in files <==> f in d && IsManaged(f) && f !in rest
        invariant forall i, j | 0 <= i < j < |files| :: files[i] != files[j]
        decreases |rest|
      {
        var f :| f in rest;
        files := files + [f];
        rest := rest - {f};
      }
    }

    /** cp of one file; a failed copy may leave anything at its target, or nothing. */
    method Copy(content: string, f: string, target: Dir) returns (ok: bool, after: Dir)
      ensures reliable ==> ok
      ensures ok ==> after == target[f := content]
      ensures SameBut(after, target, f)
    {
      ok := Try();
      if ok {
        after := target[f := content];
      } else {
        var garbage: Option<string> := *;
        after := if garbage.Some? then target[f := garbage.value] else target - {f};
      }
    }

    /** rm -rf of a directory; a failure leaves some of its files. */
    method RemoveDir(d: Dir) returns (ok: bool, after: Option<Dir>)
      ensures reliable ==> ok
      ensures ok ==> after == None
      ensures after.Some? ==> Leftover(after.value, d)
    {
      ok := Try();
      after := None;
      if !ok {
        var gone: set<string> := *;
        after := Some(d - gone);
      }
    }

    /** The loop that copies every managed file of a directory into another. */
    method CopyAll(source: Dir, target: Dir) returns (ok: bool, after: Dir)
      ensures reliable ==> ok
      ensures ok ==> after == Overlay(source, target)
    {
      after := target;
      var files := Expand(source);
      for i := 0 to |files|
        invariant Overlaid(source, target, after, files[..i])
      {
        assert files[i] in files;
        ghost var before := after;
        ok, after := Copy(source[files[i]], files[i], after);
        if !ok {
          return;
        }
        OverlaidNext(source, target, before, after, files, i);
      }
      assert files[..|files|] == files;
      OverlaidAll(source, target, after, files);
      ok := true;
    }

    /** Every file operation of a rollback is entered into the history. */
    ghost method Record(call: Call, before: Moment)
      requires Written(history, call, before) && Step(before, Now())
      requires Sound(Now(), call.start, call.taken, call.stamp)
      modifies this`history
      ensures Logged(call)
    {
      history := history + [Now()];
    }

    // ---- change_begin ----

    method ChangeBegin() returns (status: nat)
      modifies this`snapshot
      ensures status == 0 || status == 1 || status == 199
      ensures status == 199 <==> old(snapshot).Some?
      ensures status == 199 ==> snapshot == old(snapshot)
      ensures status == 0 ==> snapshot.Some? && Managed(snapshot.value) == Managed(conf)
      ensures status == 0 ==> forall x: string :: Get(snapshot.value, "ifcfg-" + x) == Get(conf, "ifcfg-" + x)
      ensures status == 0 ==> forall x: string :: Get(snapshot.value, "route-" + x) == Get(conf, "route-" + x)
      ensures status == 0 ==> forall x: string :: Get(snapshot.value, "rule-" + x) == Get(conf, "rule-" + x)
      ensures status == 0 ==> "date" in snapshot.value && forall f | f in snapshot.value && f != "date" ::
        "ifcfg-" <= f || "route-" <= f || "rule-" <= f
      ensures reliable && old(snapshot).None? ==> status == 0
    {
      if snapshot.Some? {
        return EINVALID_IN_THIS_STATE;
      }
      var made := Try();
      if !made {
        return 1;
      }
      var ok, dir := CopyAll(conf, map[]);
      if !ok {
        snapshot := Some(dir);
        return 1;
      }
      var date: string := *;
      var dated, dir' := Copy(date, "date", dir);
      ManagedOfDated(dir', conf);
      SameManaged(dir', conf);
      snapshot := Some(dir');
      status := if dated then 0 else 1;
    }

    lemma ManagedOfDated(dir: Dir, conf: Dir)
      requires SameBut(dir, Overlay(conf, map[]), "date")
      ensures Managed(dir) == Managed(conf)
    {
      assert !IsManaged("date");
      forall f
        ensures Get(Managed(dir), f) == Get(Managed(conf), f)
      {
        assert f != "date" ==> Get(dir, f) == Get(Overlay(conf, map[]), f);
      }
      SameFiles(Managed(dir), Managed(conf));
    }

    // ---- change_commit ----

    /** A failed removal is only reported: the status is 0 all the same. */
    method ChangeCommit() returns (status: nat)
      modifies this`snapshot
      ensures status == 199 <==> old(snapshot).None?
      ensures old(snapshot).None? ==> snapshot.None?
      ensures old(snapshot).Some? ==> status == 0
      ensures reliable ==> snapshot.None?
      ensures snapshot.Some? ==> old(snapshot).Some? && Leftover(snapshot.value, old(snapshot).value)
    {
      if snapshot.None? {
        return EINVALID_IN_THIS_STATE;
      }
      var ok;
      ok, snapshot := RemoveDir(snapshot.value);
      status := 0;
    }

    // ---- change_rollback ----

    /** ls -d | head -n -20: every archive but the last twenty is removed. A failure is lost in the pipe. */
    method PruneArchives(ghost call: Call)
      requires Logged(call) && conf == call.start.conf && snapshot == call.start.snapshot
      modifies this`archives, this`history
      ensures Logged(call)
      ensures Pruned(old(archives), archives, old(archives).Keys - Newest(old(archives).Keys), reliable)
    {
      var stamps := SortStamps(archives.Keys);
      var cut := if |stamps| > KEEP then |stamps| - KEEP else 0;
      PruneFirst(stamps, cut, call);
      NewestOfSorted(old(archives).Keys, stamps, cut);
      SplitStamps(stamps, cut, old(archives).Keys);
    }

    /** The loop over the archives that head -n -20 lets through. */
    method PruneFirst(stamps: seq<nat>, cut: nat, ghost call: Call)
      requires Logged(call) && conf == call.start.conf && snapshot == call.start.snapshot && cut <= |stamps|
      modifies this`archives, this`history
      ensures Logged(call) && Pruned(old(archives), archives, Firsts(stamps, cut), reliable)
    {
      for i := 0 to cut
        invariant Logged(call) && Pruned(old(archives), archives, Firsts(stamps, i), reliable)
      {
        FirstsNext(stamps, i);
        PruneOne(stamps[i], call, old(archives), Firsts(stamps, i));
      }
    }

    method PruneOne(t: nat, ghost call: Call, ghost first: map<nat, Dir>, ghost done: set<nat>)
      requires Logged(call) && conf == call.start.conf && snapshot == call.start.snapshot
      requires Pruned(first, archives, done, reliable)
      modifies this`archives, this`history
      ensures Logged(call) && Pruned(first, archives, done + {t}, reliable)
    {
      ghost var before := archives;
      if t in archives {
        RemoveArchive(t, call);
      }
      PrunedNext(first, before, archives, done, reliable, t);
    }

    method RemoveArchive(t: nat, ghost call: Call)
      requires Logged(call) && conf == call.start.conf && snapshot == call.start.snapshot && t in archives
      modifies this`archives, this`history
      ensures Logged(call)
      ensures forall u | u != t :: ArchiveAt(archives, u) == ArchiveAt(old(archives), u)
      ensures reliable ==> t !in archives
    {
      ghost var before := Now();
      var ok, left := RemoveDir(archives[t]);
      archives := if left.Some? then archives[t := left.value] else archives - {t};
      assert ArchiveOp(before.archives, archives, t);
      Record(call, before);
    }

    lemma FirstsNext(stamps: seq<nat>, i: nat)
      requires i < |stamps|
      ensures Firsts(stamps, i + 1) == Firsts(stamps, i) + {stamps[i]}
    {
      assert stamps[..i + 1] == stamps[..i] + [stamps[i]];
    }

    lemma SplitStamps(stamps: seq<nat>, cut: nat, all: set<nat>)
      requires cut <= |stamps| && Lists(stamps, all)
      requires forall t :: t in Newest(all) <==> t in stamps[cut..]
      ensures Firsts(stamps, cut) == all - Newest(all)
    {
      assert stamps == stamps[..cut] + stamps[cut..];
      forall t | t in stamps[..cut]
        ensures t !in stamps[cut..]
      {
        var i :| 0 <= i < cut && stamps[i] == t;
        assert forall j | cut <= j < |stamps| :: stamps[i] < stamps[j];
      }
    }

    /** The archive of the configuration about to be discarded: mkdir -p, then cp file by file. */
    method ArchiveCurrent(ghost call: Call, now: nat) returns (ok: bool)
      requires Logged(call) && conf == call.start.conf && snapshot == call.start.snapshot
      modifies this`archives, this`history
      ensures Logged(call)
      ensures reliable ==> ok
      ensures forall u | u != now :: ArchiveAt(archives, u) == ArchiveAt(old(archives), u)
      ensures ok ==>
        now in archives && archives[now] == Overlay(conf, if now in old(archives) then old(archives)[now] else map[])
    {
      var made := Try();
      if !made {
        return false;
      }
      ghost var dir := if now in archives then archives[now] else map[];
      if now !in archives {
        ghost var before := Now();
        archives := archives[now := map[]];
        assert ArchiveOp(before.archives, archives, now);
        Record(call, before);
      }
      var files := Expand(conf);
      for i := 0 to |files|
        invariant Logged(call) && now in archives
        invariant forall u | u != now :: ArchiveAt(archives, u) == ArchiveAt(old(archives), u)
        invariant Overlaid(conf, dir, archives[now], files[..i])
      {
        ghost var before := Now();
        assert files[i] in files;
        ghost var sofar := archives[now];
        ok := CopyToArchive(files[i], now, call);
        if !ok {
          return;
        }
        OverlaidNext(conf, dir, sofar, archives[now], files, i);
      }
      assert files[..|files|] == files;
      OverlaidAll(conf, dir, archives[now], files);
      ok := true;
    }

    method CopyToArchive(f: string, now: nat, ghost call: Call) returns (ok: bool)
      requires Logged(call) && conf == call.start.conf && snapshot == call.start.snapshot
      requires f in conf && now in archives
      modifies this`archives, this`history
      ensures Logged(call) && now in archives
      ensures reliable ==> ok
      ensures ok ==> archives[now] == old(archives)[now][f := conf[f]]
      ensures forall u | u != now :: ArchiveAt(archives, u) == ArchiveAt(old(archives), u)
    {
      ghost var before := Now();
      var dir;
      ok, dir := Copy(conf[f], f, archives[now]);
      archives := archives[now := dir];
      assert OneFile(archives[now], before.archives[now]);
      assert ArchiveOp(before.archives, archives, now);
      Record(call, before);
    }

    /** Cases 1 to 3 of the loop over the current files. ok: go on; warned: rollback_ret becomes 1. */
    method Restore(f: string, ghost call: Call) returns (ok: bool, warned: bool)
      requires Logged(call) && Archived(archives, call.stamp, call.start) && snapshot.Some?
      requires f in conf && Get(snapshot.value, f) == Get(call.taken, f)
      modifies this`conf, this`snapshot, this`history
      ensures Logged(call) && snapshot.Some?
      ensures SameBut(conf, old(conf), f) && SameBut(snapshot.value, old(snapshot.value), f)
      ensures Get(snapshot.value, f) == None || Get(snapshot.value, f) == Get(call.taken, f)
      ensures ok && f in call.taken ==> Get(conf, f) == Get(call.taken, f)
      ensures ok && f !in call.taken ==> warned || f !in conf
      ensures reliable ==> ok && !warned
    {
      if f in snapshot.value {
        if snapshot.value[f] != conf[f] {
          ok := CopyBack(f, call);
          if !ok {
            return false, false;
          }
        }
        warned := DropSnapshotFile(f, call);
      } else {
        warned := DropFile(f, call);
      }
      ok := true;
    }

    /** cp -pf of a snapshot file over the current one. */
    method CopyBack(f: string, ghost call: Call) returns (ok: bool)
      requires Logged(call) && Archived(archives, call.stamp, call.start) && snapshot.Some?
      requires f in snapshot.value && Get(snapshot.value, f) == Get(call.taken, f)
      modifies this`conf, this`history
      ensures Logged(call)
      ensures SameBut(conf, old(conf), f) && (ok ==> conf == old(conf)[f := snapshot.value[f]])
      ensures reliable ==> ok
    {
      ghost var before := Now();
      ok, conf := Copy(snapshot.value[f], f, conf);
      KeptStep(call.taken, before.conf, snapshot.value, conf, snapshot.value, f);
      Record(call, before);
    }

    /** rm -f of a snapshot file that is restored. */
    method DropSnapshotFile(f: string, ghost call: Call) returns (warned: bool)
      requires Logged(call) && Archived(archives, call.stamp, call.start) && snapshot.Some?
      requires f in call.taken ==> Get(conf, f) == Get(call.taken, f)
      modifies this`snapshot, this`history
      ensures Logged(call) && snapshot.Some?
      ensures snapshot == if warned then old(snapshot) else Some(old(snapshot).value - {f})
      ensures reliable ==> !warned
    {
      var removed := Try();
      if removed {
        ghost var before := Now();
        snapshot := Some(snapshot.value - {f});
        KeptStep(call.taken, conf, before.snapshot.value, conf, snapshot.value, f);
        assert SameBut(snapshot.value, before.snapshot.value, f);
        Record(call, before);
      }
      warned := !removed;
    }

    /** rm -f of a file that is not in the snapshot. */
    method DropFile(f: string, ghost call: Call) returns (warned: bool)
      requires Logged(call) && Archived(archives, call.stamp, call.start) && snapshot.Some? && f !in call.taken
      modifies this`conf, this`history
      ensures Logged(call)
      ensures conf == if warned then old(conf) else old(conf) - {f}
      ensures reliable ==> !warned
    {
      var removed := Try();
      if removed {
        ghost var before := Now();
        conf := conf - {f};
        KeptStep(call.taken, before.conf, snapshot.value, conf, snapshot.value, f);
        assert SameBut(conf, before.conf, f);
        Record(call, before);
      }
      warned := !removed;
    }

    /** The loop over the current files. */
    method RestoreCurrent(ghost call: Call) returns (ok: bool, warned: bool, ghost done: set<string>)
      requires Logged(call) && Archived(archives, call.stamp, call.start) && snapshot == Some(call.taken)
      modifies this`conf, this`snapshot, this`history
      ensures Logged(call) && snapshot.Some? && Leftover(snapshot.value, call.taken)
      ensures Unmanaged(conf) == Unmanaged(old(conf))
      ensures ok ==> Restored(call.taken, old(conf), conf, snapshot.value, done, warned)
      ensures ok ==> forall f :: f in done <==> f in old(conf) && IsManaged(f)
      ensures reliable ==> ok && !warned
    {
      ghost var orig, taken := conf, call.taken;
      var files := Expand(conf);
      warned := false;
      done := {};
      for i := 0 to |files|
        invariant forall f :: f in done <==> f in files[..i]
        invariant Logged(call) && snapshot.Some? && Leftover(snapshot.value, taken)
        invariant Restored(taken, orig, conf, snapshot.value, done, warned)
        invariant reliable ==> !warned
      {
        var f := files[i];
        NextFile(files, i);
        assert Get(conf, f) == Get(orig, f) && Get(snapshot.value, f) == Get(taken, f);
        ghost var conf0, snapshot0 := conf, snapshot.value;
        var warns;
        ok, warns := Restore(f, call);
        LeftoverStep(snapshot.value, snapshot0, taken, f);
        if !ok {
          UnmanagedStep(orig, conf0, conf, done, f);
          return;
        }
        RestoredStep(taken, orig, conf0, snapshot0, conf, snapshot.value, done, warned, warns, f);
        warned := warned || warns;
        done := done + {f};
      }
      assert files[..|files|] == files;
      SameUnmanaged(orig, conf, done);
      ok := true;
    }

    lemma NextFile(files: seq<string>, i: nat)
      requires i < |files| && forall j, k | 0 <= j < k < |files| :: files[j] != files[k]
      ensures files[i] in files && files[i] !in files[..i]
      ensures forall g :: g in files[..i + 1] <==> g in files[..i] || g == files[i]
    {
      assert files[..i + 1] == files[..i] + [files[i]];
    }

    lemma LeftoverStep(d: Dir, before: Dir, taken: Dir, f: string)
      requires Leftover(before, taken) && SameBut(d, before, f)
      requires Get(d, f) == None || Get(d, f) == Get(taken, f)
      ensures Leftover(d, taken)
    {
      forall g
        ensures Get(d, g) == None || Get(d, g) == Get(taken, g)
      {
        assert g != f ==> Get(d, g) == Get(before, g);
        assert Get(before, g) == None || Get(before, g) == Get(taken, g);
      }
    }

    lemma UnmanagedStep(orig: Dir, before: Dir, after: Dir, done: set<string>, f: string)
      requires IsManaged(f) && (forall g | g in done :: IsManaged(g))
      requires (forall g | g !in done :: Get(before, g) == Get(orig, g)) && SameBut(after, before, f)
      ensures Unmanaged(after) == Unmanaged(orig)
    {
      forall g | g !in done + {f}
        ensures Get(after, g) == Get(orig, g)
      {
        assert Get(after, g) == Get(before, g);
      }
      SameUnmanaged(orig, after, done + {f});
    }

    /** Case 4: the files left in the snapshot are copied back. */
    method RestoreMissing(ghost call: Call) returns (ok: bool)
      requires Logged(call) && Archived(archives, call.stamp, call.start)
      requires snapshot.Some? && Leftover(snapshot.value, call.taken)
      modifies this`conf, this`history
      ensures Logged(call)
      ensures Unmanaged(conf) == Unmanaged(old(conf))
      ensures ok ==> conf == Overlay(snapshot.value, old(conf))
      ensures reliable ==> ok
    {
      ghost var orig := conf;
      var files := Expand(snapshot.value);
      ghost var done: set<string> := {};
      for i := 0 to |files|
        invariant forall f :: f in done <==> f in files[..i]
        invariant Logged(call) && Copied(snapshot.value, orig, conf, done)
      {
        var f := files[i];
        NextFile(files, i);
        ghost var conf0 := conf;
        assert Get(snapshot.value, f) == None || Get(snapshot.value, f) == Get(call.taken, f);
        ok := CopyBack(f, call);
        if !ok {
          UnmanagedStep(orig, conf0, conf, done, f);
          return;
        }
        done := done + {f};
      }
      assert files[..|files|] == files;
      SameUnmanaged(orig, conf, done);
      CopiedAll(snapshot.value, orig, conf, done);
      ok := true;
    }

    lemma CopiedAll(source: Dir, orig: Dir, conf: Dir, done: set<string>)
      requires Copied(source, orig, conf, done)
      requires forall f :: f in done <==> f in source && IsManaged(f)
      ensures conf == Overlay(source, orig)
    {
      forall g
        ensures Get(conf, g) == Get(Overlay(source, orig), g)
      {
        assert Get(conf, g) == if g in done then Get(source, g) else Get(orig, g);
      }
      SameFiles(conf, Overlay(source, orig));
    }

    /** Everything after the archive has been made. */
    method RollBackFiles(ghost call: Call) returns (status: nat)
      requires Logged(call) && Archived(archives, call.stamp, call.start) && snapshot == Some(call.taken)
      modifies this`conf, this`snapshot, this`history
      ensures status == 0 || status == 1
      ensures status == 0 ==> snapshot.None? && Managed(conf) == Managed(call.taken)
      ensures Unmanaged(conf) == Unmanaged(old(conf))
      ensures Logged(call)
      ensures reliable ==> status == 0
    {
      ghost var done;
      var ok, warned;
      ok, warned, done := RestoreCurrent(call);
      if !ok {
        return 1;
      }
      ghost var left, current := snapshot.value, conf;
      ok := RestoreMissing(call);
      if !ok {
        return 1;
      }
      AllRestored(call.taken, old(conf), left, current, conf, done, warned);
      ghost var before := Now();
      var removed;
      removed, snapshot := RemoveDir(snapshot.value);
      Record(call, before);
      status := if warned || !removed then 1 else 0;
    }

    /**
     * now is the date stamp of the new archive. The history of the call leads from the state it found to
     * the state it leaves, one file operation at a time; at each of its moments no file of the snapshot is
     * lost, and before the first change of the configuration or the snapshot the archive is complete.
     * Status 0 means full restoration.
     */
    method ChangeRollback(now: nat) returns (status: nat)
      modifies this`conf, this`snapshot, this`archives, this`history
      ensures status == 0 || status == 1 || status == 199
      ensures status == 199 <==> old(snapshot).None?
      ensures old(snapshot).None? ==> Now() == old(Now()) && history == old(history)
      ensures status == 0 ==> snapshot.None? && Managed(conf) == Managed(old(snapshot).value)
      ensures forall f | !("ifcfg-" <= f || "route-" <= f || "rule-" <= f) :: Get(conf, f) == Get(old(conf), f)
      ensures old(snapshot).Some? ==>
        |old(history)| < |history| && history[|old(history)|] == old(Now()) && history[|history| - 1] == Now()
      ensures old(snapshot).Some? ==> forall i | |old(history)| < i < |history| :: Step(history[i - 1], history[i])
      ensures old(snapshot).Some? ==> forall i | |old(history)| <= i < |history| ::
        Sound(history[i], old(Now()), old(snapshot).value, now)
      ensures reliable && old(snapshot).Some? ==> status == 0
      ensures reliable && old(snapshot).Some? ==> archives.Keys == Newest(old(archives).Keys) + {now}
      ensures forall t | t in Newest(old(archives).Keys) && t != now :: t in archives && archives[t] == old(archives)[t]
    {
      if snapshot.None? {
        return EINVALID_IN_THIS_STATE;
      }
      ghost var call := Call(|history|, Now(), snapshot.value, now);
      history := history + [Now()];
      PruneArchives(call);
      ghost var pruned := archives;
      var made := ArchiveCurrent(call, now);
      KeptArchives(old(archives), pruned, archives, now);
      if !made {
        return 1;
      }
      ArchiveMade(old(archives), pruned, archives, now, conf, call.start);
      status := RollBackFiles(call);
      SameOthers(conf, old(conf));
    }

    lemma KeptArchives(before: map<nat, Dir>, pruned: map<nat, Dir>, after: map<nat, Dir>, now: nat)
      requires Pruned(before, pruned, before.Keys - Newest(before.Keys), reliable)
      requires forall u | u != now :: ArchiveAt(after, u) == ArchiveAt(pruned, u)
      ensures forall t | t in Newest(before.Keys) && t != now :: t in after && after[t] == before[t]
      ensures reliable && now in after ==> after.Keys == Newest(before.Keys) + {now}
    {
      forall t | t in Newest(before.Keys) && t != now
        ensures t in after && after[t] == before[t]
      {
        assert t in pruned && ArchiveAt(after, t) == ArchiveAt(pruned, t);
      }
      if reliable && now in after {
        forall t
          ensures t in after.Keys <==> t in Newest(before.Keys) + {now}
        {
          assert t != now ==> ArchiveAt(after, t) == ArchiveAt(pruned, t);
        }
      }
    }

    lemma ArchiveMade(
      before: map<nat, Dir>, pruned: map<nat, Dir>, after: map<nat, Dir>, now: nat, conf: Dir, start: Moment)
      requires Pruned(before, pruned, before.Keys - Newest(before.Keys), reliable)
      requires start.conf == conf && start.archives == before
      requires now in after && after[now] == Overlay(conf, if now in pruned then pruned[now] else map[])
      ensures Archived(after, now, start)
    {
    }

    lemma AllRestored(taken: Dir, orig: Dir, left: Dir, before: Dir, after: Dir, done: set<string>, warned: bool)
      requires Leftover(left, taken) && after == Overlay(left, before)
      requires Restored(taken, orig, before, left, done, warned)
      requires forall f :: f in done <==> f in orig && IsManaged(f)
      ensures forall s: Option<Dir> :: Kept(taken, after, s)
      ensures !warned ==> Managed(after) == Managed(taken)
    {
      forall g | IsManaged(g) && g in taken
        ensures Get(after, g) == Get(taken, g)
      {
        assert Get(left, g) == None || Get(left, g) == Get(taken, g);
        assert g in done || Get(left, g) == Get(taken, g);
      }
      forall s: Option<Dir>
        ensures Kept(taken, after, s)
      {
        forall g | IsManaged(g) && g in taken
          ensures Safe(taken, after, s, g)
        {
          assert Get(after, g) == Get(taken, g);
        }
      }
      if !warned {
        forall f
          ensures Get(Managed(after), f) == Get(Managed(taken), f)
        {
          if IsManaged(f) && f in taken {
            assert Get(after, f) == Get(taken, f);
          } else if IsManaged(f) {
            assert Get(left, f) == None || Get(left, f) == Get(taken, f);
            assert f !in done ==> Get(before, f) == Get(orig, f);
          }
        }
        SameFiles(Managed(after), Managed(taken));
      }
    }

    /** A snapshot, any edits of the configuration, and a rollback. */
    method BeginThenRollback(now: nat) returns (begun: nat, rolledBack: nat)
      modifies this
      ensures begun == 0 && rolledBack == 0 ==> snapshot.None?
      ensures begun == 0 && rolledBack == 0 ==> forall x: string ::
        Get(conf, "ifcfg-" + x) == Get(old(conf), "ifcfg-" + x)
      ensures begun == 0 && rolledBack == 0 ==> forall x: string ::
        Get(conf, "route-" + x) == Get(old(conf), "route-" + x)
      ensures begun == 0 && rolledBack == 0 ==> forall x: string ::
        Get(conf, "rule-" + x) == Get(old(conf), "rule-" + x)
      ensures reliable && old(snapshot).None? ==> begun == 0 && rolledBack == 0
    {
      begun := ChangeBegin();
      conf := *;
      rolledBack := ChangeRollback(now);
      if begun == 0 && rolledBack == 0 {
        SameManaged(conf, old(conf));
      }
    }

    method Execute(command: Command) returns (status: nat)
      modifies this
      ensures reliable ==> (snapshot.Some? <==> OpenAfter(command, old(snapshot).Some?))
      ensures status == 199 <==> Refused(command, old(snapshot).Some?)
      ensures command.Edit? ==> status == 0 && snapshot == old(snapshot) && archives == old(archives)
      ensures reliable ==> |archives| <= 21 || archives == old(archives)
    {
      status := 0;
      match command {
        case Begin => status := ChangeBegin();
        case Commit => status := ChangeCommit();
        case Rollback(now) =>
          NewestBound(archives.Keys, now);
          status := ChangeRollback(now);
          assert |archives| == |archives.Keys|;
        case Edit => conf := *;
      }
    }

    /** Any run of commands and edits of the configuration, from any state. */
    method Session(commands: seq<Command>) returns (statuses: seq<nat>)
      modifies this
      ensures |statuses| == |commands|
      ensures reliable ==> |archives| <= 21 || archives == old(archives)
      ensures reliable ==> forall i | 0 <= i < |commands| ::
        statuses[i] == 199 <==> Refused(commands[i], Open(commands[..i], old(snapshot).Some?))
    {
      ghost var open := snapshot.Some?;
      statuses := [];
      for i := 0 to |commands|
        invariant |statuses| == i
        invariant reliable ==> (snapshot.Some? <==> Open(commands[..i], open))
        invariant reliable ==> |archives| <= 21 || archives == old(archives)
        invariant reliable ==> forall k | 0 <= k < i ::
          statuses[k] == 199 <==> Refused(commands[k], Open(commands[..k], open))
      {
        assert commands[..i + 1][..i] == commands[..i];
        var status := Execute(commands[i]);
        statuses := statuses + [status];
      }
      assert commands[..|commands|] == commands;
    }
  }

  // ---- the newest archives ----

  /** Of the old archives those in gone may be damaged, or are removed; the others are as before. */
  ghost predicate Pruned(before: map<nat, Dir>, after: map<nat, Dir>, gone: set<nat>, reliable: bool) {
    (forall t | t in after :: t in before)
    && (forall t | t in before && t !in gone :: t in after && after[t] == before[t])
    && (reliable ==> forall t | t in gone :: t !in after)
  }

  lemma PrunedNext(
    first: map<nat, Dir>, before: map<nat, Dir>, after: map<nat, Dir>, gone: set<nat>, reliable: bool, t: nat)
    requires Pruned(first, before, gone, reliable)
    requires forall u | u != t :: ArchiveAt(after, u) == ArchiveAt(before, u)
    requires t in after ==> t in before
    requires reliable ==> t !in after
    ensures Pruned(first, after, gone + {t}, reliable)
  {
    forall u | u in after
      ensures u in first
    {
      assert u != t ==> ArchiveAt(after, u) == ArchiveAt(before, u);
    }
    forall u | u in first && u !in gone + {t}
      ensures u in after && after[u] == first[u]
    {
      assert ArchiveAt(after, u) == ArchiveAt(before, u);
    }
    if reliable {
      forall u | u in gone
        ensures u !in after
      {
        assert u != t ==> ArchiveAt(after, u) == ArchiveAt(before, u);
      }
    }
  }

  /** The stamps with fewer than twenty newer ones. */
  function Newest(stamps: set<nat>): set<nat> {
    set t | t in stamps && |Newer(stamps, t)| < KEEP
  }

  function Newer(stamps: set<nat>, t: nat): set<nat> {
    set u | u in stamps && u > t
  }

  function Firsts(stamps: seq<nat>, cut: nat): set<nat>
    requires cut <= |stamps|
  {
    set t | t in stamps[..cut]
  }

  predicate Ascending(s: seq<nat>) {
    forall i, j | 0 <= i < j < |s| :: s[i] < s[j]
  }

  lemma MinExists(s: set<nat>) returns (m: nat)
    requires s != {}
    ensures m in s && forall x | x in s :: m <= x
    decreases |s|
  {
    var x :| x in s;
    m := x;
    if s != {x} {
      var k := MinExists(s - {x});
      m := if k < x then k else x;
      forall y | y in s
        ensures m <= y
      {
        assert y == x || y in s - {x};
      }
    }
  }

  method SortStamps(stamps: set<nat>) returns (s: seq<nat>)
    ensures Lists(s, stamps) && |s| == |stamps|
  {
    s := [];
    var rest := stamps;
    while rest != {}
      invariant rest <= stamps && |s| + |rest| == |stamps|
      invariant Ascending(s) && forall i, t | 0 <= i < |s| && t in rest :: s[i] < t
      invariant forall t :: t in s <==> t in stamps - rest
      decreases |rest|
    {
      ghost var k := MinExists(rest);
      var m :| m in rest && forall x | x in rest :: m <= x;
      s := s + [m];
      rest := rest - {m};
    }
  }

  ghost predicate Lists(s: seq<nat>, stamps: set<nat>) {
    Ascending(s) && forall t :: t in s <==> t in stamps
  }

  lemma {:induction false} NewerOfSorted(stamps: set<nat>, s: seq<nat>, i: nat)
    requires Lists(s, stamps) && i < |s|
    ensures |Newer(stamps, s[i])| == |s| - 1 - i
    decreases |s| - i
  {
    if i == |s| - 1 {
      NewerNone(stamps, s);
    } else {
      NewerOfSorted(stamps, s, i + 1);
      NewerNext(stamps, s, i);
      OneMore(Newer(stamps, s[i + 1]), s[i + 1]);
    }
  }

  lemma NewerNone(stamps: set<nat>, s: seq<nat>)
    requires Lists(s, stamps) && s != []
    ensures Newer(stamps, s[|s| - 1]) == {}
  {
    forall t | t in stamps
      ensures t <= s[|s| - 1]
    {
      var k :| 0 <= k < |s| && s[k] == t;
    }
  }

  lemma OneMore(a: set<nat>, t: nat)
    requires t !in a
    ensures |a + {t}| == |a| + 1
  {
  }

  lemma NewerNext(stamps: set<nat>, s: seq<nat>, i: nat)
    requires Lists(s, stamps) && i + 1 < |s|
    ensures Newer(stamps, s[i]) == Newer(stamps, s[i + 1]) + {s[i + 1]} && s[i + 1] !in Newer(stamps, s[i + 1])
  {
    forall t
      ensures t in Newer(stamps, s[i]) <==> t in Newer(stamps, s[i + 1]) + {s[i + 1]}
    {
      if t in stamps {
        var k :| 0 <= k < |s| && s[k] == t;
        assert k < i ==> s[k] < s[i];
        assert k > i + 1 ==> s[i + 1] < s[k];
      }
      assert s[i] < s[i + 1] && s[i + 1] in stamps;
    }
  }

  lemma NewestAt(stamps: set<nat>, s: seq<nat>, cut: nat, i: nat)
    requires Lists(s, stamps) && i < |s|
    requires cut == if |s| > KEEP then |s| - KEEP else 0
    ensures s[i] in Newest(stamps) <==> i >= cut
  {
    NewerOfSorted(stamps, s, i);
    assert s[i] in s;
  }

  /** The last twenty of the sorted stamps are the newest. */
  lemma NewestOfSorted(stamps: set<nat>, s: seq<nat>, cut: nat)
    requires Lists(s, stamps)
    requires cut == if |s| > KEEP then |s| - KEEP else 0
    ensures forall t :: t in Newest(stamps) <==> t in s[cut..]
  {
    forall t
      ensures t in Newest(stamps) <==> t in s[cut..]
    {
      if t in s[cut..] {
        var k :| 0 <= k < |s[cut..]| && s[cut..][k] == t;
        NewestAt(stamps, s, cut, cut + k);
      }
      if t in Newest(stamps) {
        assert t in s;
        var k :| 0 <= k < |s| && s[k] == t;
        NewestAt(stamps, s, cut, k);
        assert s[cut..][k - cut] == t;
      }
    }
  }

  function Elems(s: seq<nat>): set<nat> {
    if s == [] then {} else {s[0]} + Elems(s[1..])
  }

  lemma {:induction false} AscendingCard(s: seq<nat>)
    requires Ascending(s)
    ensures |Elems(s)| == |s|
    ensures forall t :: t in Elems(s) <==> t in s
  {
    if s != [] {
      AscendingCard(s[1..]);
      assert s[0] !in s[1..];
    }
  }

  lemma SameSet(a: set<nat>, s: seq<nat>)
    requires Ascending(s) && forall t :: t in a <==> t in s
    ensures a == Elems(s)
  {
    AscendingCard(s);
    forall t
      ensures t in a <==> t in Elems(s)
    {
    }
  }

  /** At most twenty archives outlast a pruning, so at most twenty-one exist after a rollback. */
  lemma NewestCount(stamps: set<nat>, s: seq<nat>)
    requires Lists(s, stamps) && |s| == |stamps|
    ensures |Newest(stamps)| == if |stamps| > 20 then 20 else |stamps|
  {
    var cut := if |s| > KEEP then |s| - KEEP else 0;
    var kept := s[cut..];
    NewestOfSorted(stamps, s, cut);
    AscendingCard(kept);
    SameSet(Newest(stamps), kept);
  }

  lemma NewestBound(stamps: set<nat>, now: nat)
    ensures |Newest(stamps) + {now}| <= 21
  {
    var s := Listed(stamps);
    NewestCount(stamps, s);
  }

  lemma Listed(stamps: set<nat>) returns (s: seq<nat>)
    ensures Lists(s, stamps) && |s| == |stamps|
    decreases |stamps|
  {
    if stamps == {} {
      s := [];
    } else {
      var m := MinExists(stamps);
      var rest := Listed(stamps - {m});
      s := [m] + rest;
      assert forall i | 0 <= i < |rest| :: rest[i] in rest;
    }
  }
}
