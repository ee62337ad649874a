// The installation procedures themselves, working on a file system whose
// operations may fail at any time; each follows the run specified in
// InstallModel and stops where an operation fails.
module InstallProgram {
  import opened Sequences
  import opened Text
  import opened Wrappers
  import opened InstallModel

  // The states `logged` are the run of a procedure that started on `d`: all of
  // it when nothing fails, a prefix otherwise, and success means all of it.
  ghost predicate Follows(d: Disk, run: Run, logged: seq<Disk>, after: Disk, ok: bool, reliable: bool) {
    && logged <= run.steps
    && after == End(d, Run(logged, ok))
    && (ok ==> run.ok && logged == run.steps)
    && (reliable ==> ok == run.ok && logged == run.steps)
  }

  lemma FollowsThen(d: Disk, r1: Run, l1: seq<Disk>, m: Disk, r2: Run, l2: seq<Disk>, after: Disk, ok: bool,
                    reliable: bool)
    requires Follows(d, r1, l1, m, true, reliable) && Follows(m, r2, l2, after, ok, reliable)
    ensures Follows(d, Then(r1, r2), l1 + l2, after, ok, reliable)
  {
  }

  lemma FollowsStop(d: Disk, r1: Run, l1: seq<Disk>, m: Disk, r2: Run, reliable: bool)
    requires Follows(d, r1, l1, m, false, reliable)
    ensures Follows(d, Then(r1, r2), l1, m, false, reliable)
  {
  }

  class FileSystem {
    var files: map<Name, Node>
    var journal: Journal
    // Whether operations fail only when they must.
    const reliable: bool
    // Every state the disk has gone through.
    ghost var log: seq<Disk>

    ghost function Now(): Disk
      reads this
    {
      Disk(files, journal)
    }

    constructor (files: map<Name, Node>, journal: Journal, reliable: bool)
      ensures Now() == Disk(files, journal) && this.reliable == reliable && log == []
    {
      this.files, this.journal, this.reliable, log := files, journal, reliable, [];
    }

    method Remove(name: Name) returns (ok: bool)
      modifies this
      ensures ok ==> Now() == InstallModel.Remove(old(Now()), name) && log == old(log) + [Now()]
      ensures !ok ==> Now() == old(Now()) && log == old(log)
      ensures reliable && name in old(files) ==> ok
    {
      ok := *;
      if reliable { ok := true; }
      if name !in files { ok := false; }
      if ok {
        files := files - {name};
        log := log + [Now()];
      }
    }

    method Rename(from: Name, to: Name) returns (ok: bool)
      modifies this
      ensures ok ==> from in old(files) && Now() == Move(old(Now()), from, to) && log == old(log) + [Now()]
      ensures !ok ==> Now() == old(Now()) && log == old(log)
      ensures reliable && from in old(files) ==> ok
    {
      ok := *;
      if reliable { ok := true; }
      if from !in files { ok := false; }
      if ok {
        files := (files - {from})[to := files[from]];
        log := log + [Now()];
      }
    }

    method RemoveJournal() returns (ok: bool)
      modifies this
      ensures ok ==> Now() == DropJournal(old(Now())) && log == old(log) + [Now()]
      ensures !ok ==> Now() == old(Now()) && log == old(log)
      ensures reliable ==> ok
    {
      ok := *;
      if reliable { ok := true; }
      if ok {
        journal := Absent;
        log := log + [Now()];
      }
    }

    method WriteJournal(st: State) returns (ok: bool)
      modifies this
      ensures ok ==> Now() == old(Now()).(journal := Written(st)) && log == old(log) + [Now()]
      ensures !ok ==> Now() == old(Now()) && log == old(log)
      ensures reliable ==> ok
    {
      ok := *;
      if reliable { ok := true; }
      if ok {
        journal := Written(st);
        log := log + [Now()];
      }
    }

    // regularFileDigest; None when the file cannot be read.
    method RegularFileDigest(name: Name) returns (r: Option<Read>)
      ensures r.Some? ==> r.value == Lstat(Now(), name) && !r.value.Irregular?
      ensures reliable && !Lstat(Now(), name).Irregular? ==> r.Some?
    {
      var readable: bool := *;
      if name !in files { return Some(Missing); }
      match files[name]
      case File(g) => r := if reliable || readable then Some(Regular(g)) else None;
      case _ => r := None;
    }

    // Attributes and digest, through links; None when either cannot be read.
    method Inspect(name: Name) returns (r: Option<Read>)
      ensures r.Some? ==> r.value == Stat(Now(), name)
      ensures reliable ==> r.Some?
    {
      var readable: bool := *;
      r := if reliable || readable then Some(Stat(Disk(files, journal), name)) else None;
    }

    // Whether there is anything under a name; None when that cannot be told.
    method Exists(name: Name) returns (r: Option<bool>)
      ensures r.Some? ==> r.value == (name in files)
      ensures reliable ==> r.Some?
    {
      var readable: bool := *;
      r := if reliable || readable then Some(name in files) else None;
    }

    ghost function Since(before: seq<Disk>): seq<Disk>
      reads this
    {
      if |before| <= |log| then log[|before|..] else []
    }
  }

  // The procedure did `run`, as far as it got.
  twostate predicate Did(fs: FileSystem, run: Run, ok: bool)
    reads fs
  {
    && old(fs.log) <= fs.log
    && Follows(old(fs.Now()), run, fs.Since(old(fs.log)), fs.Now(), ok, fs.reliable)
  }

  method RemoveKnownBinaryArtifact(fs: FileSystem, name: Name, allowed: bool, expected: Text) returns (ok: bool)
    modifies fs
    ensures Did(fs, RemoveKnown(old(fs.Now()), name, allowed, expected), ok)
  {
    var r := fs.RegularFileDigest(name);
    if r.None? { return false; }
    if r.value.Missing? { return true; }
    if !allowed || r.value.digest != expected { return false; }
    ok := fs.Remove(name);
  }

  // One turn of the commit loop.
  method CommitOne(fs: FileSystem, e: Resolved) returns (ok: bool)
    modifies fs
    ensures Did(fs, CommitEntry(old(fs.Now()), e), ok)
  {
    ghost var d, l := fs.Now(), fs.log;
    ghost var r1 := RemoveKnown(d, e.back, e.had, e.original);
    ok := RemoveKnownBinaryArtifact(fs, e.back, e.had, e.original);
    ghost var m, l1 := fs.Now(), fs.Since(l);
    ghost var r2 := RemoveKnown(End(d, r1), e.temp, true, e.candidate);
    if !ok {
      FollowsStop(d, r1, l1, m, r2, fs.reliable);
      return;
    }
    ghost var l' := fs.log;
    ok := RemoveKnownBinaryArtifact(fs, e.temp, true, e.candidate);
    FollowsThen(d, r1, l1, m, r2, fs.Since(l'), fs.Now(), ok, fs.reliable);
    assert fs.Since(l) == l1 + fs.Since(l');
  }

  // What is left of a loop over the entries, after the turns already taken.
  ghost predicate Continues(d: Disk, whole: Run, done: seq<Disk>, now: Disk, rest: Run) {
    && whole == Run(done + rest.steps, rest.ok)
    && now == End(d, Run(done, true))
  }

  lemma ContinuesThen(d: Disk, whole: Run, done: seq<Disk>, now: Disk, turn: Run, rest: Run,
                      l: seq<Disk>, after: Disk, reliable: bool)
    requires Continues(d, whole, done, now, Then(turn, rest))
    requires Follows(now, turn, l, after, true, reliable)
    ensures Continues(d, whole, done + l, after, rest)
  {
  }

  lemma ContinuesStop(d: Disk, whole: Run, done: seq<Disk>, now: Disk, turn: Run, rest: Run,
                      l: seq<Disk>, after: Disk, reliable: bool)
    requires Continues(d, whole, done, now, Then(turn, rest))
    requires Follows(now, turn, l, after, false, reliable)
    ensures Follows(d, whole, done + l, after, false, reliable)
  {
  }

  // One turn of the commit loop.
  method CommitTurn(fs: FileSystem, rs: seq<Resolved>, i: nat, ghost d: Disk, ghost l: seq<Disk>, ghost whole: Run)
    returns (ok: bool)
    requires i < |rs| && l <= fs.log && Continues(d, whole, fs.Since(l), fs.Now(), CommitFrom(fs.Now(), rs, i))
    modifies fs
    ensures l <= fs.log
    ensures ok ==> Continues(d, whole, fs.Since(l), fs.Now(), CommitFrom(fs.Now(), rs, i + 1))
    ensures !ok ==> Follows(d, whole, fs.Since(l), fs.Now(), false, fs.reliable)
  {
    ghost var now, l' := fs.Now(), fs.log;
    ghost var turn := CommitEntry(now, rs[i]);
    ghost var rest := CommitFrom(End(now, turn), rs, i + 1);
    ghost var done := fs.Since(l);
    ok := CommitOne(fs, rs[i]);
    assert fs.Since(l) == done + fs.Since(l');
    if ok {
      ContinuesThen(d, whole, done, now, turn, rest, fs.Since(l'), fs.Now(), fs.reliable);
    } else {
      ContinuesStop(d, whole, done, now, turn, rest, fs.Since(l'), fs.Now(), fs.reliable);
    }
  }

  method CommitAll(fs: FileSystem, rs: seq<Resolved>) returns (ok: bool)
    modifies fs
    ensures Did(fs, CommitFrom(old(fs.Now()), rs, 0), ok)
  {
    ghost var d, l := fs.Now(), fs.log;
    ghost var whole := CommitFrom(d, rs, 0);
    for i := 0 to |rs|
      invariant l <= fs.log
      invariant Continues(d, whole, fs.Since(l), fs.Now(), CommitFrom(fs.Now(), rs, i))
    {
      ok := CommitTurn(fs, rs, i, d, l, whole);
      if !ok { return; }
    }
    ok := true;
  }

  method RestoreOne(fs: FileSystem, e: Resolved) returns (ok: bool)
    modifies fs
    ensures Did(fs, RestoreEntry(old(fs.Now()), e), ok)
  {
    var dest := fs.RegularFileDigest(e.dest);
    if dest.None? { return false; }
    var back := fs.RegularFileDigest(e.back);
    if back.None? { return false; }
    if e.had {
      if dest.value.Regular? && dest.value.digest == e.original {
        if back.value.Regular? {
          if back.value.digest != e.original { return false; }
          ok := fs.Remove(e.back);
          return;
        }
        return true;
      }
      if back.value.Missing? || back.value.digest != e.original { return false; }
      if dest.value.Regular? {
        if dest.value.digest != e.candidate { return false; }
        ok := fs.Remove(e.dest);
        if !ok { return; }
      }
      ok := fs.Rename(e.back, e.dest);
    } else {
      if back.value.Regular? { return false; }
      if dest.value.Regular? {
        if dest.value.digest != e.candidate { return false; }
        ok := fs.Remove(e.dest);
        return;
      }
      ok := true;
    }
  }

  method RollbackOne(fs: FileSystem, e: Resolved) returns (ok: bool)
    modifies fs
    ensures Did(fs, RollbackEntry(old(fs.Now()), e), ok)
  {
    ghost var d, l := fs.Now(), fs.log;
    ghost var r1 := RestoreEntry(d, e);
    ok := RestoreOne(fs, e);
    ghost var m, l1 := fs.Now(), fs.Since(l);
    ghost var r2 := RemoveKnown(End(d, r1), e.temp, true, e.candidate);
    if !ok {
      FollowsStop(d, r1, l1, m, r2, fs.reliable);
      return;
    }
    ghost var l' := fs.log;
    ok := RemoveKnownBinaryArtifact(fs, e.temp, true, e.candidate);
    FollowsThen(d, r1, l1, m, r2, fs.Since(l'), fs.Now(), ok, fs.reliable);
    assert fs.Since(l) == l1 + fs.Since(l');
  }

  // One turn of the rollback loop.
  method RollbackTurn(fs: FileSystem, rs: seq<Resolved>, i: nat, ghost d: Disk, ghost l: seq<Disk>, ghost whole: Run)
    returns (ok: bool)
    requires i < |rs| && l <= fs.log && Continues(d, whole, fs.Since(l), fs.Now(), RollbackFrom(fs.Now(), rs, i))
    modifies fs
    ensures l <= fs.log
    ensures ok ==> Continues(d, whole, fs.Since(l), fs.Now(), RollbackFrom(fs.Now(), rs, i + 1))
    ensures !ok ==> Follows(d, whole, fs.Since(l), fs.Now(), false, fs.reliable)
  {
    ghost var now, l' := fs.Now(), fs.log;
    ghost var turn := RollbackEntry(now, rs[i]);
    ghost var rest := RollbackFrom(End(now, turn), rs, i + 1);
    ghost var done := fs.Since(l);
    ok := RollbackOne(fs, rs[i]);
    assert fs.Since(l) == done + fs.Since(l');
    if ok {
      ContinuesThen(d, whole, done, now, turn, rest, fs.Since(l'), fs.Now(), fs.reliable);
    } else {
      ContinuesStop(d, whole, done, now, turn, rest, fs.Since(l'), fs.Now(), fs.reliable);
    }
  }

  method RollbackAll(fs: FileSystem, rs: seq<Resolved>) returns (ok: bool)
    modifies fs
    ensures Did(fs, RollbackFrom(old(fs.Now()), rs, 0), ok)
  {
    ghost var d, l := fs.Now(), fs.log;
    ghost var whole := RollbackFrom(d, rs, 0);
    for i := 0 to |rs|
      invariant l <= fs.log
      invariant Continues(d, whole, fs.Since(l), fs.Now(), RollbackFrom(fs.Now(), rs, i))
    {
      ok := RollbackTurn(fs, rs, i, d, l, whole);
      if !ok { return; }
    }
    ok := true;
  }

  // The loop that looks whether every candidate is in place; Unreadable when it
  // returns an error.
  method ScanDestinations(fs: FileSystem, rs: seq<Resolved>) returns (scan: Scan)
    ensures scan == ScanFrom(fs.Now(), rs, 0) || (scan == Scan.Unreadable && !fs.reliable)
  {
    for i := 0 to |rs|
      invariant ScanFrom(fs.Now(), rs, 0) == ScanFrom(fs.Now(), rs, i)
    {
      var r := fs.RegularFileDigest(rs[i].dest);
      if r.None? { return Scan.Unreadable; }
      if r.value.Missing? || r.value.digest != rs[i].candidate { return NotAll; }
    }
    scan := AllCandidates;
  }

  method VerifyRollback(fs: FileSystem, rs: seq<Resolved>) returns (ok: bool)
    ensures ok ==> VerifiedFrom(fs.Now(), rs, 0)
    ensures fs.reliable ==> ok == VerifiedFrom(fs.Now(), rs, 0)
  {
    for i := 0 to |rs|
      invariant VerifiedFrom(fs.Now(), rs, 0) == VerifiedFrom(fs.Now(), rs, i)
    {
      var r := fs.RegularFileDigest(rs[i].dest);
      if r.None? { return false; }
      if rs[i].had {
        if r.value.Missing? || r.value.digest != rs[i].original { return false; }
      } else if r.value.Regular? {
        return false;
      }
    }
    ok := true;
  }

  ghost predicate SeenNames(rs: seq<Resolved>, seen: set<Name>) {
    forall n :: n in seen <==> exists j :: 0 <= j < |rs| && n in NamesOf(rs[j])
  }

  lemma SeenMore(rs: seq<Resolved>, e: Resolved, seen: set<Name>)
    requires SeenNames(rs, seen)
    ensures SeenNames(rs + [e], seen + NamesOf(e))
    ensures (forall j :: 0 <= j < |rs| ==> NamesOf(rs[j]) !! NamesOf(e)) <==> seen !! NamesOf(e)
  {
    forall n | n in seen + NamesOf(e)
      ensures exists j :: 0 <= j < |rs + [e]| && n in NamesOf((rs + [e])[j])
    {
      if n in seen {
        var j :| 0 <= j < |rs| && n in NamesOf(rs[j]);
        assert (rs + [e])[j] == rs[j];
      } else {
        assert (rs + [e])[|rs|] == e;
      }
    }
  }

  lemma DistinctMore(rs: seq<Resolved>, e: Resolved)
    ensures DistinctNames(rs + [e]) <==>
              DistinctNames(rs) && OwnNamesDistinct(e) && forall j :: 0 <= j < |rs| ==> NamesOf(rs[j]) !! NamesOf(e)
  {
    var all := rs + [e];
    assert all[|rs|] == e && forall j :: 0 <= j < |rs| ==> all[j] == rs[j];
  }

  predicate Collides(e: Resolved, seen: set<Name>) {
    e.dest in seen || e.temp in seen + {e.dest} || e.back in seen + {e.dest, e.temp}
  }

  lemma CollidesMeans(all: seq<Resolved>, i: nat, seen: set<Name>)
    requires i < |all| && DistinctNames(all[..i]) && SeenNames(all[..i], seen)
    ensures Collides(all[i], seen) ==> !DistinctNames(all)
    ensures !Collides(all[i], seen) ==>
              DistinctNames(all[..i + 1]) && SeenNames(all[..i + 1], seen + NamesOf(all[i]))
  {
    assert all[..i + 1] == all[..i] + [all[i]];
    DistinctMore(all[..i], all[i]);
    SeenMore(all[..i], all[i], seen);
    if DistinctNames(all) { DistinctPrefix(all, i + 1); }
  }

  lemma DistinctPrefix(rs: seq<Resolved>, i: nat)
    requires i <= |rs| && DistinctNames(rs)
    ensures DistinctNames(rs[..i])
  {
  }

  // resolveBinaryInstallState, with its set of names already used.
  method ResolveState(st: State) returns (r: Option<seq<Resolved>>)
    ensures r == Resolve(st)
  {
    if st.schema != SCHEMA { return None; }
    if st.entries == [] || |st.entries| > MAX_ENTRIES { return None; }
    r := ResolveEntries(st.entries, WellFormedEntry, ResolveEntry, ResolveAll(st.entries));
  }

  // The names of one more entry, unless one is used already.
  method AddNames(next: Resolved, seen: set<Name>, ghost all: seq<Resolved>, ghost i: nat)
    returns (more: Option<set<Name>>)
    requires i < |all| && next == all[i] && DistinctNames(all[..i]) && SeenNames(all[..i], seen)
    ensures more.None? ==> !DistinctNames(all)
    ensures more.Some? ==> DistinctNames(all[..i + 1]) && SeenNames(all[..i + 1], more.value)
  {
    CollidesMeans(all, i, seen);
    if Collides(next, seen) { return None; }
    more := Some(seen + NamesOf(next));
  }

  // Its loop, with the checks of one entry and its names as parameters.
  method ResolveEntries(es: seq<Entry>, wellFormed: Entry -> bool, resolve: Entry -> Resolved, ghost all: seq<Resolved>)
    returns (r: Option<seq<Resolved>>)
    requires |all| == |es| && forall i :: 0 <= i < |es| ==> all[i] == resolve(es[i])
    ensures r == if AllFrom(es, wellFormed, 0) && DistinctNames(all) then Some(all) else None
  {
    var seen: set<Name> := {};
    var resolved: seq<Resolved> := [];
    for i := 0 to |es|
      invariant resolved == all[..i]
      invariant AllFrom(es, wellFormed, 0) == AllFrom(es, wellFormed, i)
      invariant DistinctNames(all[..i]) && SeenNames(all[..i], seen)
    {
      if !wellFormed(es[i]) { return None; }
      var next := resolve(es[i]);
      var more := AddNames(next, seen, all, i);
      if more.None? { return None; }
      seen := more.value;
      resolved := resolved + [next];
    }
    assert all[..|es|] == all;
    r := Some(resolved);
  }

  // The end of recoverBuiltBinarySet: drop the journal.
  method Finish(fs: FileSystem) returns (ok: bool)
    modifies fs
    ensures Did(fs, FinishRun(old(fs.Now())), ok)
  {
    ok := fs.RemoveJournal();
  }

  method CommitSet(fs: FileSystem, rs: seq<Resolved>) returns (ok: bool)
    modifies fs
    ensures var r := CommitFrom(old(fs.Now()), rs, 0); Did(fs, Then(r, FinishRun(End(old(fs.Now()), r))), ok)
  {
    ghost var d, l := fs.Now(), fs.log;
    ghost var r1 := CommitFrom(d, rs, 0);
    ok := CommitAll(fs, rs);
    ghost var m, l1 := fs.Now(), fs.Since(l);
    ghost var r2 := FinishRun(End(d, r1));
    if !ok {
      FollowsStop(d, r1, l1, m, r2, fs.reliable);
      return;
    }
    ghost var l' := fs.log;
    ok := Finish(fs);
    FollowsThen(d, r1, l1, m, r2, fs.Since(l'), fs.Now(), ok, fs.reliable);
    assert fs.Since(l) == l1 + fs.Since(l');
  }

  // The last part of a rollback: look at the destinations, then drop the journal.
  function Closing(d: Disk, rs: seq<Resolved>): Run {
    if VerifiedFrom(d, rs, 0) then FinishRun(d) else Run([], false)
  }

  method Close(fs: FileSystem, rs: seq<Resolved>) returns (ok: bool)
    modifies fs
    ensures Did(fs, Closing(old(fs.Now()), rs), ok)
  {
    ok := VerifyRollback(fs, rs);
    if ok { ok := Finish(fs); }
  }

  method RollbackSet(fs: FileSystem, rs: seq<Resolved>) returns (ok: bool)
    modifies fs
    ensures var r := RollbackFrom(old(fs.Now()), rs, 0); Did(fs, Then(r, Closing(End(old(fs.Now()), r), rs)), ok)
  {
    ghost var d, l := fs.Now(), fs.log;
    ghost var r1 := RollbackFrom(d, rs, 0);
    ok := RollbackAll(fs, rs);
    ghost var m, l1 := fs.Now(), fs.Since(l);
    ghost var r2 := Closing(End(d, r1), rs);
    if !ok {
      FollowsStop(d, r1, l1, m, r2, fs.reliable);
      return;
    }
    ghost var l' := fs.log;
    ok := Close(fs, rs);
    FollowsThen(d, r1, l1, m, r2, fs.Since(l'), fs.Now(), ok, fs.reliable);
    assert fs.Since(l) == l1 + fs.Since(l');
  }

  method RecoverEntries(fs: FileSystem, rs: seq<Resolved>) returns (ok: bool)
    modifies fs
    ensures Did(fs, RecoverSet(old(fs.Now()), rs), ok)
  {
    var scan := ScanDestinations(fs, rs);
    match scan
    case Unreadable => ok := false;
    case AllCandidates => ok := CommitSet(fs, rs);
    case NotAll => ok := RollbackSet(fs, rs);
  }

  // recoverBuiltBinarySet
  method RecoverBuiltBinarySet(fs: FileSystem) returns (ok: bool)
    modifies fs
    ensures Did(fs, Recover(old(fs.Now())), ok)
  {
    match fs.journal
    case Absent => ok := true;
    case Unreadable => ok := false;
    case Written(st) =>
      var entries := ResolveState(st);
      if entries.None? { return false; }
      ok := RecoverEntries(fs, entries.value);
  }

  // The rename loop of installBuiltBinarySet, which stops at the first failure.
  method RenameOne(fs: FileSystem, e: Resolved) returns (ok: bool)
    modifies fs
    ensures Did(fs, RenameEntry(old(fs.Now()), e), ok)
    ensures fs.journal == old(fs.journal)
  {
    if e.had {
      ok := fs.Rename(e.dest, e.back);
      if !ok { return; }
    }
    ok := fs.Rename(e.temp, e.dest);
  }

  // One turn of the rename loop.
  method RenameTurn(fs: FileSystem, rs: seq<Resolved>, i: nat, ghost d: Disk, ghost l: seq<Disk>, ghost whole: Run)
    returns (ok: bool)
    requires i < |rs| && l <= fs.log && Continues(d, whole, fs.Since(l), fs.Now(), RenameFrom(fs.Now(), rs, i))
    modifies fs
    ensures l <= fs.log
    ensures ok ==> Continues(d, whole, fs.Since(l), fs.Now(), RenameFrom(fs.Now(), rs, i + 1))
    ensures !ok ==> Follows(d, whole, fs.Since(l), fs.Now(), false, fs.reliable)
  {
    ghost var now, l' := fs.Now(), fs.log;
    ghost var turn := RenameEntry(now, rs[i]);
    ghost var rest := RenameFrom(End(now, turn), rs, i + 1);
    ghost var done := fs.Since(l);
    ok := RenameOne(fs, rs[i]);
    assert fs.Since(l) == done + fs.Since(l');
    if ok {
      ContinuesThen(d, whole, done, now, turn, rest, fs.Since(l'), fs.Now(), fs.reliable);
    } else {
      ContinuesStop(d, whole, done, now, turn, rest, fs.Since(l'), fs.Now(), fs.reliable);
    }
  }

  method RenameAll(fs: FileSystem, rs: seq<Resolved>) returns (ok: bool)
    modifies fs
    ensures Did(fs, RenameFrom(old(fs.Now()), rs, 0), ok)
  {
    ghost var d, l := fs.Now(), fs.log;
    ghost var whole := RenameFrom(d, rs, 0);
    for i := 0 to |rs|
      invariant l <= fs.log
      invariant Continues(d, whole, fs.Since(l), fs.Now(), RenameFrom(fs.Now(), rs, i))
    {
      ok := RenameTurn(fs, rs, i, d, l, whole);
      if !ok { return; }
    }
    ok := true;
  }

  // The checks made on one target; inspecting and hashing may fail.
  method PlanOne(fs: FileSystem, t: Target, pid: Text, index: nat, seen: set<Name>) returns (plan: Option<Entry>)
    ensures fs.reliable || plan.Some? ==> plan == PlanTarget(fs.Now(), t, pid, index, seen)
  {
    plan := None;
    var temp := fs.Inspect(Lower(t.temporary));
    if temp.None? || !temp.value.Regular? || !t.contained { return; }
    var destinationKey := Lower(t.destination);
    if destinationKey in seen { return; }
    var dest := fs.Inspect(destinationKey);
    if dest.None? || dest.value.Irregular? { return; }
    var backup := BackupName(t.destination, pid, index);
    var taken := fs.Exists(Lower(backup));
    if taken != Some(false) { return; }
    var original := if dest.value.Regular? then dest.value.digest else [];
    plan := Some(Entry(t.destination, t.temporary, backup, dest.value.Regular?, original, temp.value.digest));
  }

  // The checks before the journal is written, with the destinations already seen.
  method PlanInstallation(fs: FileSystem, targets: seq<Target>, pid: Text) returns (plan: Option<seq<Entry>>)
    ensures fs.reliable || plan.Some? ==> plan == PlanFrom(fs.Now(), targets, pid, 0, {})
  {
    var seen: set<Name> := {};
    var entries: seq<Entry> := [];
    ghost var d := fs.Now();
    ghost var whole := PlanFrom(d, targets, pid, 0, {});
    PrependedStarts(whole);
    for i := 0 to |targets|
      invariant whole == Prepended(entries, PlanFrom(d, targets, pid, i, seen))
    {
      var e := PlanOne(fs, targets[i], pid, i, seen);
      if e.None? { return None; }
      PrependedStep(entries, e.value, PlanFrom(d, targets, pid, i + 1, seen + {Lower(targets[i].destination)}));
      entries := entries + [e.value];
      seen := seen + {Lower(targets[i].destination)};
    }
    plan := Some(entries);
    assert entries + [] == entries;
  }

  ghost function Prepended(done: seq<Entry>, rest: Option<seq<Entry>>): Option<seq<Entry>> {
    match rest
    case None => None
    case Some(es) => Some(done + es)
  }

  lemma PrependedStarts(rest: Option<seq<Entry>>)
    ensures Prepended([], rest) == rest
  {
    if rest.Some? { assert [] + rest.value == rest.value; }
  }

  lemma PrependedStep(done: seq<Entry>, e: Entry, rest: Option<seq<Entry>>)
    ensures Prepended(done, Prepended([e], rest)) == Prepended(done + [e], rest)
  {
    if rest.Some? { Associative(done, [e], rest.value); }
  }

  // The renames of a transaction and the recovery of what they left.
  datatype Parts = Parts(renames: seq<Disk>, renamed: bool, recovery: seq<Disk>, restored: bool)

  // Each part follows its run as far as it got; renames that fail are followed
  // by a recovery too, and the whole then fails whatever that achieves.
  ghost predicate Transacts(d: Disk, es: seq<Entry>, p: Parts, logged: seq<Disk>, after: Disk, ok: bool,
                            reliable: bool) {
    var n := End(d, Run(p.renames, true));
    && logged == p.renames + p.recovery
    && Follows(d, RenameFrom(d, ResolveAll(es), 0), p.renames, n, p.renamed, reliable)
    && Follows(n, Recover(n), p.recovery, after, p.restored, reliable)
    && ok == (p.renamed && p.restored)
  }

  lemma TransactsReliably(d: Disk, es: seq<Entry>, p: Parts, logged: seq<Disk>, after: Disk, ok: bool)
    requires Transacts(d, es, p, logged, after, ok, true)
    ensures Transaction(d, es) == Run(logged, ok)
  {
  }

  method Transact(fs: FileSystem, es: seq<Entry>) returns (ok: bool, ghost p: Parts)
    modifies fs
    ensures old(fs.log) <= fs.log
    ensures Transacts(old(fs.Now()), es, p, fs.Since(old(fs.log)), fs.Now(), ok, fs.reliable)
  {
    ghost var d, l := fs.Now(), fs.log;
    var renamed := RenameAll(fs, ResolveAll(es));
    ghost var l' := fs.log;
    var restored := RecoverBuiltBinarySet(fs);
    SinceSplits(l, l', fs.log);
    p := Parts(l'[|l|..], renamed, fs.Since(l'), restored);
    ok := renamed && restored;
  }

  lemma SinceSplits(l: seq<Disk>, m: seq<Disk>, n: seq<Disk>)
    requires l <= m <= n
    ensures n[|l|..] == m[|l|..] + n[|m|..]
  {
  }

  // `p` is None when the journal was not written.
  ghost predicate Installs(d: Disk, targets: seq<Target>, pid: Text, p: Option<Parts>,
                           logged: seq<Disk>, after: Disk, ok: bool, reliable: bool)
  {
    var plan := PlanFrom(d, targets, pid, 0, {});
    match p
    case None => logged == [] && after == d && !ok && (reliable ==> plan.None?)
    case Some(parts) =>
      && plan.Some? && logged != [] && logged[0] == Journaled(d, plan.value)
      && Transacts(logged[0], plan.value, parts, logged[1..], after, ok, reliable)
  }

  lemma JournaledReliably(d: Disk, es: seq<Entry>, p: Parts, logged: seq<Disk>, after: Disk, ok: bool)
    requires logged != [] && logged[0] == d && Transacts(d, es, p, logged[1..], after, ok, true)
    ensures var t := Transaction(d, es); Run([d] + t.steps, t.ok) == Run(logged, ok)
  {
    TransactsReliably(d, es, p, logged[1..], after, ok);
    FirstLogged(d, logged, Transaction(d, es), ok);
  }

  lemma FirstLogged(d: Disk, logged: seq<Disk>, t: Run, ok: bool)
    requires logged != [] && logged[0] == d && t == Run(logged[1..], ok)
    ensures Run([d] + t.steps, t.ok) == Run(logged, ok)
  {
    assert logged == [d] + logged[1..];
  }

  // Undisturbed, that is the run of InstallModel.
  lemma InstallsReliably(d: Disk, targets: seq<Target>, pid: Text, p: Option<Parts>, logged: seq<Disk>, after: Disk,
                         ok: bool)
    requires Installs(d, targets, pid, p, logged, after, ok, true)
    ensures InstallFresh(d, targets, pid) == Run(logged, ok)
  {
    if p.Some? {
      JournaledReliably(logged[0], PlanFrom(d, targets, pid, 0, {}).value, p.value, logged, after, ok);
    }
  }

  // installBuiltBinarySet from its checks on.
  method InstallChecked(fs: FileSystem, targets: seq<Target>, pid: Text) returns (ok: bool, ghost p: Option<Parts>)
    modifies fs
    ensures old(fs.log) <= fs.log
    ensures Installs(old(fs.Now()), targets, pid, p, fs.Since(old(fs.log)), fs.Now(), ok, fs.reliable)
  {
    p := None;
    var plan := PlanInstallation(fs, targets, pid);
    if plan.None? { return false, p; }
    ghost var l := fs.log;
    ok := fs.WriteJournal(State(SCHEMA, plan.value));
    if !ok { return; }
    ghost var parts;
    ok, parts := Transact(fs, plan.value);
    p := Some(parts);
    LogSplits(l, fs.log);
  }

  lemma LogSplits(l: seq<Disk>, log: seq<Disk>)
    requires |l| < |log|
    ensures log[|l|..][0] == log[|l|] && log[|l|..][1..] == log[|l| + 1..]
  {
  }

  // installBuiltBinarySet: a pending installation is recovered first, and
  // nothing is installed if that fails.
  method InstallBuiltBinarySet(fs: FileSystem, targets: seq<Target>, pid: Text)
    returns (ok: bool, ghost previous: seq<Disk>, ghost cleared: bool, ghost p: Option<Parts>)
    modifies fs
    ensures old(fs.log) + previous <= fs.log
    ensures targets == [] ==> !ok && fs.log == old(fs.log) && fs.Now() == old(fs.Now())
    ensures targets != [] ==>
              var d := old(fs.Now());
              var m := End(d, Run(previous, true));
              var run := if d.journal.Absent? then Run([], true) else Recover(d);
              && Follows(d, run, previous, m, cleared, fs.reliable)
              && (if cleared then
                    Installs(m, targets, pid, p, fs.Since(old(fs.log) + previous), fs.Now(), ok, fs.reliable)
                  else !ok && fs.log == old(fs.log) + previous && fs.Now() == m)
  {
    previous, cleared, p := [], true, None;
    if targets == [] { return false, previous, cleared, p; }
    ok, previous := ClearPending(fs);
    cleared := ok;
    if !ok { return; }
    ok, p := InstallChecked(fs, targets, pid);
  }

  method ClearPending(fs: FileSystem) returns (ok: bool, ghost previous: seq<Disk>)
    modifies fs
    ensures fs.log == old(fs.log) + previous && fs.Now() == End(old(fs.Now()), Run(previous, true))
    ensures var d := old(fs.Now());
            Follows(d, if d.journal.Absent? then Run([], true) else Recover(d), previous, fs.Now(), ok, fs.reliable)
  {
    ok, previous := true, [];
    if fs.journal.Absent? { return; }
    ghost var l := fs.log;
    ok := RecoverBuiltBinarySet(fs);
    previous := fs.Since(l);
  }
}
