// Crashes and refusals of a whole installation: when every crash is survived,
// and exactly which installations leave a journal no recovery accepts
// (control/binary_install.go, installBuiltBinarySet).
module InstallCrashes {
  import opened Sequences
  import opened Text
  import opened Wrappers
  import opened InstallModel
  import opened InstallProofs
  import opened InstallAtomicity
  import opened InstallOutcome
  import opened InstallRecovery

  // ---- The states of an undisturbed installation ----

  predicate DanglingAt(d: Disk, name: Name) {
    name in d.files && d.files[name].Dangling?
  }

  predicate NoDanglingDestination(d: Disk, targets: seq<Target>) {
    forall i :: 0 <= i < |targets| ==> !DanglingAt(d, Lower(targets[i].destination))
  }

  function Entries(d: Disk, targets: seq<Target>, pid: Text): (rs: seq<Resolved>)
    ensures |rs| == |targets|
  {
    ResolveAll(Planned(d, targets, pid))
  }

  function JournaledDisk(d: Disk, targets: seq<Target>, pid: Text): Disk {
    Journaled(d, Planned(d, targets, pid))
  }

  lemma StartableIsInitial(d: Disk, j: Disk, e: Resolved)
    requires Startable(d, e) && !DanglingAt(d, e.dest) && j.files == d.files
    ensures Initial(j, e)
  {
  }

  // The journal of an acceptable set without dangling destinations is one that
  // the crash theorem starts from.
  lemma AcceptableIsReady(d: Disk, targets: seq<Target>, pid: Text)
    requires Acceptable(d, targets, pid) && NoDanglingDestination(d, targets)
    ensures Ready(JournaledDisk(d, targets, pid), Entries(d, targets, pid))
  {
    AcceptableResolves(d, targets, pid);
    var rs, j := Entries(d, targets, pid), JournaledDisk(d, targets, pid);
    forall i | 0 <= i < |rs| ensures Initial(j, rs[i]) {
      assert TargetAcceptable(d, targets[i], pid, i);
      PlannedEntryStartable(d, targets[i], pid, i);
      StartableIsInitial(d, j, rs[i]);
    }
  }

  // The journal, the renames, then the recovery that commits them.
  lemma InstallSteps(d: Disk, targets: seq<Target>, pid: Text)
    requires d.journal == Absent && Acceptable(d, targets, pid)
    ensures var j, rs := JournaledDisk(d, targets, pid), Entries(d, targets, pid);
            var renames := RenameFrom(j, rs, 0);
            && DistinctNames(rs)
            && Install(d, targets, pid).steps == [j] + (renames.steps + RecoverKnown(End(j, renames), rs).steps)
  {
    AcceptablePlans(d, targets, pid, 0, {});
    PlanIsPlanned(d, targets, pid);
    AcceptableResolves(d, targets, pid);
    InstallIs(d, targets, pid, Planned(d, targets, pid));
    TransactionIs(JournaledDisk(d, targets, pid), Planned(d, targets, pid));
  }

  // Where its renames end, every candidate is in place.
  lemma RenamedIsCommittable(d: Disk, targets: seq<Target>, pid: Text)
    requires Acceptable(d, targets, pid)
    ensures var j, rs := JournaledDisk(d, targets, pid), Entries(d, targets, pid);
            var m := End(j, RenameFrom(j, rs, 0));
            AllCommittable(m, rs) && m.journal == j.journal
  {
    var j, rs := JournaledDisk(d, targets, pid), Entries(d, targets, pid);
    AcceptableStarts(d, targets, pid);
    RenamesInstall(j, rs, 0);
    InstalledIsCommittable(End(j, RenameFrom(j, rs, 0)), rs);
  }

  lemma CommittingHoldsCandidates(s: Disk, rs: seq<Resolved>)
    requires InProgress(s, rs, Candidates)
    ensures FateOf(s, rs) == Candidates
  {
    forall i | 0 <= i < |rs| ensures Holds(s, rs[i].dest, rs[i].candidate) {
      assert if s.journal == Absent then Committed(s, rs[i]) else Committable(s, rs[i]);
    }
  }

  // Every state of it is one that recovery finishes, as decided by whether all
  // candidates are in place there.
  lemma InstallTracked(d: Disk, targets: seq<Target>, pid: Text, s: Disk)
    requires d.journal == Absent && Acceptable(d, targets, pid) && NoDanglingDestination(d, targets)
    requires s in Install(d, targets, pid).steps
    ensures var rs := Entries(d, targets, pid);
            Tracked(s, State(SCHEMA, Planned(d, targets, pid)), rs, FateOf(s, rs))
  {
    var j, rs := JournaledDisk(d, targets, pid), Entries(d, targets, pid);
    var renames := RenameFrom(j, rs, 0);
    var m := End(j, renames);
    InstallSteps(d, targets, pid);
    if s == j || s in renames.steps {
      AcceptableIsReady(d, targets, pid);
      CutOffDecides(j, rs, s);
    } else {
      RenamedIsCommittable(d, targets, pid);
      KnownStays(m, rs, Candidates, s);
      CommittingHoldsCandidates(s, rs);
    }
  }

  // ---- Which installations survive every crash ----

  // One complete recovery after all of them settles the set, without an error,
  // a journal, a temporary or a backup; the first state decides which way.
  ghost predicate Recovers(ds: seq<Disk>, rs: seq<Resolved>)
    requires ds != []
  {
    var last := ds[|ds| - 1];
    var r := Recover(last);
    r.ok && End(last, r).journal == Absent && Settled(End(last, r), rs, FateOf(ds[0], rs))
  }

  // Cut off anywhere from its journal on, and then any number of recoveries
  // anywhere.
  ghost predicate Crashes(ds: seq<Disk>, d: Disk, targets: seq<Target>, pid: Text) {
    Recoveries(ds) && ds[0] in Install(d, targets, pid).steps
  }

  lemma PlainSurvives(d: Disk, targets: seq<Target>, pid: Text, ds: seq<Disk>)
    requires d.journal == Absent && Acceptable(d, targets, pid) && NoDanglingDestination(d, targets)
    requires Crashes(ds, d, targets, pid)
    ensures Recovers(ds, Entries(d, targets, pid))
  {
    AcceptableResolves(d, targets, pid);
    InstallTracked(d, targets, pid, ds[0]);
    TrackedRecovers(ds, State(SCHEMA, Planned(d, targets, pid)), Entries(d, targets, pid));
  }

  lemma TrackedRecovers(ds: seq<Disk>, st: State, rs: seq<Resolved>)
    requires Recoveries(ds) && Resolve(st) == Some(rs) && Tracked(ds[0], st, rs, FateOf(ds[0], rs))
    ensures Recovers(ds, rs)
  {
    var fate, last := FateOf(ds[0], rs), ds[|ds| - 1];
    RecoveriesStay(ds, st, rs, fate);
    ResolvedRecovery(last, st, rs);
    KnownRuns(last, rs, fate);
  }

  lemma DanglingStops(d: Disk, e: Resolved)
    requires OwnNamesDistinct(e) && DanglingAt(d, e.dest)
    ensures RollbackEntry(d, e) == Run([], false)
  {
  }

  ghost predicate StillDangling(steps: seq<Disk>, name: Name, journal: Journal) {
    forall s :: s in steps ==> DanglingAt(s, name) && s.journal == journal
  }

  lemma RollbackPasses(d: Disk, rs: seq<Resolved>, i: nat, k: nat)
    requires DistinctNames(rs) && i < k < |rs| && DanglingAt(d, rs[k].dest)
    ensures var r := RollbackEntry(d, rs[i]);
            && StillDangling(r.steps, rs[k].dest, d.journal)
            && DanglingAt(End(d, r), rs[k].dest) && End(d, r).journal == d.journal
  {
    var r := RollbackEntry(d, rs[i]);
    RollbackEntryStays(d, rs[i]);
    forall s | s in r.steps ensures DanglingAt(s, rs[k].dest) && s.journal == d.journal {
      SameOutsideKeepsNode(d, s, rs, i, k);
      assert rs[k].dest in NamesOf(rs[k]);
    }
    EndKeepsInSteps(d, r);
  }

  // A destination that is no regular file stops every rollback and stays.
  lemma {:induction false} RollbackBlocked(d: Disk, rs: seq<Resolved>, i: nat, k: nat)
    requires DistinctNames(rs) && i <= k < |rs| && DanglingAt(d, rs[k].dest)
    ensures var r := RollbackFrom(d, rs, i); !r.ok && StillDangling(r.steps, rs[k].dest, d.journal)
    decreases |rs| - i
  {
    var r := RollbackEntry(d, rs[i]);
    if i == k {
      DanglingStops(d, rs[i]);
    } else {
      RollbackPasses(d, rs, i, k);
      if r.ok { RollbackBlocked(End(d, r), rs, i + 1, k); }
    }
  }

  ghost predicate Blocked(s: Disk, st: State, name: Name) {
    s.journal == Written(st) && DanglingAt(s, name)
  }

  lemma BlockedSet(d: Disk, rs: seq<Resolved>, k: nat, r: Run)
    requires DistinctNames(rs) && k < |rs| && DanglingAt(d, rs[k].dest) && r == RecoverSet(d, rs)
    ensures !r.ok && StillDangling(r.steps, rs[k].dest, d.journal)
  {
    ScanMeaning(d, rs, 0);
    assert !Holds(d, rs[k].dest, rs[k].candidate);
    RollbackBlocked(d, rs, 0, k);
  }

  lemma BlockedIsRefused(d: Disk, st: State, rs: seq<Resolved>, k: nat)
    requires Resolve(st) == Some(rs) && k < |rs| && Blocked(d, st, rs[k].dest)
    ensures !Recover(d).ok
    ensures forall s :: CutRecovery(d, s) ==> Blocked(s, st, rs[k].dest)
  {
    RecoverIsSet(d, rs);
    BlockedSet(d, rs, k, Recover(d));
  }

  // Cut off right after the journal, such an installation is refused for good.
  lemma DanglingStrands(d: Disk, targets: seq<Target>, pid: Text, k: nat, ds: seq<Disk>)
    requires d.journal == Absent && Acceptable(d, targets, pid)
    requires k < |targets| && DanglingAt(d, Lower(targets[k].destination))
    requires Recoveries(ds) && ds[0] == JournaledDisk(d, targets, pid)
    ensures !Recover(ds[|ds| - 1]).ok
  {
    var rs, st := Entries(d, targets, pid), State(SCHEMA, Planned(d, targets, pid));
    AcceptableResolves(d, targets, pid);
    var inv := (s: Disk) => Blocked(s, st, rs[k].dest);
    forall m, s | inv(m) && CutRecovery(m, s) ensures inv(s) {
      BlockedIsRefused(m, st, rs, k);
    }
    RecoveriesKeep(ds, inv);
    BlockedIsRefused(ds[|ds| - 1], st, rs, k);
  }

  lemma CutAtJournal(d: Disk, targets: seq<Target>, pid: Text)
    requires d.journal == Absent && Acceptable(d, targets, pid)
    ensures Crashes([JournaledDisk(d, targets, pid)], d, targets, pid)
  {
    InstallSteps(d, targets, pid);
  }

  ghost predicate SurvivesCrashes(d: Disk, targets: seq<Target>, pid: Text) {
    forall ds :: Crashes(ds, d, targets, pid) ==> Recovers(ds, Entries(d, targets, pid))
  }

  // Main result.  Cut an installation of an acceptable set off anywhere, then
  // any number of recoveries anywhere: one complete recovery always ends with
  // every candidate or every original in place if and only if no destination is
  // a dangling link, which the installation takes for a missing file and the
  // recovery for a foreign one.
  lemma CrashAtomicIff(d: Disk, targets: seq<Target>, pid: Text)
    requires d.journal == Absent && Acceptable(d, targets, pid)
    ensures SurvivesCrashes(d, targets, pid) <==> NoDanglingDestination(d, targets)
  {
    if NoDanglingDestination(d, targets) {
      forall ds | Crashes(ds, d, targets, pid) ensures Recovers(ds, Entries(d, targets, pid)) {
        PlainSurvives(d, targets, pid, ds);
      }
    } else {
      var k :| 0 <= k < |targets| && DanglingAt(d, Lower(targets[k].destination));
      DanglingFails(d, targets, pid, k);
    }
  }

  lemma DanglingFails(d: Disk, targets: seq<Target>, pid: Text, k: nat)
    requires d.journal == Absent && Acceptable(d, targets, pid)
    requires k < |targets| && DanglingAt(d, Lower(targets[k].destination))
    ensures !SurvivesCrashes(d, targets, pid)
  {
    CutAtJournal(d, targets, pid);
    DanglingStrands(d, targets, pid, k, [JournaledDisk(d, targets, pid)]);
  }

  // ---- Which installations strand without a crash ----

  // The entries of a commit that went through have nothing left to remove.
  lemma CommitEntryAgain(d: Disk, e: Resolved)
    requires OwnNamesDistinct(e)
    ensures var r := CommitEntry(d, e); CommitEntry(End(d, r), e) == Run([], r.ok)
  {
  }

  lemma CommitEntryLooksAtNames(d: Disk, s: Disk, e: Resolved)
    requires Apart(d, s, e) && CommitEntry(d, e).steps == []
    ensures CommitEntry(s, e) == CommitEntry(d, e)
  {
  }

  // What a commit has done by the time it is refused, it need not do again.
  lemma {:induction false} CommitRefusedAgain(d: Disk, rs: seq<Resolved>, i: nat)
    requires DistinctNames(rs) && i <= |rs| && !CommitFrom(d, rs, i).ok
    ensures CommitFrom(End(d, CommitFrom(d, rs, i)), rs, i) == Run([], false)
    ensures forall j :: 0 <= j < i ==> Apart(d, End(d, CommitFrom(d, rs, i)), rs[j])
    decreases |rs| - i
  {
    var r := CommitEntry(d, rs[i]);
    var m := End(d, r);
    CommitEntryAgain(d, rs[i]);
    CommitEntryKeeps(d, rs[i]);
    EndKeepsInSteps(d, r);
    forall j | 0 <= j < i ensures Apart(d, m, rs[j]) {
      if m != d { OtherEntryApart(d, m, rs, i, j); }
    }
    if r.ok {
      CommitRefusedAgain(m, rs, i + 1);
      var last := End(m, CommitFrom(m, rs, i + 1));
      assert Apart(m, last, rs[i]);
      CommitEntryLooksAtNames(m, last, rs[i]);
      ThenEnd(d, r, CommitFrom(m, rs, i + 1));
    }
  }

  // A refused recovery of a set whose destinations all hold candidates or links
  // is refused again, and changes nothing more.
  lemma RefusedAgain(m: Disk, rs: seq<Resolved>)
    requires DistinctNames(rs) && !RecoverSet(m, rs).ok
    requires forall k :: 0 <= k < |rs| ==> Lstat(m, rs[k].dest).Irregular? || Holds(m, rs[k].dest, rs[k].candidate)
    ensures var last := End(m, RecoverSet(m, rs)); RecoverSet(last, rs) == Run([], false) && last.journal == m.journal
  {
    if AllHoldCandidates(m, rs) {
      ScanMeaning(m, rs, 0);
      CommitRefusedAgain(m, rs, 0);
      var r := CommitFrom(m, rs, 0);
      EndKeepsInSteps(m, r);
      if End(m, r) != m { CommitKeeps(m, rs, 0, End(m, r)); }
      ScanMeaning(End(m, r), rs, 0);
    } else {
      var k :| 0 <= k < |rs| && !Holds(m, rs[k].dest, rs[k].candidate);
      ScanSeesLinks(m, rs, 0, k);
    }
  }

  ghost predicate Movable(d: Disk, e: Resolved) {
    e.temp in d.files && (e.had ==> e.dest in d.files)
  }

  lemma {:induction false} RenamesRun(d: Disk, rs: seq<Resolved>, i: nat)
    requires DistinctNames(rs) && i <= |rs| && forall j :: i <= j < |rs| ==> Movable(d, rs[j])
    ensures RenameFrom(d, rs, i).ok
    decreases |rs| - i
  {
    if i < |rs| {
      var m := End(d, RenameEntry(d, rs[i]));
      assert RenameEntry(d, rs[i]).ok;
      RenameEntryPlaces(d, rs[i]);
      forall j | i + 1 <= j < |rs| ensures Movable(m, rs[j]) {
        assert Movable(d, rs[j]);
        SameOutsideKeepsNode(d, m, rs, i, j);
        assert rs[j].dest in NamesOf(rs[j]) && rs[j].temp in NamesOf(rs[j]);
      }
      RenamesRun(m, rs, i + 1);
    }
  }

  lemma PlannedMovable(d: Disk, targets: seq<Target>, pid: Text)
    requires AllPlanAs(d, targets, pid)
    ensures var rs := Entries(d, targets, pid);
            forall k :: 0 <= k < |rs| ==> Movable(JournaledDisk(d, targets, pid), rs[k])
  {
    var rs := Entries(d, targets, pid);
    forall k | 0 <= k < |rs| ensures Movable(JournaledDisk(d, targets, pid), rs[k]) {
      assert PlansAs(d, targets[k], pid, k, Planned(d, targets, pid)[k]);
    }
  }

  // Where the renames of a plan that resolves end.
  lemma PlanRenames(d: Disk, targets: seq<Target>, pid: Text)
    requires AllPlanAs(d, targets, pid) && DistinctNames(Entries(d, targets, pid))
    ensures var j, rs := JournaledDisk(d, targets, pid), Entries(d, targets, pid);
            var m := End(j, RenameFrom(j, rs, 0));
            && RenameFrom(j, rs, 0).ok && AllPlaced(d, m, rs) && m.journal == j.journal
            && forall k :: 0 <= k < |rs| ==> Lstat(m, rs[k].dest).Irregular? || Holds(m, rs[k].dest, rs[k].candidate)
  {
    var j, rs := JournaledDisk(d, targets, pid), Entries(d, targets, pid);
    PlannedMovable(d, targets, pid);
    RenamesRun(j, rs, 0);
    JournaledPlaces(d, Planned(d, targets, pid), rs);
    RenamesKeepJournal(j, rs, 0);
    var m := End(j, RenameFrom(j, rs, 0));
    forall k | 0 <= k < |rs| ensures Lstat(m, rs[k].dest).Irregular? || Holds(m, rs[k].dest, rs[k].candidate) {
      assert PlansAs(d, targets[k], pid, k, Planned(d, targets, pid)[k]) && Placed(d, m, rs[k]);
      PlacedIsCandidateOrLink(d, targets, pid, m, k);
    }
  }

  predicate AllWellFormed(es: seq<Entry>) {
    forall j :: 0 <= j < |es| ==> WellFormedEntry(es[j])
  }

  lemma ResolvableMeans(es: seq<Entry>)
    requires Resolvable(State(SCHEMA, es))
    ensures 0 < |es| <= MAX_ENTRIES && AllWellFormed(es) && DistinctNames(ResolveAll(es))
  {
    AllFromMeans(es, WellFormedEntry, 0);
  }

  lemma RecoveredWasAcceptable(d: Disk, targets: seq<Target>, pid: Text, m: Disk)
    requires 0 < |targets| <= MAX_ENTRIES && AllPlanAs(d, targets, pid)
    requires AllWellFormed(Planned(d, targets, pid)) && DistinctNames(Entries(d, targets, pid))
    requires AllPlaced(d, m, Entries(d, targets, pid)) && RecoverSet(m, Entries(d, targets, pid)).ok
    ensures Acceptable(d, targets, pid)
  {
    forall j | 0 <= j < |targets| ensures TargetAcceptable(d, targets[j], pid, j) {
      RecoveredWasPlain(d, targets, pid, m, j);
    }
  }

  ghost predicate Stranded(d: Disk, targets: seq<Target>, pid: Text) {
    var r := Install(d, targets, pid);
    !r.ok && End(d, r).journal.Written? && Recover(End(d, r)) == Run([], false)
  }

  lemma ResolvableStrands(d: Disk, targets: seq<Target>, pid: Text)
    requires d.journal == Absent && targets != [] && PlanFrom(d, targets, pid, 0, {}).Some?
    requires Resolvable(State(SCHEMA, Planned(d, targets, pid))) && !Acceptable(d, targets, pid)
    ensures Stranded(d, targets, pid)
  {
    var es, rs, j := Planned(d, targets, pid), Entries(d, targets, pid), JournaledDisk(d, targets, pid);
    var m := End(j, RenameFrom(j, rs, 0));
    PlanIsPlanned(d, targets, pid);
    PlanAllAs(d, targets, pid);
    PlanRenames(d, targets, pid);
    ResolvableMeans(es);
    if RecoverSet(m, rs).ok { RecoveredWasAcceptable(d, targets, pid, m); }
    RefusedAgain(m, rs);
    InstallEnds(d, targets, pid, es, j, m);
    ResolvedRecovery(End(m, RecoverSet(m, rs)), State(SCHEMA, es), rs);
  }

  // Main result: a set that passes the checks made before the journal is
  // written, but is not acceptable, leaves a journal that every recovery refuses
  // without a change; no other set leaves one.
  lemma StrandsIff(d: Disk, targets: seq<Target>, pid: Text)
    requires d.journal == Absent && targets != []
    ensures End(d, Install(d, targets, pid)).journal.Written? <==>
              PlanFrom(d, targets, pid, 0, {}).Some? && !Acceptable(d, targets, pid)
    ensures End(d, Install(d, targets, pid)).journal.Written? ==> Stranded(d, targets, pid)
  {
    if Acceptable(d, targets, pid) {
      AcceptableInstalls(d, targets, pid);
    } else if PlanFrom(d, targets, pid, 0, {}).Some? {
      if Resolvable(State(SCHEMA, Planned(d, targets, pid))) {
        ResolvableStrands(d, targets, pid);
      } else {
        UnresolvableStrands(d, targets, pid);
      }
    }
  }

  // ---- With an installation pending ----

  lemma PendingRun(d: Disk, targets: seq<Target>, pid: Text)
    requires targets != []
    ensures var first := Recover(d);
            var m := End(d, first);
            Install(d, targets, pid) == Then(first, InstallFresh(m, targets, pid))
  {
  }

  lemma FreshRun(d: Disk, targets: seq<Target>, pid: Text)
    requires targets != [] && d.journal == Absent
    ensures Install(d, targets, pid) == InstallFresh(d, targets, pid)
  {
    assert [] + InstallFresh(d, targets, pid).steps == InstallFresh(d, targets, pid).steps;
  }

  // On every disk: whatever is pending is recovered first, nothing is installed
  // if that fails, and the set has to be acceptable on the disk it leaves.
  lemma InstallIff(d: Disk, targets: seq<Target>, pid: Text)
    requires targets != []
    ensures var m := End(d, Recover(d));
            Install(d, targets, pid).ok <==> Recover(d).ok && Acceptable(m, targets, pid)
    ensures !Recover(d).ok ==> Install(d, targets, pid) == Recover(d)
    ensures Install(d, targets, pid).ok ==>
              var s := End(d, Install(d, targets, pid));
              s.journal == Absent && AllCommitted(s, Entries(End(d, Recover(d)), targets, pid))
  {
    var first, m := Recover(d), End(d, Recover(d));
    PendingRun(d, targets, pid);
    RecoverIff(d);
    if first.ok {
      FreshRun(m, targets, pid);
      InstallSucceedsIff(m, targets, pid);
      ThenEnd(d, first, InstallFresh(m, targets, pid));
    }
  }

  // ---- A disk that shows the first ----

  // Target "a", built into "t", where "a" is a link to nothing.
  function LinkedDisk(): Disk {
    Disk(map[[97] := Dangling, [116] := File(Repeated(50))], Absent)
  }

  function LinkedTargets(): seq<Target> {
    [Target([97], [116], true)]
  }

  // "a.previous-1-0"
  const LINKED_BACKUP: Text := [97, 46, 112, 114, 101, 118, 105, 111, 117, 115, 45, 49, 45, 48]

  lemma LinkedBackup()
    ensures BackupName([97], [49], 0) == LINKED_BACKUP && Lower(LINKED_BACKUP) == LINKED_BACKUP
  {
    assert BackupName([97], [49], 0) == LINKED_BACKUP;
    assert forall i :: 0 <= i < |LINKED_BACKUP| ==> LowerByte(LINKED_BACKUP[i]) == LINKED_BACKUP[i];
  }

  lemma SafeNameIf(t: Text)
    requires |t| > 0 && t != [46] && t != [46, 46] && Trimmed(t) && forall i :: 0 <= i < |t| ==> IsNameByte(t[i])
    ensures SafeName(t)
  {
    AllFromMeans(t, IsNameByte, 0);
  }

  lemma LinkedNamesSafe()
    ensures SafeName([97]) && SafeName([116]) && SafeName(LINKED_BACKUP)
  {
    SafeNameIf([97]);
    SafeNameIf([116]);
    SafeNameIf(LINKED_BACKUP);
  }

  // The target's entry, as planned on that disk.
  lemma LinkedEntry()
    ensures var e := PlannedEntry(LinkedDisk(), LinkedTargets()[0], [49], 0);
            var x := ResolveEntry(e);
            && e.backup == LINKED_BACKUP && Stat(LinkedDisk(), [116]) == Regular(Repeated(50))
            && x.dest == [97] && x.temp == [116] && x.back == LINKED_BACKUP && !x.had
  {
    LowerLetters();
    LinkedBackup();
  }

  lemma OneEntryDistinct(e: Resolved)
    requires OwnNamesDistinct(e)
    ensures DistinctNames([e])
  {
  }

  lemma DanglingAcceptable()
    ensures Acceptable(LinkedDisk(), LinkedTargets(), [49])
    ensures Entries(LinkedDisk(), LinkedTargets(), [49])[0].dest == [97]
  {
    var d := LinkedDisk();
    LowerLetters();
    LinkedBackup();
    LinkedNamesSafe();
    assert TargetAcceptable(d, LinkedTargets()[0], [49], 0);
    LinkedEntry();
    var e := ResolveEntry(PlannedEntry(d, LinkedTargets()[0], [49], 0));
    assert Entries(d, LinkedTargets(), [49]) == [e];
    OneEntryDistinct(e);
  }

  lemma FirstLinkRefused(d: Disk, st: State, rs: seq<Resolved>)
    requires d.journal == Written(st) && Resolve(st) == Some(rs) && rs != [] && Lstat(d, rs[0].dest).Irregular?
    ensures Recover(d) == Run([], false)
  {
  }

  lemma DanglingFirst(d: Disk, targets: seq<Target>, pid: Text)
    requires d.journal == Absent && Acceptable(d, targets, pid) && DanglingAt(d, Lower(targets[0].destination))
    ensures var r := Install(d, targets, pid); r.ok && r.steps != [] && Recover(r.steps[0]) == Run([], false)
  {
    AcceptableInstalls(d, targets, pid);
    InstallSteps(d, targets, pid);
    AcceptableResolves(d, targets, pid);
    FirstLinkRefused(JournaledDisk(d, targets, pid), State(SCHEMA, Planned(d, targets, pid)), Entries(d, targets, pid));
  }

  // Over a dangling link an undisturbed installation succeeds; cut off after its
  // journal it is refused.
  lemma DanglingDisk() returns (d: Disk, targets: seq<Target>, pid: Text)
    ensures d == LinkedDisk() && targets == LinkedTargets() && pid == [49]
    ensures var r := Install(d, targets, pid); r.ok && r.steps != [] && Recover(r.steps[0]) == Run([], false)
  {
    d, targets, pid := LinkedDisk(), LinkedTargets(), [49];
    LowerLetters();
    DanglingAcceptable();
    DanglingFirst(d, targets, pid);
  }

  // Over a link to a file the installation strands, although its journal resolves.
  lemma LinkStrands(d: Disk, targets: seq<Target>, pid: Text, k: nat)
    requires d.journal == Absent && PlanFrom(d, targets, pid, 0, {}).Some?
    requires k < |targets| && var name := Lower(targets[k].destination); name in d.files && d.files[name].Link?
    ensures Stranded(d, targets, pid)
  {
    assert !TargetAcceptable(d, targets[k], pid, k);
    StrandsIff(d, targets, pid);
  }
}
