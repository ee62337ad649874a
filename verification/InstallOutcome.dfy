// Exactly when an undisturbed installation succeeds, and what it leaves behind
// when it does not.
module InstallOutcome {
  import opened Sequences
  import opened Text
  import opened Wrappers
  import opened InstallModel
  import opened InstallProofs
  import opened InstallAtomicity

  // ---- What a caller can check beforehand ----

  // The built file is a regular file; what it replaces is a regular file or
  // does not exist (a dangling link counts as nothing); the names are plain and
  // the backup name is free.
  predicate TargetAcceptable(d: Disk, t: Target, pid: Text, index: nat) {
    var dest := Lower(t.destination);
    var backup := BackupName(t.destination, pid, index);
    && t.contained
    && SafeName(t.destination) && SafeName(t.temporary) && SafeName(backup)
    && Lstat(d, Lower(t.temporary)).Regular?
    && (dest in d.files ==> d.files[dest].File? || d.files[dest].Dangling?)
    && Lower(backup) !in d.files
  }

  function PlannedEntry(d: Disk, t: Target, pid: Text, index: nat): Entry {
    var temp := Stat(d, Lower(t.temporary));
    var dest := Stat(d, Lower(t.destination));
    Entry(t.destination, t.temporary, BackupName(t.destination, pid, index), dest.Regular?,
          if dest.Regular? then dest.digest else [], if temp.Regular? then temp.digest else [])
  }

  function Planned(d: Disk, targets: seq<Target>, pid: Text): (es: seq<Entry>)
    ensures |es| == |targets|
  {
    seq(|targets|, i requires 0 <= i < |targets| => PlannedEntry(d, targets[i], pid, i))
  }

  // At most sixteen acceptable targets, no two of whose names coincide.
  predicate Acceptable(d: Disk, targets: seq<Target>, pid: Text) {
    && 0 < |targets| <= MAX_ENTRIES
    && (forall i :: 0 <= i < |targets| ==> TargetAcceptable(d, targets[i], pid, i))
    && DistinctNames(ResolveAll(Planned(d, targets, pid)))
  }

  // ---- Planning ----

  predicate PlansAs(d: Disk, t: Target, pid: Text, index: nat, e: Entry) {
    PlanTarget(d, t, pid, index, {}) == Some(e)
  }

  lemma {:induction false} PlanMeans(d: Disk, targets: seq<Target>, pid: Text, i: nat, seen: set<Name>)
    requires i <= |targets| && PlanFrom(d, targets, pid, i, seen).Some?
    ensures var es := PlanFrom(d, targets, pid, i, seen).value;
            forall k :: i <= k < |targets| ==> PlansAs(d, targets[k], pid, k, es[k - i])
    decreases |targets| - i
  {
    if i < |targets| {
      var es := PlanFrom(d, targets, pid, i, seen).value;
      var rest := seen + {Lower(targets[i].destination)};
      PlanMeans(d, targets, pid, i + 1, rest);
      assert es[0] == PlanTarget(d, targets[i], pid, i, seen).value;
      assert es[1..] == PlanFrom(d, targets, pid, i + 1, rest).value;
      forall k | i <= k < |targets|
        ensures PlansAs(d, targets[k], pid, k, es[k - i])
      {
        if k > i { assert es[k - i] == es[1..][k - i - 1]; }
      }
    }
  }

  // The journal describes exactly what was found.
  lemma PlanIsPlanned(d: Disk, targets: seq<Target>, pid: Text)
    requires PlanFrom(d, targets, pid, 0, {}).Some?
    ensures PlanFrom(d, targets, pid, 0, {}).value == Planned(d, targets, pid)
  {
    var es := PlanFrom(d, targets, pid, 0, {}).value;
    PlanMeans(d, targets, pid, 0, {});
    forall k | 0 <= k < |es|
      ensures es[k] == Planned(d, targets, pid)[k]
    {
      assert PlansAs(d, targets[k], pid, k, es[k - 0]);
    }
  }

  // What the checks before the journal ask of one target: the built file is
  // there, or a link to one; the destination is free, a file or a link.
  predicate Plannable(d: Disk, t: Target, pid: Text, index: nat) {
    var temp, dest := Lower(t.temporary), Lower(t.destination);
    && t.contained && Lower(BackupName(t.destination, pid, index)) !in d.files
    && temp in d.files && (d.files[temp].File? || d.files[temp].Link?)
    && (dest in d.files ==> d.files[dest] != Other)
  }

  ghost predicate AllPlannable(d: Disk, targets: seq<Target>, pid: Text, i: nat) {
    forall k :: i <= k < |targets| ==> Plannable(d, targets[k], pid, k)
  }

  predicate NewDestinations(targets: seq<Target>, i: nat, seen: set<Name>) {
    && (forall k :: i <= k < |targets| ==> Lower(targets[k].destination) !in seen)
    && (forall j, k :: i <= j < k < |targets| ==> Lower(targets[j].destination) != Lower(targets[k].destination))
  }

  lemma NewDestinationsNext(targets: seq<Target>, i: nat, seen: set<Name>)
    requires i < |targets|
    ensures var dest := Lower(targets[i].destination);
            NewDestinations(targets, i, seen) <==> dest !in seen && NewDestinations(targets, i + 1, seen + {dest})
  {
  }

  lemma {:induction false} PlanFromIff(d: Disk, targets: seq<Target>, pid: Text, i: nat, seen: set<Name>)
    requires i <= |targets|
    ensures PlanFrom(d, targets, pid, i, seen).Some? <==>
              AllPlannable(d, targets, pid, i) && NewDestinations(targets, i, seen)
    decreases |targets| - i
  {
    if i < |targets| {
      PlanFromIff(d, targets, pid, i + 1, seen + {Lower(targets[i].destination)});
      NewDestinationsNext(targets, i, seen);
      assert PlanTarget(d, targets[i], pid, i, seen).Some? <==>
             Plannable(d, targets[i], pid, i) && Lower(targets[i].destination) !in seen;
    }
  }

  // The checks pass exactly if all targets are plannable and no two replace the
  // same file.
  lemma PlansIff(d: Disk, targets: seq<Target>, pid: Text)
    ensures PlanFrom(d, targets, pid, 0, {}).Some? <==>
              AllPlannable(d, targets, pid, 0) && NewDestinations(targets, 0, {})
  {
    PlanFromIff(d, targets, pid, 0, {});
  }

  lemma DestinationsDiffer(d: Disk, targets: seq<Target>, pid: Text, i: nat, j: nat)
    requires i < j < |targets| && DistinctNames(ResolveAll(Planned(d, targets, pid)))
    ensures Lower(targets[i].destination) != Lower(targets[j].destination)
  {
    var rs := ResolveAll(Planned(d, targets, pid));
    assert NamesOf(rs[i]) !! NamesOf(rs[j]);
    assert rs[i].dest in NamesOf(rs[i]) && rs[j].dest in NamesOf(rs[j]);
  }

  lemma {:induction false} AcceptablePlans(d: Disk, targets: seq<Target>, pid: Text, i: nat, seen: set<Name>)
    requires i <= |targets| && Acceptable(d, targets, pid)
    requires forall k :: i <= k < |targets| ==> Lower(targets[k].destination) !in seen
    ensures PlanFrom(d, targets, pid, i, seen).Some?
    decreases |targets| - i
  {
    if i < |targets| {
      assert TargetAcceptable(d, targets[i], pid, i);
      forall k | i + 1 <= k < |targets|
        ensures Lower(targets[k].destination) !in seen + {Lower(targets[i].destination)}
      {
        DestinationsDiffer(d, targets, pid, i, k);
      }
      AcceptablePlans(d, targets, pid, i + 1, seen + {Lower(targets[i].destination)});
    }
  }

  lemma DigestIsValid(g: Digest)
    ensures ValidDigest(g) && Lower(g) == g
  {
    HexDigestIsValid(g);
  }

  lemma HexDigestIsValid(g: Text)
    requires IsDigest(g)
    ensures ValidDigest(g)
  {
    assert IsHex(g[0]) && IsHex(g[63]);
    AllFromMeans(g, IsHex, 0);
    TrimmedIsValid(g);
  }

  lemma TrimmedIsValid(t: Text)
    requires Trimmed(t) && |t| == 64 && AllFrom(t, IsHex, 0)
    ensures ValidDigest(t)
  {
    assert Trim(t) == t;
  }

  lemma EmptyIsInvalid()
    ensures !ValidDigest([])
  {
  }

  lemma PlannedEntryWellFormed(d: Disk, t: Target, pid: Text, index: nat)
    requires Stat(d, Lower(t.temporary)).Regular?
    ensures WellFormedEntry(PlannedEntry(d, t, pid, index)) <==>
              SafeName(t.destination) && SafeName(t.temporary) && SafeName(BackupName(t.destination, pid, index))
    ensures var e := ResolveEntry(PlannedEntry(d, t, pid, index));
            var dest := Stat(d, Lower(t.destination));
            && e.candidate == Stat(d, Lower(t.temporary)).digest
            && (dest.Regular? ==> e.original == dest.digest)
  {
    var dest := Stat(d, Lower(t.destination));
    DigestIsValid(Stat(d, Lower(t.temporary)).digest);
    if dest.Regular? { DigestIsValid(dest.digest); } else { EmptyIsInvalid(); }
  }

  // ---- Renaming an acceptable set ----

  // Ready to be installed.
  predicate Startable(d: Disk, e: Resolved) {
    && Holds(d, e.temp, e.candidate) && Gone(d, e.back)
    && (if e.had then Holds(d, e.dest, e.original)
        else e.dest in d.files ==> d.files[e.dest].Dangling?)
  }

  ghost predicate Installing(d: Disk, rs: seq<Resolved>, i: nat) {
    forall j :: 0 <= j < |rs| ==> if j < i then Installed(d, rs[j]) else Startable(d, rs[j])
  }

  lemma RenameEntryInstalls(d: Disk, e: Resolved)
    requires OwnNamesDistinct(e) && Startable(d, e)
    ensures var r := RenameEntry(d, e); r.ok && Installed(End(d, r), e) && SameOutside(d, End(d, r), NamesOf(e))
  {
  }

  lemma SameOutsideKeepsNode(d: Disk, s: Disk, rs: seq<Resolved>, i: nat, j: nat)
    requires DistinctNames(rs) && i < |rs| && j < |rs| && i != j
    requires SameOutside(d, s, NamesOf(rs[i]))
    ensures forall n :: n in NamesOf(rs[j]) ==>
              (n in d.files <==> n in s.files) && (n in d.files ==> d.files[n] == s.files[n])
  {
    assert NamesOf(rs[i]) !! NamesOf(rs[j]);
  }

  lemma StepInstalls(d: Disk, rs: seq<Resolved>, i: nat)
    requires DistinctNames(rs) && i < |rs| && Installing(d, rs, i)
    ensures var r := RenameEntry(d, rs[i]);
            r.ok && Installing(End(d, r), rs, i + 1) && End(d, r).journal == d.journal
  {
    var m := End(d, RenameEntry(d, rs[i]));
    RenameEntryInstalls(d, rs[i]);
    forall j | 0 <= j < |rs|
      ensures if j < i + 1 then Installed(m, rs[j]) else Startable(m, rs[j])
    {
      if j != i {
        SameOutsideKeepsNode(d, m, rs, i, j);
        OtherEntryApart(d, m, rs, i, j);
        assert rs[j].dest in NamesOf(rs[j]);
      }
    }
  }

  lemma {:induction false} RenamesInstall(d: Disk, rs: seq<Resolved>, i: nat)
    requires DistinctNames(rs) && i <= |rs| && Installing(d, rs, i)
    ensures var r := RenameFrom(d, rs, i);
            r.ok && Installing(End(d, r), rs, |rs|) && End(d, r).journal == d.journal
    decreases |rs| - i
  {
    if i < |rs| {
      StepInstalls(d, rs, i);
      RenamesInstall(End(d, RenameEntry(d, rs[i])), rs, i + 1);
    }
  }

  // ---- Where the renames put things, on any disk ----

  predicate Placed(d: Disk, m: Disk, e: Resolved) {
    && e.temp in d.files && e.dest in m.files && m.files[e.dest] == d.files[e.temp]
    && (e.had ==> e.dest in d.files && e.back in m.files && m.files[e.back] == d.files[e.dest])
  }

  lemma RenameEntryPlaces(d: Disk, e: Resolved)
    requires OwnNamesDistinct(e) && RenameEntry(d, e).ok
    ensures var m := End(d, RenameEntry(d, e)); Placed(d, m, e) && SameOutside(d, m, NamesOf(e))
  {
  }

  lemma {:induction false} RenamesPlace(d0: Disk, d: Disk, rs: seq<Resolved>, i: nat)
    requires DistinctNames(rs) && i <= |rs| && RenameFrom(d, rs, i).ok
    requires forall j :: 0 <= j < |rs| && j < i ==> Placed(d0, d, rs[j])
    requires forall j, n :: i <= j < |rs| && n in NamesOf(rs[j]) ==>
               (n in d0.files <==> n in d.files) && (n in d.files ==> d0.files[n] == d.files[n])
    ensures var m := End(d, RenameFrom(d, rs, i));
            m.journal == d.journal && forall j :: 0 <= j < |rs| ==> Placed(d0, m, rs[j])
    decreases |rs| - i
  {
    if i < |rs| {
      var m := End(d, RenameEntry(d, rs[i]));
      RenameEntryPlaces(d, rs[i]);
      forall j | 0 <= j < |rs| && j != i
        ensures j < i ==> Placed(d0, m, rs[j])
        ensures forall n :: n in NamesOf(rs[j]) ==>
                  (n in d.files <==> n in m.files) && (n in d.files ==> d.files[n] == m.files[n])
      {
        SameOutsideKeepsNode(d, m, rs, i, j);
        assert rs[j].dest in NamesOf(rs[j]) && rs[j].back in NamesOf(rs[j]);
      }
      assert rs[i].dest in NamesOf(rs[i]) && rs[i].temp in NamesOf(rs[i]);
      RenamesPlace(d0, m, rs, i + 1);
    }
  }

  // ---- A transaction on an acceptable set ----

  lemma PlannedEntryStartable(d: Disk, t: Target, pid: Text, index: nat)
    requires Lstat(d, Lower(t.temporary)).Regular?
    requires var dest := Lower(t.destination);
             dest in d.files ==> d.files[dest].File? || d.files[dest].Dangling?
    requires Lower(BackupName(t.destination, pid, index)) !in d.files
    ensures Startable(d, ResolveEntry(PlannedEntry(d, t, pid, index)))
  {
    DigestIsValid(Lstat(d, Lower(t.temporary)).digest);
    var dest := Stat(d, Lower(t.destination));
    if dest.Regular? { DigestIsValid(dest.digest); }
  }

  lemma StartableJournaled(d: Disk, es: seq<Entry>)
    requires forall j :: 0 <= j < |es| ==> Startable(d, ResolveAll(es)[j])
    ensures Installing(Journaled(d, es), ResolveAll(es), 0)
  {
    forall j | 0 <= j < |es| ensures Startable(Journaled(d, es), ResolveAll(es)[j]) {
      assert Startable(d, ResolveAll(es)[j]);
    }
  }

  lemma InstalledIsCommittable(d: Disk, rs: seq<Resolved>)
    requires Installing(d, rs, |rs|)
    ensures AllCommittable(d, rs)
  {
    forall j | 0 <= j < |rs| ensures Committable(d, rs[j]) {
      assert Installed(d, rs[j]);
    }
  }

  lemma RenamesThenRecovery(d: Disk, rs: seq<Resolved>)
    requires DistinctNames(rs) && Installing(d, rs, 0) && d.journal != Absent
    ensures var renames := RenameFrom(d, rs, 0);
            var m := End(d, renames);
            var r := RecoverKnown(m, rs);
            && renames.ok && m.journal == d.journal
            && r.ok && End(m, r).journal == Absent && AllCommitted(End(m, r), rs)
  {
    RenamesInstall(d, rs, 0);
    var m := End(d, RenameFrom(d, rs, 0));
    InstalledIsCommittable(m, rs);
    KnownRuns(m, rs, Candidates);
  }

  lemma TransactionIs(d: Disk, es: seq<Entry>)
    requires d.journal == Written(State(SCHEMA, es)) && Resolvable(State(SCHEMA, es))
    ensures var rs := ResolveAll(es);
            var renames := RenameFrom(d, rs, 0);
            var r := RecoverKnown(End(d, renames), rs);
            DistinctNames(rs) && Transaction(d, es) == Run(renames.steps + r.steps, renames.ok && r.ok)
  {
    RenamesKeepJournal(d, ResolveAll(es), 0);
    ResolvedRecovery(End(d, RenameFrom(d, ResolveAll(es), 0)), State(SCHEMA, es), ResolveAll(es));
  }

  lemma TargetWellFormed(d: Disk, t: Target, pid: Text, index: nat)
    requires TargetAcceptable(d, t, pid, index)
    ensures WellFormedEntry(PlannedEntry(d, t, pid, index))
  {
    PlannedEntryWellFormed(d, t, pid, index);
  }

  ghost predicate EachPlanned(d: Disk, targets: seq<Target>, pid: Text, p: Entry -> bool) {
    forall j :: 0 <= j < |targets| ==> p(PlannedEntry(d, targets[j], pid, j))
  }

  lemma PlannedAll(d: Disk, targets: seq<Target>, pid: Text, p: Entry -> bool)
    requires EachPlanned(d, targets, pid, p)
    ensures AllFrom(Planned(d, targets, pid), p, 0)
  {
    AllFromMeans(Planned(d, targets, pid), p, 0);
  }

  lemma AcceptableResolves(d: Disk, targets: seq<Target>, pid: Text)
    requires Acceptable(d, targets, pid)
    ensures Resolvable(State(SCHEMA, Planned(d, targets, pid)))
  {
    forall j | 0 <= j < |targets|
      ensures WellFormedEntry(PlannedEntry(d, targets[j], pid, j))
    {
      TargetWellFormed(d, targets[j], pid, j);
    }
    PlannedAll(d, targets, pid, WellFormedEntry);
  }

  lemma AcceptableStarts(d: Disk, targets: seq<Target>, pid: Text)
    requires Acceptable(d, targets, pid)
    ensures var es := Planned(d, targets, pid); Installing(Journaled(d, es), ResolveAll(es), 0)
  {
    var es := Planned(d, targets, pid);
    forall j | 0 <= j < |targets|
      ensures Startable(d, ResolveAll(es)[j])
    {
      assert TargetAcceptable(d, targets[j], pid, j);
      PlannedEntryStartable(d, targets[j], pid, j);
    }
    StartableJournaled(d, es);
  }

  lemma InstallIs(d: Disk, targets: seq<Target>, pid: Text, es: seq<Entry>)
    requires d.journal == Absent && targets != [] && PlanFrom(d, targets, pid, 0, {}) == Some(es)
    ensures var t := Transaction(Journaled(d, es), es);
            Install(d, targets, pid) == Run([Journaled(d, es)] + t.steps, t.ok)
  {
  }

  lemma EndAfter(d: Disk, d2: Disk, first: Run, second: Run, ok: bool)
    ensures End(d, Run([d2] + (first.steps + second.steps), ok)) == End(End(d2, first), second)
  {
  }

  // Where an installation ends whose journal resolves.
  lemma InstallEnds(d: Disk, targets: seq<Target>, pid: Text, es: seq<Entry>, d2: Disk, m: Disk)
    requires d.journal == Absent && targets != [] && PlanFrom(d, targets, pid, 0, {}) == Some(es)
    requires Resolvable(State(SCHEMA, es)) && d2 == Journaled(d, es)
    requires m == End(d2, RenameFrom(d2, ResolveAll(es), 0))
    ensures Install(d, targets, pid).ok == (RenameFrom(d2, ResolveAll(es), 0).ok && RecoverKnown(m, ResolveAll(es)).ok)
    ensures End(d, Install(d, targets, pid)) == End(m, RecoverKnown(m, ResolveAll(es)))
  {
    InstallIs(d, targets, pid, es);
    TransactionIs(d2, es);
    EndAfter(d, d2, RenameFrom(d2, ResolveAll(es), 0), RecoverKnown(m, ResolveAll(es)), true);
  }

  lemma AcceptableInstalls(d: Disk, targets: seq<Target>, pid: Text)
    requires d.journal == Absent && Acceptable(d, targets, pid)
    ensures var r := Install(d, targets, pid);
            && r.ok && End(d, r).journal == Absent
            && AllCommitted(End(d, r), ResolveAll(Planned(d, targets, pid)))
  {
    var rs := ResolveAll(Planned(d, targets, pid));
    AcceptablePlans(d, targets, pid, 0, {});
    AcceptableResolves(d, targets, pid);
    var d2 := Journaled(d, Planned(d, targets, pid));
    PlanIsPlanned(d, targets, pid);
    InstallEnds(d, targets, pid, Planned(d, targets, pid), d2, End(d2, RenameFrom(d2, rs, 0)));
    AcceptableStarts(d, targets, pid);
    RenamesThenRecovery(d2, rs);
  }

  // ---- A transaction that succeeds was on an acceptable set ----

  lemma {:induction false} ScanSeesLinks(d: Disk, rs: seq<Resolved>, i: nat, k: nat)
    requires i <= k < |rs| && Lstat(d, rs[k].dest).Irregular?
    requires forall j :: i <= j < |rs| ==> Lstat(d, rs[j].dest).Irregular? || Holds(d, rs[j].dest, rs[j].candidate)
    ensures ScanFrom(d, rs, i) == Scan.Unreadable
    decreases |rs| - i
  {
    if !Lstat(d, rs[i].dest).Irregular? { ScanSeesLinks(d, rs, i + 1, k); }
  }

  lemma {:induction false} CommitSeesLinks(d: Disk, rs: seq<Resolved>, i: nat, k: nat)
    requires DistinctNames(rs) && i <= k < |rs| && Lstat(d, rs[k].back).Irregular?
    ensures !CommitFrom(d, rs, i).ok
    decreases |rs| - i
  {
    var r := CommitEntry(d, rs[i]);
    if i < k && r.ok {
      var m := End(d, r);
      CommitEntryKeeps(d, rs[i]);
      EndKeepsInSteps(d, r);
      if m != d { OtherEntryApart(d, m, rs, i, k); }
      CommitSeesLinks(m, rs, i + 1, k);
    }
  }

  // After the renames, every destination is a link or a candidate.
  lemma PlacedIsCandidateOrLink(d: Disk, targets: seq<Target>, pid: Text, m: Disk, j: nat)
    requires j < |targets| && PlanTarget(d, targets[j], pid, j, {}).Some?
    requires Placed(d, m, ResolveAll(Planned(d, targets, pid))[j])
    ensures var e := ResolveAll(Planned(d, targets, pid))[j];
            && (Lstat(m, e.dest).Irregular? || Holds(m, e.dest, e.candidate))
            && (Lstat(m, e.dest).Irregular? <==> !Lstat(d, e.temp).Regular?)
            && (e.dest in d.files && d.files[e.dest].Link? ==> Lstat(m, e.back).Irregular?)
            && (e.dest in d.files ==> d.files[e.dest] != Other)
  {
    PlannedEntryWellFormed(d, targets[j], pid, j);
  }

  lemma RecoveredHasNoLinks(m: Disk, rs: seq<Resolved>, j: nat)
    requires DistinctNames(rs) && j < |rs| && RecoverSet(m, rs).ok
    requires forall k :: 0 <= k < |rs| ==> Lstat(m, rs[k].dest).Irregular? || Holds(m, rs[k].dest, rs[k].candidate)
    ensures !Lstat(m, rs[j].dest).Irregular? && !Lstat(m, rs[j].back).Irregular?
  {
    forall k | 0 <= k < |rs| ensures !Lstat(m, rs[k].dest).Irregular? {
      if Lstat(m, rs[k].dest).Irregular? { ScanSeesLinks(m, rs, 0, k); }
    }
    ScanMeaning(m, rs, 0);
    if Lstat(m, rs[j].back).Irregular? { CommitSeesLinks(m, rs, 0, j); }
  }

  ghost predicate AllPlanAs(d: Disk, targets: seq<Target>, pid: Text) {
    forall k :: 0 <= k < |targets| ==> PlansAs(d, targets[k], pid, k, Planned(d, targets, pid)[k])
  }

  ghost predicate AllPlaced(d: Disk, m: Disk, rs: seq<Resolved>) {
    forall k :: 0 <= k < |rs| ==> Placed(d, m, rs[k])
  }

  lemma RecoveredWasPlain(d: Disk, targets: seq<Target>, pid: Text, m: Disk, j: nat)
    requires var rs := ResolveAll(Planned(d, targets, pid));
             DistinctNames(rs) && RecoverSet(m, rs).ok && AllPlaced(d, m, rs)
    requires AllPlanAs(d, targets, pid) && j < |targets| && WellFormedEntry(Planned(d, targets, pid)[j])
    ensures TargetAcceptable(d, targets[j], pid, j)
  {
    var rs := ResolveAll(Planned(d, targets, pid));
    forall k | 0 <= k < |rs|
      ensures Lstat(m, rs[k].dest).Irregular? || Holds(m, rs[k].dest, rs[k].candidate)
    {
      assert PlansAs(d, targets[k], pid, k, Planned(d, targets, pid)[k]);
      assert Placed(d, m, rs[k]);
      PlacedIsCandidateOrLink(d, targets, pid, m, k);
    }
    RecoveredHasNoLinks(m, rs, j);
    assert PlansAs(d, targets[j], pid, j, Planned(d, targets, pid)[j]);
    assert Placed(d, m, rs[j]);
    PlacedIsCandidateOrLink(d, targets, pid, m, j);
    PlannedEntryWellFormed(d, targets[j], pid, j);
  }

  lemma PlanAllAs(d: Disk, targets: seq<Target>, pid: Text)
    requires PlanFrom(d, targets, pid, 0, {}).Some?
    ensures AllPlanAs(d, targets, pid)
  {
    PlanIsPlanned(d, targets, pid);
    PlanMeans(d, targets, pid, 0, {});
    var es := Planned(d, targets, pid);
    forall k | 0 <= k < |targets| ensures PlansAs(d, targets[k], pid, k, es[k]) {
      assert PlansAs(d, targets[k], pid, k, es[k - 0]);
    }
  }

  lemma TransactionSucceeded(d: Disk, es: seq<Entry>)
    requires d.journal == Written(State(SCHEMA, es)) && Transaction(d, es).ok
    ensures Resolvable(State(SCHEMA, es)) && RenameFrom(d, ResolveAll(es), 0).ok
    ensures RecoverSet(End(d, RenameFrom(d, ResolveAll(es), 0)), ResolveAll(es)).ok
  {
    RenamesKeepJournal(d, ResolveAll(es), 0);
  }

  // The pieces of a successful installation.
  lemma SuccessMeans(d: Disk, targets: seq<Target>, pid: Text)
    requires d.journal == Absent && Install(d, targets, pid).ok
    ensures var es := Planned(d, targets, pid);
            var rs := ResolveAll(es);
            var renames := RenameFrom(Journaled(d, es), rs, 0);
            && AllPlanAs(d, targets, pid) && |targets| > 0
            && Resolvable(State(SCHEMA, es)) && renames.ok
            && RecoverSet(End(Journaled(d, es), renames), rs).ok
  {
    PlanIsPlanned(d, targets, pid);
    PlanAllAs(d, targets, pid);
    InstallIs(d, targets, pid, Planned(d, targets, pid));
    TransactionSucceeded(Journaled(d, Planned(d, targets, pid)), Planned(d, targets, pid));
  }

  lemma JournaledPlaces(d: Disk, es: seq<Entry>, rs: seq<Resolved>)
    requires DistinctNames(rs) && RenameFrom(Journaled(d, es), rs, 0).ok
    ensures AllPlaced(d, End(Journaled(d, es), RenameFrom(Journaled(d, es), rs, 0)), rs)
  {
    var d2 := Journaled(d, es);
    RenamesPlace(d2, d2, rs, 0);
    var m := End(d2, RenameFrom(d2, rs, 0));
    forall k | 0 <= k < |rs| ensures Placed(d, m, rs[k]) {
      assert Placed(d2, m, rs[k]);
    }
  }

  lemma SuccessWasAcceptable(d: Disk, targets: seq<Target>, pid: Text)
    requires d.journal == Absent && Install(d, targets, pid).ok
    ensures Acceptable(d, targets, pid)
  {
    SuccessMeans(d, targets, pid);
    var es := Planned(d, targets, pid);
    JournaledPlaces(d, es, ResolveAll(es));
    var m := End(Journaled(d, es), RenameFrom(Journaled(d, es), ResolveAll(es), 0));
    AllFromMeans(es, WellFormedEntry, 0);
    forall j | 0 <= j < |targets| ensures TargetAcceptable(d, targets[j], pid, j) {
      RecoveredWasPlain(d, targets, pid, m, j);
    }
  }

  lemma {:induction false} RenamesKeepJournal(d: Disk, rs: seq<Resolved>, i: nat)
    requires i <= |rs|
    ensures End(d, RenameFrom(d, rs, i)).journal == d.journal
    decreases |rs| - i
  {
    if i < |rs| { RenamesKeepJournal(End(d, RenameEntry(d, rs[i])), rs, i + 1); }
  }

  // Main result: undisturbed and with no installation pending, an installation
  // succeeds exactly on an acceptable set; then the candidates are in place and
  // nothing else of the transaction is left.
  lemma InstallSucceedsIff(d: Disk, targets: seq<Target>, pid: Text)
    requires d.journal == Absent
    ensures Install(d, targets, pid).ok <==> Acceptable(d, targets, pid)
    ensures Acceptable(d, targets, pid) ==>
              var s := End(d, Install(d, targets, pid));
              s.journal == Absent && AllCommitted(s, ResolveAll(Planned(d, targets, pid)))
  {
    if Acceptable(d, targets, pid) { AcceptableInstalls(d, targets, pid); }
    if Install(d, targets, pid).ok { SuccessWasAcceptable(d, targets, pid); }
  }

  // ---- The sets the installation does not refuse in time ----

  // A planned set whose journal does not resolve is renamed all the same, and
  // from then on recovery is refused for good.
  lemma UnresolvableStrands(d: Disk, targets: seq<Target>, pid: Text)
    requires d.journal == Absent && targets != [] && PlanFrom(d, targets, pid, 0, {}).Some?
    requires !Resolvable(State(SCHEMA, Planned(d, targets, pid)))
    ensures var r := Install(d, targets, pid);
            !r.ok && End(d, r).journal.Written? && Recover(End(d, r)) == Run([], false)
  {
    PlanIsPlanned(d, targets, pid);
    var es := Planned(d, targets, pid);
    RenamesKeepJournal(Journaled(d, es), ResolveAll(es), 0);
  }

  function Repeated(b: byte): Digest
    requires 48 <= b <= 57
  {
    var g: Text := seq(64, i requires 0 <= i < 64 => b);
    assert Lower(g) == g;
    g
  }

  lemma SharedTemporaryRenames(d: Disk, e: Resolved, f: Resolved)
    requires e.had && f.had && e.temp == f.temp && Holds(d, e.temp, e.candidate)
    requires e.dest in d.files && f.dest in d.files
    requires e.dest != f.dest && e.dest != e.temp && f.dest != e.temp
    requires e.back !in d.files && f.back !in d.files && e.back != f.back
    ensures var r := RenameFrom(d, [e, f], 0);
            !r.ok && Holds(End(d, r), e.dest, e.candidate) && Gone(End(d, r), f.dest)
  {
    var d1 := Move(Move(d, e.dest, e.back), e.temp, e.dest);
    assert RenameEntry(d, e) == Run([Move(d, e.dest, e.back), d1], true);
    var d2 := Move(d1, f.dest, f.back);
    assert RenameEntry(d1, f) == Run([d2], false);
    assert RenameFrom(d1, [e, f], 1) == Run([d2], false);
  }

  // Two targets "a" and "b" built into the same file "t".
  function SharedTargets(): seq<Target> {
    [Target([97], [116], true), Target([98], [116], true)]
  }

  function SharedDisk(): Disk {
    Disk(map[[97] := File(Repeated(48)), [98] := File(Repeated(49)), [116] := File(Repeated(50))], Absent)
  }

  lemma BackupNamesDiffer(pid: Text)
    ensures var a := Lower(BackupName([97], pid, 0));
            var b := Lower(BackupName([98], pid, 1));
            a != b && |a| > 1 && |b| > 1
  {
    assert Lower(BackupName([97], pid, 0))[0] == 97;
    assert Lower(BackupName([98], pid, 1))[0] == 98;
  }

  lemma SharedPlan(pid: Text)
    ensures PlanFrom(SharedDisk(), SharedTargets(), pid, 0, {}).Some?
  {
    BackupNamesDiffer(pid);
    assert Lower([97]) == [97] && Lower([98]) == [98] && Lower([116]) == [116];
    var d := SharedDisk();
    assert PlanTarget(d, SharedTargets()[0], pid, 0, {}).Some?;
    assert PlanTarget(d, SharedTargets()[1], pid, 1, {[97]}).Some?;
    assert PlanFrom(d, SharedTargets(), pid, 2, {[97], [98]}) == Some([]);
    assert PlanFrom(d, SharedTargets(), pid, 1, {[97]}).Some?;
  }

  lemma LowerLetters()
    ensures Lower([97]) == [97] && Lower([98]) == [98] && Lower([116]) == [116]
  {
  }

  // The journal of that installation.
  lemma SharedEntries(pid: Text) returns (es: seq<Entry>, rs: seq<Resolved>)
    ensures PlanFrom(SharedDisk(), SharedTargets(), pid, 0, {}) == Some(es) && rs == ResolveAll(es)
    ensures |rs| == 2 && rs[0].had && rs[1].had && rs[0].temp == rs[1].temp == [116]
    ensures rs[0].dest == [97] && rs[1].dest == [98] && rs[0].candidate == Repeated(50)
    ensures rs[0].back != rs[1].back && rs[0].back !in SharedDisk().files && rs[1].back !in SharedDisk().files
  {
    var d := SharedDisk();
    SharedPlan(pid);
    PlanIsPlanned(d, SharedTargets(), pid);
    es := Planned(d, SharedTargets(), pid);
    rs := ResolveAll(es);
    LowerLetters();
    BackupNamesDiffer(pid);
    assert Lower(Repeated(50)) == Repeated(50) by { DigestIsValid(Repeated(50)); }
  }

  // Neither all candidates nor all originals: the first target is replaced, the
  // second is gone from its destination, and recovery is refused for good.
  lemma SharedTemporaryStrands(pid: Text)
    ensures var d := SharedDisk();
            var r := Install(d, SharedTargets(), pid);
            && !r.ok && Holds(End(d, r), [97], Repeated(50)) && Gone(End(d, r), [98])
            && End(d, r).journal.Written? && Recover(End(d, r)) == Run([], false)
  {
    var d := SharedDisk();
    var es, rs := SharedEntries(pid);
    assert rs == [rs[0], rs[1]];
    var j := Journaled(d, es);
    SharedTemporaryRenames(j, rs[0], rs[1]);
    assert !DistinctNames(rs) by { assert rs[0].temp in NamesOf(rs[0]) && rs[0].temp in NamesOf(rs[1]); }
    RenamesKeepJournal(j, rs, 0);
    StrandedInstall(d, SharedTargets(), pid, es);
  }

  // An installation whose journal does not resolve ends where its renames do.
  lemma StrandedInstall(d: Disk, targets: seq<Target>, pid: Text, es: seq<Entry>)
    requires targets != [] && d.journal.Absent? && PlanFrom(d, targets, pid, 0, {}) == Some(es)
    requires !DistinctNames(ResolveAll(es))
    requires End(Journaled(d, es), RenameFrom(Journaled(d, es), ResolveAll(es), 0)).journal == Journaled(d, es).journal
    ensures var r := Install(d, targets, pid);
            var m := End(Journaled(d, es), RenameFrom(Journaled(d, es), ResolveAll(es), 0));
            !r.ok && End(d, r) == m && Recover(m) == Run([], false)
  {
    var j := Journaled(d, es);
    var renames := RenameFrom(j, ResolveAll(es), 0);
    UnresolvedIsRefused(End(j, renames), es);
    InstallIs(d, targets, pid, es);
    EndAfter(d, j, renames, Run([], false), false);
  }

  lemma UnresolvedIsRefused(d: Disk, es: seq<Entry>)
    requires d.journal == Written(State(SCHEMA, es)) && !DistinctNames(ResolveAll(es))
    ensures Recover(d) == Run([], false)
  {
  }
}
