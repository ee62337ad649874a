// Crash atomicity of a journaled installation: however often it and its
// recoveries are cut off, one complete recovery leaves either every candidate
// or every original, and which of the two is decided by the first crash.
module InstallAtomicity {
  import opened Wrappers
  import opened InstallModel
  import opened InstallProofs

  predicate Gone(d: Disk, name: Name) {
    Lstat(d, name).Missing?
  }

  // ---- The states of one entry ----

  // As recorded in the journal, nothing renamed yet.
  predicate Initial(d: Disk, e: Resolved) {
    Restored(d, e) && Holds(d, e.temp, e.candidate) && Gone(d, e.back)
  }

  predicate Installed(d: Disk, e: Resolved) {
    && Holds(d, e.dest, e.candidate) && Gone(d, e.temp)
    && (if e.had then Holds(d, e.back, e.original) else Gone(d, e.back))
  }

  predicate RolledBack(d: Disk, e: Resolved) {
    Restored(d, e) && Gone(d, e.temp) && Gone(d, e.back)
  }

  predicate Committed(d: Disk, e: Resolved) {
    Holds(d, e.dest, e.candidate) && Gone(d, e.temp) && Gone(d, e.back)
  }

  // The original can be put back.
  predicate Intact(d: Disk, e: Resolved) {
    && (Gone(d, e.temp) || Holds(d, e.temp, e.candidate))
    && (if e.had then
          || (Holds(d, e.dest, e.original) && (Gone(d, e.back) || Holds(d, e.back, e.original)))
          || ((Gone(d, e.dest) || Holds(d, e.dest, e.candidate)) && Holds(d, e.back, e.original))
        else Gone(d, e.back) && (Gone(d, e.dest) || Holds(d, e.dest, e.candidate)))
  }

  // The candidate is in place and what is left over can be removed.
  predicate Committable(d: Disk, e: Resolved) {
    && Holds(d, e.dest, e.candidate)
    && (Gone(d, e.temp) || Holds(d, e.temp, e.candidate))
    && (Gone(d, e.back) || (e.had && Holds(d, e.back, e.original)))
  }

  // The candidate is byte-identical to the original.
  predicate Same(e: Resolved) {
    e.had && e.original == e.candidate
  }

  // The original of such an entry is saved and not yet replaced.
  predicate Pending(d: Disk, e: Resolved) {
    Same(e) && Gone(d, e.dest)
  }

  // ---- The states of the whole set ----

  ghost predicate AllIntact(d: Disk, rs: seq<Resolved>) {
    forall i :: 0 <= i < |rs| ==> Intact(d, rs[i])
  }

  ghost predicate AllCommittable(d: Disk, rs: seq<Resolved>) {
    forall i :: 0 <= i < |rs| ==> Committable(d, rs[i])
  }

  ghost predicate AllSame(rs: seq<Resolved>) {
    forall i :: 0 <= i < |rs| ==> Same(rs[i])
  }

  // Entries are installed in order: behind one whose destination is missing
  // nothing has been replaced.
  ghost predicate Ordered(d: Disk, rs: seq<Resolved>) {
    forall j, k :: 0 <= j < k < |rs| && Pending(d, rs[j]) ==> Restored(d, rs[k])
  }

  // The originals will be back: they can be, and if every destination already
  // holds its candidate then candidates and originals are the same files.
  ghost predicate Undoing(d: Disk, rs: seq<Resolved>) {
    AllIntact(d, rs) && Ordered(d, rs) && (AllHoldCandidates(d, rs) ==> AllSame(rs))
  }

  ghost predicate AllRolledBack(d: Disk, rs: seq<Resolved>) {
    forall i :: 0 <= i < |rs| ==> RolledBack(d, rs[i])
  }

  ghost predicate AllCommitted(d: Disk, rs: seq<Resolved>) {
    forall i :: 0 <= i < |rs| ==> Committed(d, rs[i])
  }

  // ---- Rolling back ----

  // Everything but the temporary file is as it was.
  predicate RolledBackButTemp(d: Disk, e: Resolved) {
    Restored(d, e) && Gone(d, e.back) && (Gone(d, e.temp) || Holds(d, e.temp, e.candidate))
  }

  lemma RestoreEntryWorks(d: Disk, e: Resolved)
    requires OwnNamesDistinct(e) && Intact(d, e)
    ensures var r := RestoreEntry(d, e); r.ok && RolledBackButTemp(End(d, r), e)
  {
  }

  lemma RemoveTempWorks(d: Disk, e: Resolved)
    requires OwnNamesDistinct(e) && RolledBackButTemp(d, e)
    ensures var r := RemoveKnown(d, e.temp, true, e.candidate); r.ok && RolledBack(End(d, r), e)
  {
  }

  lemma RollbackEntryWorks(d: Disk, e: Resolved)
    requires OwnNamesDistinct(e) && Intact(d, e)
    ensures var r := RollbackEntry(d, e); r.ok && RolledBack(End(d, r), e)
  {
    var r := RestoreEntry(d, e);
    RestoreEntryWorks(d, e);
    RemoveTempWorks(End(d, r), e);
    ThenEnd(d, r, RemoveKnown(End(d, r), e.temp, true, e.candidate));
  }

  lemma RestoreEntryStep(d: Disk, e: Resolved, s: Disk)
    requires OwnNamesDistinct(e) && Intact(d, e)
    requires s in RestoreEntry(d, e).steps || s == End(d, RestoreEntry(d, e))
    ensures Intact(s, e) && SameOutside(d, s, NamesOf(e))
    ensures Pending(s, e) ==> Pending(d, e)
    ensures s != d && Holds(s, e.dest, e.candidate) ==> Same(e) && (Pending(d, e) || Holds(d, e.dest, e.candidate))
  {
  }

  lemma RollbackEntryStep(d: Disk, e: Resolved, s: Disk)
    requires OwnNamesDistinct(e) && Intact(d, e) && s in RollbackEntry(d, e).steps
    ensures Intact(s, e) && SameOutside(d, s, NamesOf(e))
    ensures Pending(s, e) ==> Pending(d, e)
    ensures Holds(s, e.dest, e.candidate) ==> Same(e) && (Pending(d, e) || Holds(d, e.dest, e.candidate))
  {
    var m := End(d, RestoreEntry(d, e));
    RestoreEntryStep(d, e, m);
    if s in RestoreEntry(d, e).steps {
      RestoreEntryStep(d, e, s);
    }
  }

  ghost predicate RolledBackUpTo(d: Disk, rs: seq<Resolved>, i: nat) {
    forall j :: 0 <= j < |rs| && j < i ==> RolledBack(d, rs[j])
  }

  lemma StepStaysIntact(d: Disk, s: Disk, rs: seq<Resolved>, i: nat)
    requires DistinctNames(rs) && i < |rs| && SameOutside(d, s, NamesOf(rs[i]))
    requires AllIntact(d, rs) && Intact(s, rs[i])
    ensures AllIntact(s, rs)
  {
    forall j | 0 <= j < |rs| ensures Intact(s, rs[j]) {
      if j != i { OtherEntryApart(d, s, rs, i, j); }
    }
  }

  lemma StepStaysOrdered(d: Disk, s: Disk, rs: seq<Resolved>, i: nat)
    requires DistinctNames(rs) && i < |rs| && SameOutside(d, s, NamesOf(rs[i]))
    requires RolledBackUpTo(d, rs, i) && Ordered(d, rs)
    requires Pending(s, rs[i]) ==> Pending(d, rs[i])
    ensures Ordered(s, rs)
  {
    forall j, k | 0 <= j < k < |rs| && Pending(s, rs[j])
      ensures Restored(s, rs[k])
    {
      if j != i { OtherEntryApart(d, s, rs, i, j); }
      assert i <= j;
      OtherEntryApart(d, s, rs, i, k);
    }
  }

  // The subtle case: a rollback cut off when every destination happens to hold
  // its candidate again.
  lemma StepCommitsOnlyIfSame(d: Disk, s: Disk, rs: seq<Resolved>, i: nat)
    requires DistinctNames(rs) && i < |rs| && SameOutside(d, s, NamesOf(rs[i]))
    requires RolledBackUpTo(d, rs, i) && Undoing(d, rs) && AllHoldCandidates(s, rs)
    requires Holds(s, rs[i].dest, rs[i].candidate) ==>
               Same(rs[i]) && (Pending(d, rs[i]) || Holds(d, rs[i].dest, rs[i].candidate))
    ensures AllSame(rs)
  {
    forall j | 0 <= j < |rs|
      ensures Holds(d, rs[j].dest, rs[j].candidate) || j == i
      ensures Pending(d, rs[i]) ==> Same(rs[j])
    {
      if j != i { OtherEntryApart(d, s, rs, i, j); }
    }
    if !Pending(d, rs[i]) {
      assert AllHoldCandidates(d, rs);
    }
  }

  lemma {:induction false} RollbackStaysUndoing(d: Disk, rs: seq<Resolved>, i: nat, s: Disk)
    requires DistinctNames(rs) && i <= |rs| && Undoing(d, rs) && RolledBackUpTo(d, rs, i)
    requires s in RollbackFrom(d, rs, i).steps
    ensures Undoing(s, rs) && s.journal == d.journal
    decreases |rs| - i
  {
    var r := RollbackEntry(d, rs[i]);
    var m := End(d, r);
    if s in r.steps {
      EntryStaysUndoing(d, rs, i, s);
    } else {
      EntryRollsBack(d, rs, i);
      RollbackStaysUndoing(m, rs, i + 1, s);
    }
  }

  lemma EntryStaysUndoing(d: Disk, rs: seq<Resolved>, i: nat, s: Disk)
    requires DistinctNames(rs) && i < |rs| && Undoing(d, rs) && RolledBackUpTo(d, rs, i)
    requires s in RollbackEntry(d, rs[i]).steps
    ensures Undoing(s, rs) && s.journal == d.journal
  {
    RollbackEntryStep(d, rs[i], s);
    StepStaysIntact(d, s, rs, i);
    StepStaysOrdered(d, s, rs, i);
    if AllHoldCandidates(s, rs) { StepCommitsOnlyIfSame(d, s, rs, i); }
  }

  lemma EntryRollsBack(d: Disk, rs: seq<Resolved>, i: nat)
    requires DistinctNames(rs) && i < |rs| && Undoing(d, rs) && RolledBackUpTo(d, rs, i)
    ensures var r := RollbackEntry(d, rs[i]);
            r.ok && Undoing(End(d, r), rs) && RolledBackUpTo(End(d, r), rs, i + 1) && End(d, r).journal == d.journal
  {
    var r := RollbackEntry(d, rs[i]);
    var m := End(d, r);
    RollbackEntryWorks(d, rs[i]);
    EndKeepsInSteps(d, r);
    if m != d {
      EntryStaysUndoing(d, rs, i, m);
      RollbackEntryStep(d, rs[i], m);
      forall j | 0 <= j < i ensures RolledBack(m, rs[j]) {
        OtherEntryApart(d, m, rs, i, j);
      }
    }
  }

  lemma {:induction false} RollbackCompletes(d: Disk, rs: seq<Resolved>, i: nat)
    requires DistinctNames(rs) && i <= |rs| && Undoing(d, rs) && RolledBackUpTo(d, rs, i)
    ensures var r := RollbackFrom(d, rs, i); r.ok && AllRolledBack(End(d, r), rs)
    decreases |rs| - i
  {
    if i < |rs| {
      EntryRollsBack(d, rs, i);
      var r := RollbackEntry(d, rs[i]);
      var m := End(d, r);
      RollbackCompletes(m, rs, i + 1);
      ThenEnd(d, r, RollbackFrom(m, rs, i + 1));
    }
  }

  lemma {:induction false} RolledBackIsVerified(d: Disk, rs: seq<Resolved>, i: nat)
    requires i <= |rs| && AllRolledBack(d, rs)
    ensures VerifiedFrom(d, rs, i)
    decreases |rs| - i
  {
    if i < |rs| { RolledBackIsVerified(d, rs, i + 1); }
  }

  // ---- Committing ----

  lemma CommitEntryWorks(d: Disk, e: Resolved)
    requires OwnNamesDistinct(e) && Committable(d, e)
    ensures var r := CommitEntry(d, e); r.ok && Committed(End(d, r), e)
  {
  }

  lemma CommitEntryStep(d: Disk, e: Resolved, s: Disk)
    requires OwnNamesDistinct(e) && Committable(d, e) && s in CommitEntry(d, e).steps
    ensures Committable(s, e) && SameOutside(d, s, NamesOf(e))
  {
  }

  ghost predicate CommittedUpTo(d: Disk, rs: seq<Resolved>, i: nat) {
    forall j :: 0 <= j < |rs| && j < i ==> Committed(d, rs[j])
  }

  lemma EntryStaysCommittable(d: Disk, rs: seq<Resolved>, i: nat, s: Disk)
    requires DistinctNames(rs) && i < |rs| && AllCommittable(d, rs)
    requires s in CommitEntry(d, rs[i]).steps
    ensures AllCommittable(s, rs) && s.journal == d.journal
  {
    CommitEntryStep(d, rs[i], s);
    forall j | 0 <= j < |rs| ensures Committable(s, rs[j]) {
      if j != i { OtherEntryApart(d, s, rs, i, j); }
    }
  }

  lemma EntryCommits(d: Disk, rs: seq<Resolved>, i: nat)
    requires DistinctNames(rs) && i < |rs| && AllCommittable(d, rs) && CommittedUpTo(d, rs, i)
    ensures var r := CommitEntry(d, rs[i]);
            r.ok && AllCommittable(End(d, r), rs) && CommittedUpTo(End(d, r), rs, i + 1)
              && End(d, r).journal == d.journal
  {
    var r := CommitEntry(d, rs[i]);
    var m := End(d, r);
    CommitEntryWorks(d, rs[i]);
    EndKeepsInSteps(d, r);
    if m != d {
      EntryStaysCommittable(d, rs, i, m);
      CommitEntryStep(d, rs[i], m);
      forall j | 0 <= j < i ensures Committed(m, rs[j]) {
        OtherEntryApart(d, m, rs, i, j);
      }
    }
  }

  lemma {:induction false} CommitCompletes(d: Disk, rs: seq<Resolved>, i: nat)
    requires DistinctNames(rs) && i <= |rs| && AllCommittable(d, rs) && CommittedUpTo(d, rs, i)
    ensures var r := CommitFrom(d, rs, i); r.ok && AllCommitted(End(d, r), rs)
    decreases |rs| - i
  {
    if i < |rs| {
      EntryCommits(d, rs, i);
      var r := CommitEntry(d, rs[i]);
      CommitCompletes(End(d, r), rs, i + 1);
    }
  }

  lemma {:induction false} CommitStaysCommittable(d: Disk, rs: seq<Resolved>, i: nat, s: Disk)
    requires DistinctNames(rs) && i <= |rs| && AllCommittable(d, rs) && CommittedUpTo(d, rs, i)
    requires s in CommitFrom(d, rs, i).steps
    ensures AllCommittable(s, rs) && s.journal == d.journal
    decreases |rs| - i
  {
    var r := CommitEntry(d, rs[i]);
    if s in r.steps {
      EntryStaysCommittable(d, rs, i, s);
    } else {
      EntryCommits(d, rs, i);
      CommitStaysCommittable(End(d, r), rs, i + 1, s);
    }
  }

  // When candidates and originals are the same files, committable is intact.
  lemma CommittableSameIsUndoing(d: Disk, rs: seq<Resolved>)
    requires AllCommittable(d, rs) && AllSame(rs)
    ensures Undoing(d, rs)
  {
    forall i | 0 <= i < |rs| ensures Intact(d, rs[i]) && !Pending(d, rs[i]) {
      assert Committable(d, rs[i]) && Same(rs[i]);
    }
  }

  lemma IntactCandidatesAreCommittable(d: Disk, rs: seq<Resolved>)
    requires AllIntact(d, rs) && AllHoldCandidates(d, rs)
    ensures AllCommittable(d, rs)
  {
    forall i | 0 <= i < |rs| ensures Committable(d, rs[i]) {
      assert Intact(d, rs[i]) && Holds(d, rs[i].dest, rs[i].candidate);
    }
  }

  // ---- One recovery ----

  datatype Fate = Candidates | Originals

  // Where the disk may be while an installation with this fate is unfinished.
  ghost predicate Underway(d: Disk, rs: seq<Resolved>, fate: Fate) {
    match fate
    case Candidates => AllCommittable(d, rs)
    case Originals => Undoing(d, rs)
  }

  // Where it must be at the end: no temporary, no backup.
  ghost predicate Settled(d: Disk, rs: seq<Resolved>, fate: Fate) {
    match fate
    case Candidates => AllCommitted(d, rs)
    case Originals => AllRolledBack(d, rs)
  }

  lemma BodyStays(d: Disk, rs: seq<Resolved>, fate: Fate, s: Disk)
    requires DistinctNames(rs) && Underway(d, rs, fate) && s in Body(d, rs).steps
    ensures Underway(s, rs, fate) && s.journal == d.journal
  {
    if fate == Candidates {
      CommitStaysCommittable(d, rs, 0, s);
    } else if AllHoldCandidates(d, rs) {
      IntactCandidatesAreCommittable(d, rs);
      CommitStaysCommittable(d, rs, 0, s);
      CommittableSameIsUndoing(s, rs);
    } else {
      RollbackStaysUndoing(d, rs, 0, s);
    }
  }

  lemma BodyCompletes(d: Disk, rs: seq<Resolved>, fate: Fate)
    requires DistinctNames(rs) && Underway(d, rs, fate)
    ensures var b := Body(d, rs); b.ok && Settled(End(d, b), rs, fate)
    ensures !AllHoldCandidates(d, rs) ==> VerifiedFrom(End(d, Body(d, rs)), rs, 0)
  {
    var m := End(d, Body(d, rs));
    if AllHoldCandidates(d, rs) {
      if fate == Originals { IntactCandidatesAreCommittable(d, rs); }
      CommitCompletes(d, rs, 0);
      if fate == Originals {
        forall i | 0 <= i < |rs| ensures RolledBack(m, rs[i]) {
          assert Committed(m, rs[i]) && Same(rs[i]);
        }
      }
    } else {
      RollbackCompletes(d, rs, 0);
      RolledBackIsVerified(m, rs, 0);
    }
  }

  // A disk with an installation under way, or that has finished with it.
  ghost predicate InProgress(d: Disk, rs: seq<Resolved>, fate: Fate) {
    if d.journal == Absent then Settled(d, rs, fate) else Underway(d, rs, fate)
  }

  lemma SettledDropsJournal(d: Disk, rs: seq<Resolved>, fate: Fate)
    requires Settled(d, rs, fate)
    ensures Settled(DropJournal(d), rs, fate)
  {
    if fate == Candidates {
      forall i | 0 <= i < |rs| ensures Committed(DropJournal(d), rs[i]) { assert Committed(d, rs[i]); }
    } else {
      forall i | 0 <= i < |rs| ensures RolledBack(DropJournal(d), rs[i]) { assert RolledBack(d, rs[i]); }
    }
  }

  lemma {:induction false} UnderwayIsReadable(d: Disk, rs: seq<Resolved>, fate: Fate, i: nat)
    requires i <= |rs| && Underway(d, rs, fate)
    ensures ScanFrom(d, rs, i) != Scan.Unreadable
    decreases |rs| - i
  {
    if i < |rs| {
      assert if fate == Candidates then Committable(d, rs[i]) else Intact(d, rs[i]);
      UnderwayIsReadable(d, rs, fate, i + 1);
    }
  }

  lemma SetRuns(d: Disk, rs: seq<Resolved>, fate: Fate)
    requires DistinctNames(rs) && Underway(d, rs, fate)
    ensures var b := Body(d, rs); RecoverSet(d, rs) == Run(b.steps + [DropJournal(End(d, b))], true)
  {
    BodyCompletes(d, rs, fate);
    ScanMeaning(d, rs, 0);
    UnderwayIsReadable(d, rs, fate, 0);
  }

  // What Recover does while the journal names `rs`.
  function RecoverKnown(d: Disk, rs: seq<Resolved>): Run {
    if d.journal == Absent then Run([], true) else RecoverSet(d, rs)
  }

  lemma KnownRuns(d: Disk, rs: seq<Resolved>, fate: Fate)
    requires DistinctNames(rs) && InProgress(d, rs, fate)
    ensures var r := RecoverKnown(d, rs); r.ok && End(d, r).journal == Absent && Settled(End(d, r), rs, fate)
  {
    if d.journal != Absent {
      SetRuns(d, rs, fate);
      BodyCompletes(d, rs, fate);
      SettledDropsJournal(End(d, Body(d, rs)), rs, fate);
    }
  }

  lemma KnownStays(d: Disk, rs: seq<Resolved>, fate: Fate, s: Disk)
    requires DistinctNames(rs) && InProgress(d, rs, fate) && s in RecoverKnown(d, rs).steps
    ensures InProgress(s, rs, fate) && (s.journal == d.journal || s.journal == Absent)
  {
    SetRuns(d, rs, fate);
    if s in Body(d, rs).steps {
      BodyStays(d, rs, fate, s);
    } else {
      BodyCompletes(d, rs, fate);
      SettledDropsJournal(End(d, Body(d, rs)), rs, fate);
    }
  }

  // ---- The renames ----

  ghost predicate AllInitial(d: Disk, rs: seq<Resolved>) {
    forall i :: 0 <= i < |rs| ==> Initial(d, rs[i])
  }

  // Entries before `i` are installed, the others untouched.
  ghost predicate Progress(d: Disk, rs: seq<Resolved>, i: nat) {
    forall j :: 0 <= j < |rs| ==> if j < i then Installed(d, rs[j]) else Initial(d, rs[j])
  }

  lemma RenameEntryWorks(d: Disk, e: Resolved)
    requires OwnNamesDistinct(e) && Initial(d, e)
    ensures var r := RenameEntry(d, e);
            r.ok && r.steps != [] && Installed(End(d, r), e) && End(d, r).journal == d.journal
  {
  }

  lemma RenameEntryStep(d: Disk, e: Resolved, s: Disk)
    requires OwnNamesDistinct(e) && Initial(d, e) && s in RenameEntry(d, e).steps
    ensures Intact(s, e) && SameOutside(d, s, NamesOf(e)) && (Gone(s, e.dest) || Installed(s, e))
  {
  }

  lemma ProgressDecides(d: Disk, rs: seq<Resolved>, i: nat)
    requires Progress(d, rs, i)
    ensures AllIntact(d, rs) && Ordered(d, rs)
    ensures forall j :: 0 <= j < |rs| ==> !Pending(d, rs[j])
  {
    forall j | 0 <= j < |rs| ensures Intact(d, rs[j]) && !Pending(d, rs[j]) {
      assert if j < i then Installed(d, rs[j]) else Initial(d, rs[j]);
    }
  }

  lemma MidRenameDecides(d: Disk, rs: seq<Resolved>, i: nat, s: Disk)
    requires DistinctNames(rs) && i < |rs| && Progress(d, rs, i)
    requires s in RenameEntry(d, rs[i]).steps
    ensures AllIntact(s, rs) && Ordered(s, rs) && s.journal == d.journal
  {
    RenameEntryStep(d, rs[i], s);
    ProgressDecides(d, rs, i);
    StepStaysIntact(d, s, rs, i);
    forall j | 0 <= j < |rs| && j != i
      ensures !Pending(s, rs[j])
      ensures j > i ==> Restored(s, rs[j])
    {
      OtherEntryApart(d, s, rs, i, j);
    }
  }

  lemma EntryInstalls(d: Disk, rs: seq<Resolved>, i: nat)
    requires DistinctNames(rs) && i < |rs| && Progress(d, rs, i)
    ensures var r := RenameEntry(d, rs[i]);
            r.ok && Progress(End(d, r), rs, i + 1) && End(d, r).journal == d.journal
  {
    var m := End(d, RenameEntry(d, rs[i]));
    RenameEntryWorks(d, rs[i]);
    RenameEntryStep(d, rs[i], m);
    forall j | 0 <= j < |rs|
      ensures if j < i + 1 then Installed(m, rs[j]) else Initial(m, rs[j])
    {
      if j != i { OtherEntryApart(d, m, rs, i, j); }
    }
  }

  lemma {:induction false} RenamesDecide(d: Disk, rs: seq<Resolved>, i: nat, s: Disk)
    requires DistinctNames(rs) && i <= |rs| && Progress(d, rs, i)
    requires s in RenameFrom(d, rs, i).steps
    ensures AllIntact(s, rs) && Ordered(s, rs) && s.journal == d.journal
    decreases |rs| - i
  {
    var r := RenameEntry(d, rs[i]);
    if s in r.steps {
      MidRenameDecides(d, rs, i, s);
    } else {
      EntryInstalls(d, rs, i);
      RenamesDecide(End(d, r), rs, i + 1, s);
    }
  }

  // ---- Crashes ----

  function FateOf(d: Disk, rs: seq<Resolved>): Fate {
    if AllHoldCandidates(d, rs) then Candidates else Originals
  }

  // The journal names `rs` and nothing has been renamed.
  ghost predicate Ready(d: Disk, rs: seq<Resolved>) {
    d.journal.Written? && Resolve(d.journal.state) == Some(rs) && AllInitial(d, rs)
  }

  // The disk when the installation is cut off during its renames.
  ghost predicate CutOff(d: Disk, rs: seq<Resolved>, s: Disk) {
    s == d || s in RenameFrom(d, rs, 0).steps
  }

  // A recovery cut off anywhere (or not at all).
  ghost predicate CutRecovery(d: Disk, s: Disk) {
    s == d || s in Recover(d).steps
  }

  ghost predicate Recoveries(ds: seq<Disk>) {
    && ds != []
    && (|ds| == 1 || (Recoveries(ds[..|ds| - 1]) && CutRecovery(ds[|ds| - 2], ds[|ds| - 1])))
  }

  lemma CutOffDecides(d: Disk, rs: seq<Resolved>, s: Disk)
    requires DistinctNames(rs) && AllInitial(d, rs) && CutOff(d, rs, s)
    ensures Underway(s, rs, FateOf(s, rs)) && s.journal == d.journal
  {
    assert Progress(d, rs, 0);
    if s == d { ProgressDecides(d, rs, 0); } else { RenamesDecide(d, rs, 0, s); }
    if AllHoldCandidates(s, rs) { IntactCandidatesAreCommittable(s, rs); }
  }

  lemma ResolvedRecovery(d: Disk, st: State, rs: seq<Resolved>)
    requires d.journal == Absent || d.journal == Written(st)
    requires Resolve(st) == Some(rs)
    ensures DistinctNames(rs) && Recover(d) == RecoverKnown(d, rs)
  {
  }

  ghost predicate Tracked(d: Disk, st: State, rs: seq<Resolved>, fate: Fate) {
    InProgress(d, rs, fate) && (d.journal == Absent || d.journal == Written(st))
  }

  lemma RecoveryStays(d: Disk, st: State, rs: seq<Resolved>, fate: Fate, s: Disk)
    requires Resolve(st) == Some(rs) && Tracked(d, st, rs, fate)
    requires CutRecovery(d, s)
    ensures Tracked(s, st, rs, fate)
  {
    ResolvedRecovery(d, st, rs);
    if s != d { KnownStays(d, rs, fate, s); }
  }

  // What every cut recovery keeps, successive ones keep.
  lemma {:induction false} RecoveriesKeep(ds: seq<Disk>, inv: Disk -> bool)
    requires Recoveries(ds) && inv(ds[0])
    requires forall d, s :: inv(d) && CutRecovery(d, s) ==> inv(s)
    ensures inv(ds[|ds| - 1])
    decreases |ds|
  {
    if |ds| > 1 {
      RecoveriesKeep(ds[..|ds| - 1], inv);
    }
  }

  lemma RecoveriesStay(ds: seq<Disk>, st: State, rs: seq<Resolved>, fate: Fate)
    requires Recoveries(ds) && Resolve(st) == Some(rs) && Tracked(ds[0], st, rs, fate)
    ensures Tracked(ds[|ds| - 1], st, rs, fate)
  {
    var inv := (d: Disk) => Tracked(d, st, rs, fate);
    forall d, s | inv(d) && CutRecovery(d, s) ensures inv(s) {
      RecoveryStays(d, st, rs, fate, s);
    }
    RecoveriesKeep(ds, inv);
  }

  // Main result.  Cut the installation off anywhere after its journal is
  // written, then cut off any number of recoveries anywhere; one complete
  // recovery then succeeds and leaves no journal, no temporary and no backup,
  // and every candidate in place if the first crash came when every candidate
  // was already in place, every original otherwise.
  lemma CrashAtomic(d: Disk, rs: seq<Resolved>, ds: seq<Disk>)
    requires Ready(d, rs) && Recoveries(ds) && CutOff(d, rs, ds[0])
    ensures var last := ds[|ds| - 1];
            var r := Recover(last);
            r.ok && End(last, r).journal == Absent && Settled(End(last, r), rs, FateOf(ds[0], rs))
  {
    var st := d.journal.state;
    var fate := FateOf(ds[0], rs);
    var last := ds[|ds| - 1];
    ResolvedRecovery(d, st, rs);
    CutOffDecides(d, rs, ds[0]);
    RecoveriesStay(ds, st, rs, fate);
    ResolvedRecovery(last, st, rs);
    KnownRuns(last, rs, fate);
  }

  // ---- Other files ----

  lemma {:induction false} RenamesStayWithin(d: Disk, rs: seq<Resolved>, i: nat, s: Disk)
    requires i <= |rs| && s in RenameFrom(d, rs, i).steps
    ensures SameOutside(d, s, AllNames(rs))
    decreases |rs| - i
  {
    var r := RenameEntry(d, rs[i]);
    forall m | m in r.steps ensures SameOutside(d, m, AllNames(rs)) {
      assert SameOutside(d, m, NamesOf(rs[i]));
      SameOutsideAll(d, m, rs, i);
    }
    if s !in r.steps {
      EndKeepsInSteps(d, r);
      RenamesStayWithin(End(d, r), rs, i + 1, s);
    }
  }

  ghost predicate OthersUntouched(d: Disk, st: State, rs: seq<Resolved>, s: Disk) {
    && SameOutside(d, s.(journal := d.journal), AllNames(rs))
    && (s.journal == Absent || s.journal == Written(st))
  }

  lemma CutRecoveryTouchesNoOther(d: Disk, st: State, rs: seq<Resolved>, m: Disk, s: Disk)
    requires Resolve(st) == Some(rs) && OthersUntouched(d, st, rs, m) && CutRecovery(m, s)
    ensures OthersUntouched(d, st, rs, s)
  {
    if s != m {
      assert m.journal == Written(st);
      RecoverIsSet(m, rs);
      SetTouchesNoOther(m, rs, s, Recover(m));
    }
  }

  lemma SetTouchesNoOther(d: Disk, rs: seq<Resolved>, s: Disk, r: Run)
    requires DistinctNames(rs) && r == RecoverSet(d, rs) && s in r.steps
    ensures SameOutside(d, s.(journal := d.journal), AllNames(rs)) && (s.journal == d.journal || s.journal == Absent)
  {
    SetStepKeeps(d, rs, s, r);
  }

  // Through all of that no file outside the journaled names changes.
  lemma CrashesTouchNoOther(d: Disk, st: State, rs: seq<Resolved>, ds: seq<Disk>)
    requires Resolve(st) == Some(rs) && d.journal == Written(st)
    requires Recoveries(ds) && CutOff(d, rs, ds[0])
    ensures OthersUntouched(d, st, rs, ds[|ds| - 1])
  {
    if ds[0] != d { RenamesStayWithin(d, rs, 0, ds[0]); }
    var inv := (s: Disk) => OthersUntouched(d, st, rs, s);
    forall m, s | inv(m) && CutRecovery(m, s) ensures inv(s) {
      CutRecoveryTouchesNoOther(d, st, rs, m, s);
    }
    RecoveriesKeep(ds, inv);
  }
}
