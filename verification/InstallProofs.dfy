// Recovery safety on an arbitrary disk, and crash atomicity of a journaled
// installation.
module InstallProofs {
  import opened Text
  import opened Wrappers
  import opened InstallModel

  // ---- Framing ----

  ghost predicate SameOutside(d: Disk, s: Disk, names: set<Name>) {
    && s.journal == d.journal
    && forall n :: n !in names ==> (n in d.files <==> n in s.files) && (n in d.files ==> d.files[n] == s.files[n])
  }

  ghost predicate StaysWithin(d: Disk, r: Run, names: set<Name>) {
    forall s :: s in r.steps ==> SameOutside(d, s, names)
  }

  // An entry whose names are outside what changed reads the same.
  ghost predicate Apart(d: Disk, s: Disk, e: Resolved) {
    Lstat(d, e.dest) == Lstat(s, e.dest) && Lstat(d, e.temp) == Lstat(s, e.temp) && Lstat(d, e.back) == Lstat(s, e.back)
  }

  lemma OtherEntryApart(d: Disk, s: Disk, rs: seq<Resolved>, i: nat, j: nat)
    requires DistinctNames(rs) && i < |rs| && j < |rs| && i != j
    requires SameOutside(d, s, NamesOf(rs[i]))
    ensures Apart(d, s, rs[j])
  {
    assert NamesOf(rs[i]) !! NamesOf(rs[j]);
    assert rs[j].dest in NamesOf(rs[j]) && rs[j].temp in NamesOf(rs[j]) && rs[j].back in NamesOf(rs[j]);
  }

  // ---- Safety of one step, on any disk ----

  predicate Holds(d: Disk, name: Name, digest: Text) {
    var r := Lstat(d, name);
    r.Regular? && r.digest == digest
  }

  // The three mutations recovery may make for an entry: delete a file with
  // exactly the digest journaled for it, or move a backup holding the original
  // to a destination where nothing exists.
  predicate EntryStep(d: Disk, s: Disk, e: Resolved) {
    || (e.had && Holds(d, e.back, e.original) && s == Remove(d, e.back))
    || (Holds(d, e.temp, e.candidate) && s == Remove(d, e.temp))
    || (Holds(d, e.dest, e.candidate) && s == Remove(d, e.dest))
    || (e.had && e.dest !in d.files && Holds(d, e.back, e.original) && s == Move(d, e.back, e.dest))
  }

  ghost predicate SafeStep(d: Disk, s: Disk, rs: seq<Resolved>) {
    s == DropJournal(d) || exists i :: 0 <= i < |rs| && EntryStep(d, s, rs[i])
  }

  ghost predicate SafeSteps(d: Disk, steps: seq<Disk>, rs: seq<Resolved>)
    decreases |steps|
  {
    steps == [] || (SafeStep(d, steps[0], rs) && SafeSteps(steps[0], steps[1..], rs))
  }

  lemma SafeStepsAppend(d: Disk, first: seq<Disk>, second: seq<Disk>, rs: seq<Resolved>)
    requires SafeSteps(d, first, rs)
    requires SafeSteps(if first == [] then d else first[|first| - 1], second, rs)
    ensures SafeSteps(d, first + second, rs)
    decreases |first|
  {
    if first == [] {
      assert first + second == second;
    } else {
      SafeStepsAppend(first[0], first[1..], second, rs);
      assert (first + second)[1..] == first[1..] + second;
    }
  }

  // The original of an entry is still on the disk, where recovery looks for it.
  predicate HasOriginal(d: Disk, e: Resolved) {
    e.had && (Holds(d, e.dest, e.original) || Holds(d, e.back, e.original))
  }

  lemma RemoveKnownSafe(d: Disk, rs: seq<Resolved>, i: nat, name: Name, allowed: bool, expected: Text)
    requires i < |rs|
    requires (name == rs[i].back && allowed == rs[i].had && expected == rs[i].original)
          || (name == rs[i].temp && allowed && expected == rs[i].candidate)
    ensures SafeSteps(d, RemoveKnown(d, name, allowed, expected).steps, rs)
  {
    var r := RemoveKnown(d, name, allowed, expected);
    if r.steps != [] {
      assert EntryStep(d, r.steps[0], rs[i]);
    }
  }

  lemma RestoreEntrySafe(d: Disk, rs: seq<Resolved>, i: nat)
    requires i < |rs|
    ensures SafeSteps(d, RestoreEntry(d, rs[i]).steps, rs)
  {
    var steps := RestoreEntry(d, rs[i]).steps;
    if steps != [] {
      assert EntryStep(d, steps[0], rs[i]);
      if |steps| == 2 {
        assert EntryStep(steps[0], steps[1], rs[i]);
        assert steps[1..] == [steps[1]];
      }
    }
  }

  lemma RollbackEntrySafe(d: Disk, rs: seq<Resolved>, i: nat)
    requires i < |rs|
    ensures SafeSteps(d, RollbackEntry(d, rs[i]).steps, rs)
  {
    RestoreEntrySafe(d, rs, i);
    var r := RestoreEntry(d, rs[i]);
    RemoveKnownSafe(End(d, r), rs, i, rs[i].temp, true, rs[i].candidate);
    SafeStepsAppend(d, r.steps, RemoveKnown(End(d, r), rs[i].temp, true, rs[i].candidate).steps, rs);
  }

  lemma CommitEntrySafe(d: Disk, rs: seq<Resolved>, i: nat)
    requires i < |rs|
    ensures SafeSteps(d, CommitEntry(d, rs[i]).steps, rs)
  {
    var e := rs[i];
    RemoveKnownSafe(d, rs, i, e.back, e.had, e.original);
    var r := RemoveKnown(d, e.back, e.had, e.original);
    RemoveKnownSafe(End(d, r), rs, i, e.temp, true, e.candidate);
    SafeStepsAppend(d, r.steps, RemoveKnown(End(d, r), e.temp, true, e.candidate).steps, rs);
  }

  lemma RestoreEntryStays(d: Disk, e: Resolved)
    ensures StaysWithin(d, RestoreEntry(d, e), NamesOf(e)) && SameOutside(d, End(d, RestoreEntry(d, e)), NamesOf(e))
  {
  }

  lemma RollbackEntryStays(d: Disk, e: Resolved)
    ensures StaysWithin(d, RollbackEntry(d, e), NamesOf(e))
  {
    var r := RestoreEntry(d, e);
    var m := End(d, r);
    RestoreEntryStays(d, e);
    RemoveKnownStays(m, e.temp, true, e.candidate);
    forall s | s in RemoveKnown(m, e.temp, true, e.candidate).steps ensures SameOutside(d, s, NamesOf(e)) {
      assert SameOutside(m, s, {e.temp});
    }
  }

  lemma RemoveKnownStays(d: Disk, name: Name, allowed: bool, expected: Text)
    ensures StaysWithin(d, RemoveKnown(d, name, allowed, expected), {name})
  {
  }

  lemma RollbackEntryKeeps(d: Disk, e: Resolved)
    requires OwnNamesDistinct(e)
    ensures var r := RollbackEntry(d, e);
            StaysWithin(d, r, NamesOf(e)) && (HasOriginal(d, e) ==> forall s :: s in r.steps ==> HasOriginal(s, e))
  {
    RollbackEntryStays(d, e);
  }

  lemma CommitEntryKeeps(d: Disk, e: Resolved)
    requires OwnNamesDistinct(e)
    ensures var r := CommitEntry(d, e);
            StaysWithin(d, r, NamesOf(e)) && forall s :: s in r.steps ==> Lstat(s, e.dest) == Lstat(d, e.dest)
  {
  }

  // ---- Safety of a whole recovery, on any disk ----

  lemma {:induction false} RollbackSafe(d: Disk, rs: seq<Resolved>, i: nat)
    requires i <= |rs|
    ensures SafeSteps(d, RollbackFrom(d, rs, i).steps, rs)
    decreases |rs| - i
  {
    if i < |rs| {
      var r := RollbackEntry(d, rs[i]);
      RollbackEntrySafe(d, rs, i);
      RollbackSafe(End(d, r), rs, i + 1);
      SafeStepsAppend(d, r.steps, RollbackFrom(End(d, r), rs, i + 1).steps, rs);
    }
  }

  lemma {:induction false} CommitSafe(d: Disk, rs: seq<Resolved>, i: nat)
    requires i <= |rs|
    ensures SafeSteps(d, CommitFrom(d, rs, i).steps, rs)
    decreases |rs| - i
  {
    if i < |rs| {
      var r := CommitEntry(d, rs[i]);
      CommitEntrySafe(d, rs, i);
      CommitSafe(End(d, r), rs, i + 1);
      SafeStepsAppend(d, r.steps, CommitFrom(End(d, r), rs, i + 1).steps, rs);
    }
  }

  ghost function AllNames(rs: seq<Resolved>): set<Name> {
    set i, n | 0 <= i < |rs| && n in NamesOf(rs[i]) :: n
  }

  lemma SameOutsideAll(d: Disk, s: Disk, rs: seq<Resolved>, i: nat)
    requires i < |rs| && SameOutside(d, s, NamesOf(rs[i]))
    ensures SameOutside(d, s, AllNames(rs))
  {
    assert NamesOf(rs[i]) <= AllNames(rs);
  }

  // No file but those the journal names is touched, and every original stays.
  ghost predicate Keeps(d: Disk, s: Disk, rs: seq<Resolved>) {
    && SameOutside(d, s, AllNames(rs))
    && forall j :: 0 <= j < |rs| && HasOriginal(d, rs[j]) ==> HasOriginal(s, rs[j])
  }

  lemma EntryKeeps(d: Disk, s: Disk, rs: seq<Resolved>, i: nat)
    requires DistinctNames(rs) && i < |rs| && SameOutside(d, s, NamesOf(rs[i]))
    requires HasOriginal(d, rs[i]) ==> HasOriginal(s, rs[i])
    ensures Keeps(d, s, rs)
  {
    SameOutsideAll(d, s, rs, i);
    forall j | 0 <= j < |rs| && HasOriginal(d, rs[j])
      ensures HasOriginal(s, rs[j])
    {
      if j != i { OtherEntryApart(d, s, rs, i, j); }
    }
  }

  lemma ThenEnd(d: Disk, first: Run, second: Run)
    requires first.ok
    ensures End(d, Then(first, second)) == End(End(d, first), second)
  {
  }

  lemma EndKeepsInSteps(d: Disk, r: Run)
    ensures End(d, r) == d || End(d, r) in r.steps
  {
  }

  lemma {:induction false} RollbackKeeps(d: Disk, rs: seq<Resolved>, i: nat, s: Disk)
    requires DistinctNames(rs) && i <= |rs|
    requires s in RollbackFrom(d, rs, i).steps
    ensures Keeps(d, s, rs)
    decreases |rs| - i
  {
    var r := RollbackEntry(d, rs[i]);
    RollbackEntryKeeps(d, rs[i]);
    if s in r.steps {
      EntryKeeps(d, s, rs, i);
    } else {
      var m := End(d, r);
      RollbackKeeps(m, rs, i + 1, s);
      EndKeepsInSteps(d, r);
      if m != d { EntryKeeps(d, m, rs, i); }
    }
  }

  ghost predicate KeepsDestinations(d: Disk, s: Disk, rs: seq<Resolved>) {
    && SameOutside(d, s, AllNames(rs))
    && forall j :: 0 <= j < |rs| ==> Lstat(s, rs[j].dest) == Lstat(d, rs[j].dest)
  }

  lemma EntryKeepsDestinations(d: Disk, s: Disk, rs: seq<Resolved>, i: nat)
    requires DistinctNames(rs) && i < |rs| && SameOutside(d, s, NamesOf(rs[i]))
    requires Lstat(s, rs[i].dest) == Lstat(d, rs[i].dest)
    ensures KeepsDestinations(d, s, rs)
  {
    SameOutsideAll(d, s, rs, i);
    forall j | 0 <= j < |rs|
      ensures Lstat(s, rs[j].dest) == Lstat(d, rs[j].dest)
    {
      if j != i { OtherEntryApart(d, s, rs, i, j); }
    }
  }

  lemma {:induction false} CommitKeeps(d: Disk, rs: seq<Resolved>, i: nat, s: Disk)
    requires DistinctNames(rs) && i <= |rs|
    requires s in CommitFrom(d, rs, i).steps
    ensures KeepsDestinations(d, s, rs)
    decreases |rs| - i
  {
    var r := CommitEntry(d, rs[i]);
    CommitEntryKeeps(d, rs[i]);
    if s in r.steps {
      EntryKeepsDestinations(d, s, rs, i);
    } else {
      var m := End(d, r);
      CommitKeeps(m, rs, i + 1, s);
      EndKeepsInSteps(d, r);
      if m != d { EntryKeepsDestinations(d, m, rs, i); }
    }
  }

  predicate AllHoldCandidates(d: Disk, rs: seq<Resolved>) {
    forall i :: 0 <= i < |rs| ==> Holds(d, rs[i].dest, rs[i].candidate)
  }

  lemma {:induction false} ScanMeaning(d: Disk, rs: seq<Resolved>, i: nat)
    requires i <= |rs|
    ensures ScanFrom(d, rs, i) == AllCandidates <==> forall j :: i <= j < |rs| ==> Holds(d, rs[j].dest, rs[j].candidate)
    decreases |rs| - i
  {
    if i < |rs| { ScanMeaning(d, rs, i + 1); }
  }

  // The work of a recovery up to dropping the journal.
  function Body(d: Disk, rs: seq<Resolved>): Run {
    if AllHoldCandidates(d, rs) then CommitFrom(d, rs, 0) else RollbackFrom(d, rs, 0)
  }

  lemma SetShape(d: Disk, rs: seq<Resolved>)
    ensures var b := Body(d, rs);
            || (!RecoverSet(d, rs).ok && (RecoverSet(d, rs).steps == b.steps || RecoverSet(d, rs).steps == []))
            || (b.ok && RecoverSet(d, rs) == Run(b.steps + [DropJournal(End(d, b))], true))
  {
    ScanMeaning(d, rs, 0);
  }

  lemma RecoverShape(d: Disk, rs: seq<Resolved>)
    requires d.journal.Written? && Resolve(d.journal.state) == Some(rs)
    ensures var b := Body(d, rs);
            || (!Recover(d).ok && (Recover(d).steps == b.steps || Recover(d).steps == []))
            || (b.ok && Recover(d) == Run(b.steps + [DropJournal(End(d, b))], true))
  {
    SetShape(d, rs);
  }

  lemma BodySafe(d: Disk, rs: seq<Resolved>)
    ensures SafeSteps(d, Body(d, rs).steps, rs)
  {
    if AllHoldCandidates(d, rs) { CommitSafe(d, rs, 0); } else { RollbackSafe(d, rs, 0); }
  }

  // What a recovery keeps, in every state it goes through.
  ghost predicate RecoveryKeeps(d: Disk, s: Disk, rs: seq<Resolved>) {
    && SameOutside(d, s, AllNames(rs))
    && (if AllHoldCandidates(d, rs) then AllHoldCandidates(s, rs)
        else forall j :: 0 <= j < |rs| && HasOriginal(d, rs[j]) ==> HasOriginal(s, rs[j]))
  }

  lemma BodyKeeps(d: Disk, rs: seq<Resolved>, s: Disk)
    requires DistinctNames(rs)
    requires s == d || s in Body(d, rs).steps
    ensures RecoveryKeeps(d, s, rs)
  {
    if s != d {
      if AllHoldCandidates(d, rs) { CommitKeeps(d, rs, 0, s); } else { RollbackKeeps(d, rs, 0, s); }
    }
  }

  ghost predicate StepKeeps(d: Disk, s: Disk, rs: seq<Resolved>) {
    && RecoveryKeeps(d, s.(journal := d.journal), rs)
    && (s.journal == d.journal || (Recover(d).ok && s == End(d, Recover(d)) && s.journal == Absent))
  }

  lemma SetStepKeeps(d: Disk, rs: seq<Resolved>, s: Disk, r: Run)
    requires DistinctNames(rs) && r == RecoverSet(d, rs) && s in r.steps
    ensures RecoveryKeeps(d, s.(journal := d.journal), rs)
    ensures s.journal == d.journal || (r.ok && s == End(d, r) && s.journal == Absent)
  {
    SetShape(d, rs);
    var b := Body(d, rs);
    var from := if s in b.steps then s else End(d, b);
    BodyKeeps(d, rs, from);
    assert s == from || s == DropJournal(from);
  }

  lemma RecoverIsSet(d: Disk, rs: seq<Resolved>)
    requires d.journal.Written? && Resolve(d.journal.state) == Some(rs)
    ensures DistinctNames(rs) && Recover(d) == RecoverSet(d, rs)
  {
  }

  lemma RecoveryStepKeeps(d: Disk, rs: seq<Resolved>, s: Disk)
    requires d.journal.Written? && Resolve(d.journal.state) == Some(rs) && s in Recover(d).steps
    ensures StepKeeps(d, s, rs)
  {
    RecoverIsSet(d, rs);
    SetStepKeeps(d, rs, s, Recover(d));
  }

  lemma RecoveryStepsSafe(d: Disk, rs: seq<Resolved>)
    requires d.journal.Written? && Resolve(d.journal.state) == Some(rs)
    ensures SafeSteps(d, Recover(d).steps, rs)
  {
    RecoverShape(d, rs);
    assert SafeSteps(d, Body(d, rs).steps, rs) by { BodySafe(d, rs); }
    DroppedSafe(d, Body(d, rs), rs);
  }

  lemma DroppedSafe(d: Disk, b: Run, rs: seq<Resolved>)
    requires SafeSteps(d, b.steps, rs)
    ensures SafeSteps(d, b.steps + [DropJournal(End(d, b))], rs)
  {
    var last := End(d, b);
    assert SafeStep(last, DropJournal(last), rs);
    SafeStepsAppend(d, b.steps, [DropJournal(last)], rs);
  }

  // Main result: whatever is on the disk and whatever the journal says, a
  // recovery only deletes files with a journaled digest and only moves a backup
  // onto a name where nothing exists; it touches no other file, drops the
  // journal only as the last step of a successful run, and after every step
  // each original that was there still is, unless all the destinations held,
  // and still hold, their candidates.
  lemma RecoverySafe(d: Disk, rs: seq<Resolved>)
    requires d.journal.Written? && Resolve(d.journal.state) == Some(rs)
    ensures SafeSteps(d, Recover(d).steps, rs)
    ensures forall s :: s in Recover(d).steps ==> StepKeeps(d, s, rs)
  {
    RecoveryStepsSafe(d, rs);
    forall s | s in Recover(d).steps
      ensures StepKeeps(d, s, rs)
    {
      RecoveryStepKeeps(d, rs, s);
    }
  }
}
