// What a recovery does on an arbitrary disk: exactly when it succeeds, and what
// a refused one leaves behind (control/binary_install.go, recoverBuiltBinarySet).
module InstallRecovery {
  import opened Text
  import opened Wrappers
  import opened InstallModel
  import opened InstallProofs
  import opened InstallAtomicity

  // ---- One entry ----

  // There is nothing under the name, or just the file that may be removed.
  predicate Removable(d: Disk, name: Name, allowed: bool, digest: Text) {
    Gone(d, name) || (allowed && Holds(d, name, digest))
  }

  // What stood at the destination before is there or can be put back.
  predicate Returnable(d: Disk, e: Resolved) {
    if e.had then
      || (Holds(d, e.dest, e.original) && Removable(d, e.back, true, e.original))
      || (Removable(d, e.dest, true, e.candidate) && Holds(d, e.back, e.original))
    else Gone(d, e.back) && Removable(d, e.dest, true, e.candidate)
  }

  // A commit that is refused at an entry has removed a backup it knows, and has
  // not come to the temporary file.
  predicate CommitStopped(d: Disk, s: Disk, e: Resolved) {
    && Lstat(s, e.dest) == Lstat(d, e.dest) && Lstat(s, e.temp) == Lstat(d, e.temp)
    && Lstat(s, e.back) == if Removable(d, e.back, e.had, e.original) then Missing else Lstat(d, e.back)
  }

  // A rollback that is refused at an entry has put the original back if it
  // could, and has not removed the temporary file.
  predicate RollbackStopped(d: Disk, s: Disk, e: Resolved) {
    && Lstat(s, e.temp) == Lstat(d, e.temp)
    && if Returnable(d, e) then Restored(s, e) && Gone(s, e.back)
       else Lstat(s, e.dest) == Lstat(d, e.dest) && Lstat(s, e.back) == Lstat(d, e.back)
  }

  lemma RemoveKnownIff(d: Disk, name: Name, allowed: bool, digest: Text)
    ensures var r := RemoveKnown(d, name, allowed, digest);
            && (r.ok <==> Removable(d, name, allowed, digest))
            && End(d, r) == if r.ok then Remove(d, name) else d
  {
    if Gone(d, name) { assert d.files - {name} == d.files; }
  }

  lemma CommitEntryIff(d: Disk, e: Resolved)
    requires OwnNamesDistinct(e) && Holds(d, e.dest, e.candidate)
    ensures var r := CommitEntry(d, e);
            && (r.ok <==> Committable(d, e)) && SameOutside(d, End(d, r), NamesOf(e))
            && if r.ok then Committed(End(d, r), e) else CommitStopped(d, End(d, r), e)
  {
    var r := RemoveKnown(d, e.back, e.had, e.original);
    RemoveKnownIff(d, e.back, e.had, e.original);
    RemoveKnownIff(End(d, r), e.temp, true, e.candidate);
    if r.ok { ThenEnd(d, r, RemoveKnown(End(d, r), e.temp, true, e.candidate)); }
  }

  lemma RestoreEntryIff(d: Disk, e: Resolved)
    requires OwnNamesDistinct(e)
    ensures var r := RestoreEntry(d, e);
            && (r.ok <==> Returnable(d, e))
            && Lstat(End(d, r), e.temp) == Lstat(d, e.temp)
            && if r.ok then Restored(End(d, r), e) && Gone(End(d, r), e.back) else r.steps == []
  {
  }

  lemma RollbackEntryIff(d: Disk, e: Resolved)
    requires OwnNamesDistinct(e)
    ensures var r := RollbackEntry(d, e);
            && (r.ok <==> Intact(d, e)) && SameOutside(d, End(d, r), NamesOf(e))
            && if r.ok then RolledBack(End(d, r), e) else RollbackStopped(d, End(d, r), e)
  {
    var r := RestoreEntry(d, e);
    var m := End(d, r);
    RestoreEntryIff(d, e);
    RestoreEntryStays(d, e);
    RemoveKnownIff(m, e.temp, true, e.candidate);
    if r.ok { ThenEnd(d, r, RemoveKnown(m, e.temp, true, e.candidate)); }
    assert Intact(d, e) <==> Returnable(d, e) && Removable(d, e.temp, true, e.candidate);
  }

  // ---- The two loops ----

  ghost predicate CommittableUpTo(d: Disk, rs: seq<Resolved>, i: nat, j: nat)
    requires j <= |rs|
  {
    forall k :: i <= k < j ==> Committable(d, rs[k])
  }

  ghost predicate IntactUpTo(d: Disk, rs: seq<Resolved>, i: nat, j: nat)
    requires j <= |rs|
  {
    forall k :: i <= k < j ==> Intact(d, rs[k])
  }

  // Entry j after a commit from entry i on: done, stopped at, or not come to.
  ghost predicate AfterCommit(d: Disk, s: Disk, rs: seq<Resolved>, i: nat, j: nat)
    requires j < |rs|
  {
    if j < i || !CommittableUpTo(d, rs, i, j) then Apart(d, s, rs[j])
    else if Committable(d, rs[j]) then Committed(s, rs[j])
    else CommitStopped(d, s, rs[j])
  }

  ghost predicate AllAfterCommit(d: Disk, s: Disk, rs: seq<Resolved>, i: nat) {
    forall j :: 0 <= j < |rs| ==> AfterCommit(d, s, rs, i, j)
  }

  ghost predicate AfterRollback(d: Disk, s: Disk, rs: seq<Resolved>, i: nat, j: nat)
    requires j < |rs|
  {
    if j < i || !IntactUpTo(d, rs, i, j) then Apart(d, s, rs[j])
    else if Intact(d, rs[j]) then RolledBack(s, rs[j])
    else RollbackStopped(d, s, rs[j])
  }

  ghost predicate AllAfterRollback(d: Disk, s: Disk, rs: seq<Resolved>, i: nat) {
    forall j :: 0 <= j < |rs| ==> AfterRollback(d, s, rs, i, j)
  }

  ghost predicate OthersKept(d: Disk, m: Disk, rs: seq<Resolved>, i: nat) {
    forall j :: 0 <= j < |rs| && j != i ==> Apart(d, m, rs[j])
  }

  ghost predicate CandidatesFrom(d: Disk, rs: seq<Resolved>, i: nat) {
    forall j :: i <= j < |rs| ==> Holds(d, rs[j].dest, rs[j].candidate)
  }

  lemma OthersApart(d: Disk, m: Disk, rs: seq<Resolved>, i: nat)
    requires DistinctNames(rs) && i < |rs| && SameOutside(d, m, NamesOf(rs[i]))
    ensures OthersKept(d, m, rs, i)
  {
    forall j | 0 <= j < |rs| && j != i ensures Apart(d, m, rs[j]) { OtherEntryApart(d, m, rs, i, j); }
  }

  lemma CommitRefused(d: Disk, m: Disk, rs: seq<Resolved>, i: nat)
    requires i < |rs| && !Committable(d, rs[i]) && CommitStopped(d, m, rs[i])
    requires OthersKept(d, m, rs, i)
    ensures !CommittableUpTo(d, rs, i, |rs|) && AllAfterCommit(d, m, rs, i)
  {
  }

  lemma CommitTurn(d: Disk, rs: seq<Resolved>, i: nat)
    requires DistinctNames(rs) && i < |rs| && CandidatesFrom(d, rs, i)
    ensures var r := CommitEntry(d, rs[i]);
            var m := End(d, r);
            && (r.ok <==> Committable(d, rs[i])) && m.journal == d.journal && OthersKept(d, m, rs, i)
            && CandidatesFrom(m, rs, i + 1)
            && if r.ok then Committed(m, rs[i]) else CommitStopped(d, m, rs[i])
  {
    CommitEntryIff(d, rs[i]);
    OthersApart(d, End(d, CommitEntry(d, rs[i])), rs, i);
  }

  lemma {:induction false} CommitLoop(d: Disk, rs: seq<Resolved>, i: nat)
    requires DistinctNames(rs) && i <= |rs|
    requires CandidatesFrom(d, rs, i)
    ensures var r := CommitFrom(d, rs, i);
            && (r.ok <==> CommittableUpTo(d, rs, i, |rs|)) && End(d, r).journal == d.journal
            && AllAfterCommit(d, End(d, r), rs, i)
    decreases |rs| - i
  {
    if i < |rs| {
      var r := CommitEntry(d, rs[i]);
      var m := End(d, r);
      CommitTurn(d, rs, i);
      if r.ok {
        CommitLoop(m, rs, i + 1);
        ThenEnd(d, r, CommitFrom(m, rs, i + 1));
        CommitCarries(d, m, End(m, CommitFrom(m, rs, i + 1)), rs, i);
      } else {
        CommitRefused(d, m, rs, i);
      }
    }
  }

  lemma CommittableNext(d: Disk, m: Disk, rs: seq<Resolved>, i: nat, j: nat)
    requires i < j <= |rs| && Committable(d, rs[i]) && forall k :: i < k < j ==> Apart(d, m, rs[k])
    ensures CommittableUpTo(m, rs, i + 1, j) <==> CommittableUpTo(d, rs, i, j)
  {
    forall k | i < k < j ensures Committable(m, rs[k]) <==> Committable(d, rs[k]) {
      assert Apart(d, m, rs[k]);
    }
  }

  lemma CommitCarries(d: Disk, m: Disk, s: Disk, rs: seq<Resolved>, i: nat)
    requires i < |rs| && Committable(d, rs[i]) && Committed(m, rs[i])
    requires OthersKept(d, m, rs, i)
    requires AllAfterCommit(m, s, rs, i + 1)
    ensures CommittableUpTo(m, rs, i + 1, |rs|) <==> CommittableUpTo(d, rs, i, |rs|)
    ensures AllAfterCommit(d, s, rs, i)
  {
    CommittableNext(d, m, rs, i, |rs|);
    forall j | 0 <= j < |rs| ensures AfterCommit(d, s, rs, i, j) {
      if i < j { CommittableNext(d, m, rs, i, j); }
      assert AfterCommit(m, s, rs, i + 1, j);
    }
  }

  lemma RollbackRefused(d: Disk, m: Disk, rs: seq<Resolved>, i: nat)
    requires i < |rs| && !Intact(d, rs[i]) && RollbackStopped(d, m, rs[i])
    requires OthersKept(d, m, rs, i)
    ensures !IntactUpTo(d, rs, i, |rs|) && AllAfterRollback(d, m, rs, i)
  {
  }

  lemma RollbackTurn(d: Disk, rs: seq<Resolved>, i: nat)
    requires DistinctNames(rs) && i < |rs|
    ensures var r := RollbackEntry(d, rs[i]);
            var m := End(d, r);
            && (r.ok <==> Intact(d, rs[i])) && m.journal == d.journal && OthersKept(d, m, rs, i)
            && if r.ok then RolledBack(m, rs[i]) else RollbackStopped(d, m, rs[i])
  {
    RollbackEntryIff(d, rs[i]);
    OthersApart(d, End(d, RollbackEntry(d, rs[i])), rs, i);
  }

  lemma {:induction false} RollbackLoop(d: Disk, rs: seq<Resolved>, i: nat)
    requires DistinctNames(rs) && i <= |rs|
    ensures var r := RollbackFrom(d, rs, i);
            && (r.ok <==> IntactUpTo(d, rs, i, |rs|)) && End(d, r).journal == d.journal
            && AllAfterRollback(d, End(d, r), rs, i)
    decreases |rs| - i
  {
    if i < |rs| {
      var r := RollbackEntry(d, rs[i]);
      var m := End(d, r);
      RollbackTurn(d, rs, i);
      if r.ok {
        RollbackLoop(m, rs, i + 1);
        ThenEnd(d, r, RollbackFrom(m, rs, i + 1));
        RollbackCarries(d, m, End(m, RollbackFrom(m, rs, i + 1)), rs, i);
      } else {
        RollbackRefused(d, m, rs, i);
      }
    }
  }

  lemma IntactNext(d: Disk, m: Disk, rs: seq<Resolved>, i: nat, j: nat)
    requires i < j <= |rs| && Intact(d, rs[i]) && forall k :: i < k < j ==> Apart(d, m, rs[k])
    ensures IntactUpTo(m, rs, i + 1, j) <==> IntactUpTo(d, rs, i, j)
  {
    forall k | i < k < j ensures Intact(m, rs[k]) <==> Intact(d, rs[k]) {
      assert Apart(d, m, rs[k]);
    }
  }

  lemma RollbackCarries(d: Disk, m: Disk, s: Disk, rs: seq<Resolved>, i: nat)
    requires i < |rs| && Intact(d, rs[i]) && RolledBack(m, rs[i])
    requires OthersKept(d, m, rs, i)
    requires AllAfterRollback(m, s, rs, i + 1)
    ensures IntactUpTo(m, rs, i + 1, |rs|) <==> IntactUpTo(d, rs, i, |rs|)
    ensures AllAfterRollback(d, s, rs, i)
  {
    IntactNext(d, m, rs, i, |rs|);
    forall j | 0 <= j < |rs| ensures AfterRollback(d, s, rs, i, j) {
      if i < j { IntactNext(d, m, rs, i, j); }
      assert AfterRollback(m, s, rs, i + 1, j);
    }
  }

  // ---- A whole recovery ----

  // The scan meets something that is no regular file before it meets a
  // destination without its candidate.
  ghost predicate BlocksScan(d: Disk, rs: seq<Resolved>, i: nat, k: nat) {
    && i <= k < |rs| && Lstat(d, rs[k].dest).Irregular?
    && forall j :: i <= j < k ==> Holds(d, rs[j].dest, rs[j].candidate)
  }

  ghost predicate Blocked(d: Disk, rs: seq<Resolved>, i: nat) {
    exists k :: BlocksScan(d, rs, i, k)
  }

  lemma BlockedNext(d: Disk, rs: seq<Resolved>, i: nat)
    requires i < |rs| && Holds(d, rs[i].dest, rs[i].candidate)
    ensures Blocked(d, rs, i) <==> Blocked(d, rs, i + 1)
  {
    if Blocked(d, rs, i) {
      var k :| BlocksScan(d, rs, i, k);
      assert BlocksScan(d, rs, i + 1, k);
    }
    if Blocked(d, rs, i + 1) {
      var k :| BlocksScan(d, rs, i + 1, k);
      assert BlocksScan(d, rs, i, k);
    }
  }

  lemma {:induction false} ScanBlockedIff(d: Disk, rs: seq<Resolved>, i: nat)
    requires i <= |rs|
    ensures ScanFrom(d, rs, i) == Scan.Unreadable <==> Blocked(d, rs, i)
    decreases |rs| - i
  {
    if i < |rs| {
      ScanBlockedIff(d, rs, i + 1);
      if Lstat(d, rs[i].dest).Irregular? { assert BlocksScan(d, rs, i, i); }
      if Holds(d, rs[i].dest, rs[i].candidate) { BlockedNext(d, rs, i); }
    }
  }

  // Where the candidates are all in place everything else can be removed;
  // otherwise every original can be put back.
  ghost predicate Recoverable(d: Disk, rs: seq<Resolved>) {
    if AllHoldCandidates(d, rs) then AllCommittable(d, rs) else AllIntact(d, rs)
  }

  lemma {:induction false} RestoredIsVerified(d: Disk, rs: seq<Resolved>, i: nat)
    requires i <= |rs| && forall j :: i <= j < |rs| ==> Restored(d, rs[j])
    ensures VerifiedFrom(d, rs, i)
    decreases |rs| - i
  {
    if i < |rs| { RestoredIsVerified(d, rs, i + 1); }
  }

  // How the recovery of a set ends on a disk: the entries done, the one it is
  // refused at, the ones it does not come to.
  ghost predicate Outcome(d: Disk, rs: seq<Resolved>, s: Disk) {
    forall j :: 0 <= j < |rs| ==>
      if Blocked(d, rs, 0) then Apart(d, s, rs[j])
      else if AllHoldCandidates(d, rs) then AfterCommit(d, s, rs, 0, j)
      else AfterRollback(d, s, rs, 0, j)
  }

  lemma CommittedSet(d: Disk, rs: seq<Resolved>)
    requires DistinctNames(rs) && AllHoldCandidates(d, rs)
    ensures var r := RecoverSet(d, rs);
            && (r.ok <==> AllCommittable(d, rs)) && Outcome(d, rs, End(d, r))
            && End(d, r).journal == if r.ok then Absent else d.journal
  {
    CommitLoop(d, rs, 0);
    ScanMeaning(d, rs, 0);
    ScanBlockedIff(d, rs, 0);
    DropsOrStays(d, CommitFrom(d, rs, 0));
    AfterCommitDrops(d, End(d, CommitFrom(d, rs, 0)), rs);
  }

  lemma AfterCommitDrops(d: Disk, s: Disk, rs: seq<Resolved>)
    requires AllAfterCommit(d, s, rs, 0)
    ensures AllAfterCommit(d, DropJournal(s), rs, 0)
  {
    forall j | 0 <= j < |rs| ensures AfterCommit(d, DropJournal(s), rs, 0, j) {
      assert AfterCommit(d, s, rs, 0, j);
    }
  }

  lemma AfterRollbackDrops(d: Disk, s: Disk, rs: seq<Resolved>)
    requires AllAfterRollback(d, s, rs, 0)
    ensures AllAfterRollback(d, DropJournal(s), rs, 0)
  {
    forall j | 0 <= j < |rs| ensures AfterRollback(d, DropJournal(s), rs, 0, j) {
      assert AfterRollback(d, s, rs, 0, j);
    }
  }

  // Dropping the journal touches no file.
  lemma DropsOrStays(d: Disk, r: Run)
    ensures var s, t := End(d, r), End(d, Then(r, FinishRun(End(d, r))));
            t == if r.ok then DropJournal(s) else s
  {
    if r.ok { ThenEnd(d, r, FinishRun(End(d, r))); }
  }

  lemma RolledBackSet(d: Disk, rs: seq<Resolved>)
    requires DistinctNames(rs) && !AllHoldCandidates(d, rs) && !Blocked(d, rs, 0)
    ensures var r := RecoverSet(d, rs);
            && (r.ok <==> AllIntact(d, rs)) && Outcome(d, rs, End(d, r))
            && End(d, r).journal == if r.ok then Absent else d.journal
  {
    RollbackLoop(d, rs, 0);
    ScanMeaning(d, rs, 0);
    ScanBlockedIff(d, rs, 0);
    var s := End(d, RollbackFrom(d, rs, 0));
    if RollbackFrom(d, rs, 0).ok { RollbackVerifies(d, rs); }
    DropsOrStays(d, RollbackFrom(d, rs, 0));
    AfterRollbackDrops(d, s, rs);
  }

  // The check after a rollback that went through never refuses.
  lemma RollbackVerifies(d: Disk, rs: seq<Resolved>)
    requires DistinctNames(rs) && RollbackFrom(d, rs, 0).ok
    ensures VerifiedFrom(End(d, RollbackFrom(d, rs, 0)), rs, 0)
  {
    RollbackLoop(d, rs, 0);
    RolledBackVerified(d, End(d, RollbackFrom(d, rs, 0)), rs);
  }

  lemma RolledBackVerified(d: Disk, s: Disk, rs: seq<Resolved>)
    requires IntactUpTo(d, rs, 0, |rs|) && AllAfterRollback(d, s, rs, 0)
    ensures VerifiedFrom(s, rs, 0)
  {
    forall j | 0 <= j < |rs| ensures Restored(s, rs[j]) {
      assert AfterRollback(d, s, rs, 0, j) && Intact(d, rs[j]);
    }
    RestoredIsVerified(s, rs, 0);
  }

  lemma BlockedSetStays(d: Disk, rs: seq<Resolved>, k: nat)
    requires BlocksScan(d, rs, 0, k)
    ensures RecoverSet(d, rs) == Run([], false) && !Recoverable(d, rs) && Outcome(d, rs, d)
  {
    ScanBlockedIff(d, rs, 0);
    assert !Holds(d, rs[k].dest, rs[k].candidate) && !Intact(d, rs[k]);
  }

  lemma RecoverSetIff(d: Disk, rs: seq<Resolved>)
    requires DistinctNames(rs)
    ensures var r := RecoverSet(d, rs);
            && (r.ok <==> Recoverable(d, rs)) && Outcome(d, rs, End(d, r))
            && End(d, r).journal == if r.ok then Absent else d.journal
  {
    if k :| BlocksScan(d, rs, 0, k) {
      BlockedSetStays(d, rs, k);
    } else if AllHoldCandidates(d, rs) {
      CommittedSet(d, rs);
    } else {
      RolledBackSet(d, rs);
    }
  }

  // Main result: on every disk a recovery succeeds exactly if nothing is
  // pending, or a readable journal resolves and every file under its names is
  // one the journal accounts for.  Then the journal is gone; otherwise it stays.
  lemma RecoverIff(d: Disk)
    ensures Recover(d).ok <==>
              match d.journal
              case Absent => true
              case Unreadable => false
              case Written(st) => Resolvable(st) && Recoverable(d, ResolveAll(st.entries))
    ensures End(d, Recover(d)).journal == if Recover(d).ok then Absent else d.journal
    ensures !(d.journal.Written? && Resolvable(d.journal.state)) ==> Recover(d).steps == []
  {
    if d.journal.Written? && Resolvable(d.journal.state) {
      var rs := ResolveAll(d.journal.state.entries);
      RecoverIsSet(d, rs);
      RecoverSetIff(d, rs);
    }
  }

  // ... and when it succeeds all destinations are settled the way the disk said,
  // with no temporary and no backup left.
  lemma RecoveredIsSettled(d: Disk, rs: seq<Resolved>)
    requires d.journal.Written? && Resolve(d.journal.state) == Some(rs) && Recover(d).ok
    ensures Settled(End(d, Recover(d)), rs, FateOf(d, rs))
    ensures forall j :: 0 <= j < |rs| ==> Final(d, End(d, Recover(d)), rs, rs[j])
  {
    RecoverIsSet(d, rs);
    RecoverSetIff(d, rs);
    OutcomeSettles(d, rs, End(d, RecoverSet(d, rs)));
    SettledIsFinal(d, rs, End(d, RecoverSet(d, rs)));
  }

  lemma SettledIsFinal(d: Disk, rs: seq<Resolved>, s: Disk)
    requires Settled(s, rs, FateOf(d, rs))
    ensures forall j :: 0 <= j < |rs| ==> Final(d, s, rs, rs[j])
  {
    forall j | 0 <= j < |rs| ensures Final(d, s, rs, rs[j]) {
      assert if AllHoldCandidates(d, rs) then Committed(s, rs[j]) else RolledBack(s, rs[j]);
    }
  }

  lemma OutcomeSettles(d: Disk, rs: seq<Resolved>, s: Disk)
    requires Recoverable(d, rs) && Outcome(d, rs, s)
    ensures Settled(s, rs, FateOf(d, rs))
  {
    NothingBlocks(d, rs);
    forall j | 0 <= j < |rs|
      ensures if AllHoldCandidates(d, rs) then Committed(s, rs[j]) else RolledBack(s, rs[j])
    {
      assert if AllHoldCandidates(d, rs) then Committable(d, rs[j]) else Intact(d, rs[j]);
      assert if AllHoldCandidates(d, rs) then AfterCommit(d, s, rs, 0, j) else AfterRollback(d, s, rs, 0, j);
    }
  }

  // Neither a temporary nor a backup; the candidate at the destination if all
  // were there, and otherwise the original or nothing.
  ghost predicate Final(d: Disk, s: Disk, rs: seq<Resolved>, e: Resolved) {
    && e.temp !in s.files && e.back !in s.files
    && if AllHoldCandidates(d, rs)
       then e.dest in s.files && s.files[e.dest].File? && s.files[e.dest].digest == e.candidate
       else if e.had then e.dest in s.files && s.files[e.dest].File? && s.files[e.dest].digest == e.original
       else e.dest !in s.files
  }

  lemma NothingBlocks(d: Disk, rs: seq<Resolved>)
    requires Recoverable(d, rs)
    ensures !Blocked(d, rs, 0)
  {
    if k :| BlocksScan(d, rs, 0, k) { BlockedSetStays(d, rs, k); }
  }

  // A file that the journal does not account for, under the name of a backup or
  // of a temporary file.
  predicate Foreign(d: Disk, e: Resolved, name: Name) {
    || (name == e.back && !Removable(d, name, e.had, e.original))
    || (name == e.temp && !Removable(d, name, true, e.candidate))
  }

  // It makes every recovery refuse; the journal and the file stay.
  lemma ForeignIsKept(d: Disk, rs: seq<Resolved>, i: nat, name: Name)
    requires d.journal.Written? && Resolve(d.journal.state) == Some(rs) && i < |rs| && Foreign(d, rs[i], name)
    ensures var r := Recover(d);
            !r.ok && End(d, r).journal == d.journal && Lstat(End(d, r), name) == Lstat(d, name)
  {
    RecoverIsSet(d, rs);
    RecoverSetIff(d, rs);
    assert !Committable(d, rs[i]) && !Intact(d, rs[i]);
    ForeignOutcome(d, rs, i, name, End(d, RecoverSet(d, rs)));
  }

  lemma ForeignOutcome(d: Disk, rs: seq<Resolved>, i: nat, name: Name, s: Disk)
    requires DistinctNames(rs) && i < |rs| && Foreign(d, rs[i], name) && Outcome(d, rs, s)
    ensures Lstat(s, name) == Lstat(d, name)
  {
    assert OwnNamesDistinct(rs[i]) && !Committable(d, rs[i]) && !Intact(d, rs[i]);
    assert Apart(d, s, rs[i]) || CommitStopped(d, s, rs[i]) || RollbackStopped(d, s, rs[i]);
  }
}
