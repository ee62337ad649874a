// Installations on a file system whose operations may fail: what crash safety
// says of the program itself (control/binary_install.go, installBuiltBinarySet).
module InstallFailures {
  import opened Text
  import opened Wrappers
  import opened InstallModel
  import opened InstallProofs
  import opened InstallAtomicity
  import opened InstallOutcome
  import opened InstallCrashes
  import opened InstallProgram

  // A state with its journal is as good as its own destinations say.
  lemma TrackedFate(s: Disk, st: State, rs: seq<Resolved>, fate: Fate)
    requires Tracked(s, st, rs, fate)
    ensures Tracked(s, st, rs, FateOf(s, rs))
  {
    if fate == Candidates {
      CommittingHoldsCandidates(s, rs);
    } else if AllHoldCandidates(s, rs) {
      if s.journal == Absent {
        RolledBackIsCommitted(s, rs);
      } else {
        IntactCandidatesAreCommittable(s, rs);
      }
    }
  }

  lemma RolledBackIsCommitted(s: Disk, rs: seq<Resolved>)
    requires AllRolledBack(s, rs) && AllHoldCandidates(s, rs)
    ensures AllCommitted(s, rs)
  {
    forall i | 0 <= i < |rs| ensures Committed(s, rs[i]) {
      assert RolledBack(s, rs[i]) && Holds(s, rs[i].dest, rs[i].candidate);
    }
  }

  // Where renames that stopped somewhere end is where they could be cut off.
  lemma StoppedIsCutOff(d: Disk, rs: seq<Resolved>, renames: seq<Disk>, s: Disk)
    requires renames <= RenameFrom(d, rs, 0).steps
    requires s == d || s in renames || s == End(d, Run(renames, true))
    ensures CutOff(d, rs, s)
  {
    if s in renames { assert s in RenameFrom(d, rs, 0).steps; }
  }

  lemma CutOffTracked(d: Disk, targets: seq<Target>, pid: Text, s: Disk)
    requires Acceptable(d, targets, pid) && NoDanglingDestination(d, targets)
    requires CutOff(JournaledDisk(d, targets, pid), Entries(d, targets, pid), s)
    ensures var rs := Entries(d, targets, pid);
            Tracked(s, State(SCHEMA, Planned(d, targets, pid)), rs, FateOf(s, rs))
  {
    AcceptableResolves(d, targets, pid);
    AcceptableIsReady(d, targets, pid);
    CutOffDecides(JournaledDisk(d, targets, pid), Entries(d, targets, pid), s);
  }

  // The program's two parts, whatever failed in them.
  lemma TransactionTracked(d: Disk, targets: seq<Target>, pid: Text, p: Parts, logged: seq<Disk>, after: Disk,
                           ok: bool, s: Disk)
    requires Acceptable(d, targets, pid) && NoDanglingDestination(d, targets)
    requires Transacts(JournaledDisk(d, targets, pid), Planned(d, targets, pid), p, logged, after, ok, false)
    requires s == JournaledDisk(d, targets, pid) || s in logged
    ensures var rs := Entries(d, targets, pid);
            Tracked(s, State(SCHEMA, Planned(d, targets, pid)), rs, FateOf(s, rs))
  {
    var j, rs, st := JournaledDisk(d, targets, pid), Entries(d, targets, pid), State(SCHEMA, Planned(d, targets, pid));
    var n := End(j, Run(p.renames, true));
    if s == j || s in p.renames {
      StoppedIsCutOff(j, rs, p.renames, s);
      CutOffTracked(d, targets, pid, s);
    } else {
      assert s in p.recovery && CutRecovery(n, s);
      StoppedIsCutOff(j, rs, p.renames, n);
      CutOffTracked(d, targets, pid, n);
      AcceptableResolves(d, targets, pid);
      RecoveryStays(n, st, rs, FateOf(n, rs), s);
      TrackedFate(s, st, rs, FateOf(n, rs));
    }
  }

  // The installation got as far as a state, whichever of its operations failed.
  ghost predicate Reaches(d: Disk, targets: seq<Target>, pid: Text, s: Disk) {
    exists p, logged, after, ok :: Installs(d, targets, pid, Some(p), logged, after, ok, false) && s in logged
  }

  lemma ReachedIsTracked(d: Disk, targets: seq<Target>, pid: Text, s: Disk)
    requires Acceptable(d, targets, pid) && NoDanglingDestination(d, targets) && Reaches(d, targets, pid, s)
    ensures var rs := Entries(d, targets, pid);
            Tracked(s, State(SCHEMA, Planned(d, targets, pid)), rs, FateOf(s, rs))
  {
    var p, logged, after, ok :| Installs(d, targets, pid, Some(p), logged, after, ok, false) && s in logged;
    PlanIsPlanned(d, targets, pid);
    assert s == logged[0] || s in logged[1..];
    TransactionTracked(d, targets, pid, p, logged[1..], after, ok, s);
  }

  // Any operations of the installation failed, the program or the machine
  // stopped anywhere, and any number of recoveries were cut off anywhere.
  ghost predicate SurvivesFailures(d: Disk, targets: seq<Target>, pid: Text) {
    forall ds :: Recoveries(ds) && Reaches(d, targets, pid, ds[0]) ==> Recovers(ds, Entries(d, targets, pid))
  }

  lemma PlainRecovers(d: Disk, targets: seq<Target>, pid: Text, ds: seq<Disk>)
    requires Acceptable(d, targets, pid) && NoDanglingDestination(d, targets)
    requires Recoveries(ds) && Reaches(d, targets, pid, ds[0])
    ensures Recovers(ds, Entries(d, targets, pid))
  {
    AcceptableResolves(d, targets, pid);
    ReachedIsTracked(d, targets, pid, ds[0]);
    TrackedRecovers(ds, State(SCHEMA, Planned(d, targets, pid)), Entries(d, targets, pid));
  }

  // An installation all of whose operations fail once the journal is written.
  lemma JournalIsReached(d: Disk, targets: seq<Target>, pid: Text)
    requires Acceptable(d, targets, pid)
    ensures Reaches(d, targets, pid, JournaledDisk(d, targets, pid))
  {
    var j := JournaledDisk(d, targets, pid);
    AcceptablePlans(d, targets, pid, 0, {});
    PlanIsPlanned(d, targets, pid);
    assert Installs(d, targets, pid, Some(Parts([], false, [], false)), [j], j, false, false);
  }

  // Main result.  Whichever operations fail, and wherever the program or a
  // later recovery stops, one complete recovery settles an acceptable set, if and
  // only if no destination is a dangling link.
  lemma FailureAtomicIff(d: Disk, targets: seq<Target>, pid: Text)
    requires d.journal == Absent && Acceptable(d, targets, pid)
    ensures SurvivesFailures(d, targets, pid) <==> NoDanglingDestination(d, targets)
  {
    if NoDanglingDestination(d, targets) {
      forall ds | Recoveries(ds) && Reaches(d, targets, pid, ds[0]) ensures Recovers(ds, Entries(d, targets, pid)) {
        PlainRecovers(d, targets, pid, ds);
      }
    } else {
      var k :| 0 <= k < |targets| && DanglingAt(d, Lower(targets[k].destination));
      var ds := [JournaledDisk(d, targets, pid)];
      JournalIsReached(d, targets, pid);
      DanglingStrands(d, targets, pid, k, ds);
      assert Recoveries(ds) && !Recovers(ds, Entries(d, targets, pid));
    }
  }

  // An installation that reports success has installed, whatever failed before.
  lemma SuccessIsComplete(d: Disk, targets: seq<Target>, pid: Text, p: Option<Parts>, logged: seq<Disk>, after: Disk)
    requires d.journal == Absent && Acceptable(d, targets, pid)
    requires Installs(d, targets, pid, p, logged, after, true, false)
    ensures after.journal == Absent && AllCommitted(after, Entries(d, targets, pid))
  {
    var j, es := JournaledDisk(d, targets, pid), Planned(d, targets, pid);
    PlanIsPlanned(d, targets, pid);
    InstallIs(d, targets, pid, es);
    AcceptableInstalls(d, targets, pid);
    AfterIsEnd(j, es, p.value, logged[1..], after);
    EndAfterFirst(d, j, Transaction(j, es));
  }

  lemma AfterIsEnd(d: Disk, es: seq<Entry>, p: Parts, logged: seq<Disk>, after: Disk)
    requires Transacts(d, es, p, logged, after, true, false)
    ensures after == End(d, Transaction(d, es))
  {
  }

  lemma EndAfterFirst(d: Disk, j: Disk, r: Run)
    ensures End(d, Run([j] + r.steps, r.ok)) == End(j, r)
  {
  }
}
