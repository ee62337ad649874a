// The journaled installation of a set of built binaries, as the sequence of
// disk states it goes through (control/binary_install.go).
//
// A file is identified by its digest; installBuiltBinarySet and
// resolveBinaryInstallState compare names and digests without regard to case, so
// both are kept folded here.
module InstallModel {
  import opened Sequences
  import opened Text
  import opened Wrappers

  // A file name inside runtime/bin, folded to lower case.
  type Name = Text

  predicate IsHex(b: byte) {
    48 <= b <= 57 || 65 <= b <= 70 || 97 <= b <= 102
  }

  predicate ValidDigest(t: Text) {
    var v := Trim(t);
    |v| == 64 && AllFrom(v, IsHex, 0)
  }

  predicate IsDigest(t: Text) {
    |t| == 64 && Lower(t) == t && forall i :: 0 <= i < 64 ==> IsHex(t[i])
  }

  const ZERO_DIGEST: Text := seq(64, _ => 48)

  // The folded SHA-256 of a file.
  type Digest = t: Text | IsDigest(t) witness ZERO_DIGEST

  // What a directory entry can be: a regular file, a symbolic link to a
  // regular file, a dangling link, or anything else (such as a directory).
  datatype Node = File(digest: Digest) | Link(target: Digest) | Dangling | Other

  datatype Entry = Entry(destination: Text, temporary: Text, backup: Text,
                         hadOriginal: bool, original: Text, candidate: Text)

  datatype State = State(schema: int, entries: seq<Entry>)

  datatype Journal = Absent | Unreadable | Written(state: State)

  datatype Disk = Disk(files: map<Name, Node>, journal: Journal)

  datatype Resolved = Resolved(dest: Name, temp: Name, back: Name,
                               had: bool, original: Text, candidate: Text)

  const SCHEMA := 1
  const MAX_ENTRIES := 16

  // ---- Atomic disk operations ----

  function Remove(d: Disk, name: Name): Disk {
    d.(files := d.files - {name})
  }

  function Move(d: Disk, from: Name, to: Name): Disk
    requires from in d.files
  {
    d.(files := (d.files - {from})[to := d.files[from]])
  }

  function DropJournal(d: Disk): Disk {
    d.(journal := Absent)
  }

  // ---- Reading ----

  datatype Read = Missing | Regular(digest: Digest) | Irregular

  // regularFileDigest: links are not followed.
  function Lstat(d: Disk, name: Name): Read {
    if name !in d.files then Missing
    else match d.files[name]
      case File(g) => Regular(g)
      case _ => Irregular
  }

  // os.Stat followed by fileSHA256: links are followed.
  function Stat(d: Disk, name: Name): Read {
    if name !in d.files then Missing
    else match d.files[name]
      case File(g) => Regular(g)
      case Link(g) => Regular(g)
      case Dangling => Missing
      case Other => Irregular
  }

  // ---- Runs ----

  // What a procedure does to the disk: the state after each mutation, and
  // whether it returns without error.  A crash, or an operation refused by the
  // operating system, leaves a prefix of `steps`.
  datatype Run = Run(steps: seq<Disk>, ok: bool)

  function End(d: Disk, r: Run): Disk {
    if r.steps == [] then d else r.steps[|r.steps| - 1]
  }

  function Then(first: Run, second: Run): Run {
    if first.ok then Run(first.steps + second.steps, second.ok) else first
  }

  // removeKnownBinaryArtifact
  function RemoveKnown(d: Disk, name: Name, allowed: bool, expected: Text): Run {
    match Lstat(d, name)
    case Missing => Run([], true)
    case Irregular => Run([], false)
    case Regular(g) =>
      if !allowed || g != expected then Run([], false) else Run([Remove(d, name)], true)
  }

  // ---- Recovery ----

  datatype Scan = AllCandidates | NotAll | Unreadable

  function ScanFrom(d: Disk, rs: seq<Resolved>, i: nat): Scan
    requires i <= |rs|
    decreases |rs| - i
  {
    if i == |rs| then AllCandidates
    else match Lstat(d, rs[i].dest)
      case Irregular => Scan.Unreadable
      case Missing => NotAll
      case Regular(g) => if g == rs[i].candidate then ScanFrom(d, rs, i + 1) else NotAll
  }

  function CommitEntry(d: Disk, e: Resolved): Run {
    var r := RemoveKnown(d, e.back, e.had, e.original);
    Then(r, RemoveKnown(End(d, r), e.temp, true, e.candidate))
  }

  function CommitFrom(d: Disk, rs: seq<Resolved>, i: nat): Run
    requires i <= |rs|
    decreases |rs| - i
  {
    if i == |rs| then Run([], true)
    else
      var r := CommitEntry(d, rs[i]);
      Then(r, CommitFrom(End(d, r), rs, i + 1))
  }

  // The part of the rollback loop that puts one destination back.
  function RestoreEntry(d: Disk, e: Resolved): Run {
    var dest := Lstat(d, e.dest);
    var back := Lstat(d, e.back);
    if dest.Irregular? || back.Irregular? then Run([], false)
    else if e.had then
      if dest.Regular? && dest.digest == e.original then
        if back.Missing? then Run([], true)
        else if back.digest != e.original then Run([], false)
        else Run([Remove(d, e.back)], true)
      else if back.Missing? || back.digest != e.original then Run([], false)
      else if dest.Missing? then Run([Move(d, e.back, e.dest)], true)
      else if dest.digest != e.candidate then Run([], false)
      else
        var cleared := Remove(d, e.dest);
        if e.back in cleared.files then Run([cleared, Move(cleared, e.back, e.dest)], true)
        else Run([cleared], false)
    else if back.Regular? then Run([], false)
    else if dest.Missing? then Run([], true)
    else if dest.digest != e.candidate then Run([], false)
    else Run([Remove(d, e.dest)], true)
  }

  function RollbackEntry(d: Disk, e: Resolved): Run {
    var r := RestoreEntry(d, e);
    Then(r, RemoveKnown(End(d, r), e.temp, true, e.candidate))
  }

  function RollbackFrom(d: Disk, rs: seq<Resolved>, i: nat): Run
    requires i <= |rs|
    decreases |rs| - i
  {
    if i == |rs| then Run([], true)
    else
      var r := RollbackEntry(d, rs[i]);
      Then(r, RollbackFrom(End(d, r), rs, i + 1))
  }

  // One destination holds what it held before the installation.
  predicate Restored(d: Disk, e: Resolved) {
    var dest := Lstat(d, e.dest);
    if e.had then dest.Regular? && dest.digest == e.original else dest.Missing?
  }

  predicate VerifiedFrom(d: Disk, rs: seq<Resolved>, i: nat)
    requires i <= |rs|
    decreases |rs| - i
  {
    i == |rs| || (Restored(d, rs[i]) && VerifiedFrom(d, rs, i + 1))
  }

  function FinishRun(d: Disk): Run {
    Run([DropJournal(d)], true)
  }

  function RecoverSet(d: Disk, rs: seq<Resolved>): Run {
    match ScanFrom(d, rs, 0)
    case Unreadable => Run([], false)
    case AllCandidates =>
      var r := CommitFrom(d, rs, 0);
      Then(r, FinishRun(End(d, r)))
    case NotAll =>
      var r := RollbackFrom(d, rs, 0);
      Then(r, if VerifiedFrom(End(d, r), rs, 0) then FinishRun(End(d, r)) else Run([], false))
  }

  // ---- The journal ----

  // Neither a separator nor a drive mark.
  predicate IsNameByte(b: byte) {
    b != 47 && b != 92 && b != 58
  }

  // A bare file name: safeManifestPath (control/assets.go) accepts it and it has
  // no directory part. That function trims and cleans first, so a name with white
  // space around it or with `./` in front is accepted there and refused here.
  predicate SafeName(t: Text) {
    t != [] && Trimmed(t) && t != [46] && t != [46, 46] && AllFrom(t, IsNameByte, 0)
  }

  function ResolveEntry(e: Entry): Resolved {
    Resolved(Lower(e.destination), Lower(e.temporary), Lower(e.backup),
             e.hadOriginal, Lower(e.original), Lower(e.candidate))
  }

  function ResolveAll(es: seq<Entry>): (rs: seq<Resolved>)
    ensures |rs| == |es|
  {
    seq(|es|, i requires 0 <= i < |es| => ResolveEntry(es[i]))
  }

  predicate WellFormedEntry(e: Entry) {
    && ValidDigest(e.candidate)
    && e.hadOriginal == ValidDigest(e.original)
    && SafeName(e.destination) && SafeName(e.temporary) && SafeName(e.backup)
  }

  function NamesOf(e: Resolved): set<Name> {
    {e.dest, e.temp, e.back}
  }

  predicate OwnNamesDistinct(e: Resolved) {
    e.dest != e.temp && e.dest != e.back && e.temp != e.back
  }

  // No two of the 3n names coincide.
  predicate DistinctNames(rs: seq<Resolved>) {
    && (forall i :: 0 <= i < |rs| ==> OwnNamesDistinct(rs[i]))
    && (forall i, j :: 0 <= i < j < |rs| ==> NamesOf(rs[i]) !! NamesOf(rs[j]))
  }

  predicate Resolvable(s: State) {
    && s.schema == SCHEMA
    && 0 < |s.entries| <= MAX_ENTRIES
    && AllFrom(s.entries, WellFormedEntry, 0)
    && DistinctNames(ResolveAll(s.entries))
  }

  // resolveBinaryInstallState
  function Resolve(s: State): Option<seq<Resolved>> {
    if Resolvable(s) then Some(ResolveAll(s.entries)) else None
  }

  // recoverBuiltBinarySet
  function Recover(d: Disk): Run {
    match d.journal
    case Absent => Run([], true)
    case Unreadable => Run([], false)
    case Written(s) =>
      match Resolve(s)
      case None => Run([], false)
      case Some(rs) => RecoverSet(d, rs)
  }

  // ---- Installation ----

  // `contained`: both paths lie directly in runtime/bin.
  datatype Target = Target(destination: Text, temporary: Text, contained: bool)

  function Decimal(n: nat): Text {
    if n < 10 then [48 + n] else Decimal(n / 10) + [48 + n % 10]
  }

  // ".previous-"
  const PREVIOUS: Text := [46, 112, 114, 101, 118, 105, 111, 117, 115, 45]

  function BackupName(destination: Text, pid: Text, index: nat): Text {
    destination + PREVIOUS + pid + [45] + Decimal(index)
  }

  // The checks made on one target before anything is written, and its entry.
  function PlanTarget(d: Disk, t: Target, pid: Text, index: nat, seen: set<Name>): Option<Entry> {
    var temp := Stat(d, Lower(t.temporary));
    var dest := Stat(d, Lower(t.destination));
    var backup := BackupName(t.destination, pid, index);
    if !temp.Regular? || !t.contained || Lower(t.destination) in seen || dest.Irregular?
       || Lower(backup) in d.files then None
    else Some(Entry(t.destination, t.temporary, backup, dest.Regular?,
                    if dest.Regular? then dest.digest else [], temp.digest))
  }

  function PlanFrom(d: Disk, targets: seq<Target>, pid: Text, i: nat, seen: set<Name>): (plan: Option<seq<Entry>>)
    requires i <= |targets|
    ensures plan.Some? ==> |plan.value| == |targets| - i
    decreases |targets| - i
  {
    if i == |targets| then Some([])
    else match PlanTarget(d, targets[i], pid, i, seen)
      case None => None
      case Some(e) =>
        match PlanFrom(d, targets, pid, i + 1, seen + {Lower(targets[i].destination)})
        case None => None
        case Some(es) => Some([e] + es)
  }

  function RenameEntry(d: Disk, e: Resolved): Run {
    if e.had then
      if e.dest !in d.files then Run([], false)
      else
        var saved := Move(d, e.dest, e.back);
        if e.temp !in saved.files then Run([saved], false)
        else Run([saved, Move(saved, e.temp, e.dest)], true)
    else if e.temp !in d.files then Run([], false)
    else Run([Move(d, e.temp, e.dest)], true)
  }

  function RenameFrom(d: Disk, rs: seq<Resolved>, i: nat): Run
    requires i <= |rs|
    decreases |rs| - i
  {
    if i == |rs| then Run([], true)
    else
      var r := RenameEntry(d, rs[i]);
      Then(r, RenameFrom(End(d, r), rs, i + 1))
  }

  function Journaled(d: Disk, es: seq<Entry>): Disk {
    d.(journal := Written(State(SCHEMA, es)))
  }

  // The renames, then the recovery that commits them or rolls them back.
  function Transaction(d: Disk, es: seq<Entry>): Run {
    var renames := RenameFrom(d, ResolveAll(es), 0);
    var recovery := Recover(End(d, renames));
    Run(renames.steps + recovery.steps, renames.ok && recovery.ok)
  }

  // An installation with no earlier one pending.
  function InstallFresh(d: Disk, targets: seq<Target>, pid: Text): Run {
    match PlanFrom(d, targets, pid, 0, {})
    case None => Run([], false)
    case Some(es) =>
      var t := Transaction(Journaled(d, es), es);
      Run([Journaled(d, es)] + t.steps, t.ok)
  }

  // installBuiltBinarySet
  function Install(d: Disk, targets: seq<Target>, pid: Text): Run {
    if targets == [] then Run([], false)
    else
      var previous := if d.journal.Absent? then Run([], true) else Recover(d);
      Then(previous, InstallFresh(End(d, previous), targets, pid))
  }
}
