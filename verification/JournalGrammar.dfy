// Which journals resolveBinaryInstallState accepts, spelled out
// (control/binary_install.go).
module JournalGrammar {
  import opened Sequences
  import opened Text
  import opened Wrappers
  import opened InstallModel

  // Sixty-four hexadecimal digits with white space around them.
  predicate HexDigit(b: byte) {
    48 <= b <= 57 || 65 <= b <= 70 || 97 <= b <= 102
  }

  predicate SpellsDigest(t: Text, before: Text, digits: Text, after: Text) {
    && t == before + digits + after && Spaces(before) && Spaces(after)
    && |digits| == 64 && forall i :: 0 <= i < 64 ==> HexDigit(digits[i])
  }

  ghost predicate IsDigestText(t: Text) {
    exists before, digits, after :: SpellsDigest(t, before, digits, after)
  }

  lemma HexIff(t: Text)
    ensures AllFrom(t, IsHex, 0) <==> forall i :: 0 <= i < |t| ==> HexDigit(t[i])
  {
    AllFromMeans(t, IsHex, 0);
    forall i | 0 <= i < |t| ensures IsHex(t[i]) <==> HexDigit(t[i]) {
    }
  }

  // A text is its white space in front, what trimming leaves, and that behind.
  lemma {:induction false} LeftSpaces(t: Text)
    ensures |TrimLeft(t)| <= |t| && t == t[..|t| - |TrimLeft(t)|] + TrimLeft(t)
    ensures Spaces(t[..|t| - |TrimLeft(t)|])
  {
    if t != [] && IsSpace(t[0]) {
      LeftSpaces(t[1..]);
      var n := |t| - |TrimLeft(t)|;
      assert t[..n] == [t[0]] + t[1..][..n - 1];
    }
  }

  lemma {:induction false} RightSpaces(t: Text)
    ensures |TrimRight(t)| <= |t| && t == TrimRight(t) + t[|TrimRight(t)|..]
    ensures Spaces(t[|TrimRight(t)|..])
    decreases |t|
  {
    if t != [] && IsSpace(t[|t| - 1]) {
      var front := t[..|t| - 1];
      RightSpaces(front);
      assert t[|TrimRight(t)|..] == front[|TrimRight(t)|..] + [t[|t| - 1]];
    }
  }

  lemma TrimCuts(t: Text) returns (before: Text, after: Text)
    ensures t == before + Trim(t) + after && Spaces(before) && Spaces(after)
  {
    LeftSpaces(t);
    RightSpaces(TrimLeft(t));
    before := t[..|t| - |TrimLeft(t)|];
    after := TrimLeft(t)[|Trim(t)|..];
  }

  lemma DigestSpelled(t: Text, before: Text, digits: Text, after: Text)
    requires SpellsDigest(t, before, digits, after)
    ensures Trim(t) == digits
  {
    assert HexDigit(digits[0]) && HexDigit(digits[63]);
    TrimOf(before, digits, after);
  }

  // The texts taken for digests.
  lemma DigestIff(t: Text)
    ensures ValidDigest(t) <==> IsDigestText(t)
  {
    HexIff(Trim(t));
    if ValidDigest(t) {
      var before, after := TrimCuts(t);
      assert SpellsDigest(t, before, Trim(t), after);
    }
    forall before, digits, after | SpellsDigest(t, before, digits, after) ensures ValidDigest(t) {
      DigestSpelled(t, before, digits, after);
    }
  }

  // Neither empty nor a dot name; no white space around it, and no slash,
  // backslash or colon in it.
  predicate PlainName(t: Text) {
    && |t| > 0 && t != [46] && t != [46, 46] && !IsSpace(t[0]) && !IsSpace(t[|t| - 1])
    && 47 !in t && 92 !in t && 58 !in t
  }

  lemma NameIff(t: Text)
    ensures SafeName(t) <==> PlainName(t)
  {
    AllFromMeans(t, IsNameByte, 0);
    forall i | 0 <= i < |t| ensures t[i] in t {
    }
  }

  ghost predicate PlainEntry(e: Entry) {
    && IsDigestText(e.candidate) && (e.hadOriginal <==> IsDigestText(e.original))
    && PlainName(e.destination) && PlainName(e.temporary) && PlainName(e.backup)
  }

  lemma EntryIff(e: Entry)
    ensures WellFormedEntry(e) <==> PlainEntry(e)
  {
    DigestIff(e.candidate);
    DigestIff(e.original);
    NameIff(e.destination);
    NameIff(e.temporary);
    NameIff(e.backup);
  }

  // The three names of an entry, and of every entry one after the other.
  function PartName(e: Entry, c: nat): Text {
    Lower(if c == 0 then e.destination else if c == 1 then e.temporary else e.backup)
  }

  function NameAt(es: seq<Entry>, i: nat): Text
    requires i < 3 * |es|
  {
    PartName(es[i / 3], i % 3)
  }

  ghost predicate NoNameTwice(es: seq<Entry>) {
    forall i, j :: 0 <= i < j < 3 * |es| ==> NameAt(es, i) != NameAt(es, j)
  }

  lemma NamesAre(e: Entry)
    ensures NamesOf(ResolveEntry(e)) == {PartName(e, 0), PartName(e, 1), PartName(e, 2)}
  {
  }

  lemma PartsDiffer(es: seq<Entry>, j: nat, a: nat, k: nat, b: nat)
    requires NoNameTwice(es) && j <= k < |es| && a < 3 && b < 3 && (j == k ==> a < b)
    ensures PartName(es[j], a) != PartName(es[k], b)
  {
    assert NameAt(es, 3 * j + a) != NameAt(es, 3 * k + b);
  }

  lemma ApartNames(es: seq<Entry>, j: nat, k: nat)
    requires j < k < |es| && NoNameTwice(es)
    ensures NamesOf(ResolveEntry(es[j])) !! NamesOf(ResolveEntry(es[k]))
  {
    NamesAre(es[j]);
    NamesAre(es[k]);
    forall a: nat, b: nat | a < 3 && b < 3 ensures PartName(es[j], a) != PartName(es[k], b) {
      PartsDiffer(es, j, a, k, b);
    }
  }

  lemma OwnNames(es: seq<Entry>, k: nat)
    requires k < |es| && NoNameTwice(es)
    ensures OwnNamesDistinct(ResolveEntry(es[k]))
  {
    PartsDiffer(es, k, 0, k, 1);
    PartsDiffer(es, k, 0, k, 2);
    PartsDiffer(es, k, 1, k, 2);
  }

  lemma DistinctIff(es: seq<Entry>)
    ensures DistinctNames(ResolveAll(es)) <==> NoNameTwice(es)
  {
    var rs := ResolveAll(es);
    if NoNameTwice(es) {
      forall k | 0 <= k < |rs| ensures OwnNamesDistinct(rs[k]) { OwnNames(es, k); }
      forall j, k | 0 <= j < k < |rs| ensures NamesOf(rs[j]) !! NamesOf(rs[k]) { ApartNames(es, j, k); }
    }
    if DistinctNames(rs) {
      forall i, j | 0 <= i < j < 3 * |es| ensures NameAt(es, i) != NameAt(es, j) { NamesOnce(es, i, j); }
    }
  }

  lemma NamesOnce(es: seq<Entry>, i: nat, j: nat)
    requires DistinctNames(ResolveAll(es)) && i < j < 3 * |es|
    ensures NameAt(es, i) != NameAt(es, j)
  {
    var rs := ResolveAll(es);
    NamesAre(es[i / 3]);
    NamesAre(es[j / 3]);
    if i / 3 == j / 3 {
      assert OwnNamesDistinct(rs[i / 3]) && i % 3 < j % 3;
    } else {
      assert NamesOf(rs[i / 3]) !! NamesOf(rs[j / 3]);
    }
  }

  // Main result: a journal resolves exactly if it has the schema 1, one to
  // sixteen entries of plain names and digests, an original exactly where one is
  // said to be, and no name twice, case aside.
  lemma ResolvesIff(st: State)
    ensures Resolve(st).Some? <==>
              && st.schema == 1 && 1 <= |st.entries| <= 16
              && (forall i :: 0 <= i < |st.entries| ==> PlainEntry(st.entries[i]))
              && NoNameTwice(st.entries)
  {
    AllFromMeans(st.entries, WellFormedEntry, 0);
    DistinctIff(st.entries);
    forall i | 0 <= i < |st.entries| ensures WellFormedEntry(st.entries[i]) <==> PlainEntry(st.entries[i]) {
      EntryIff(st.entries[i]);
    }
  }

  // ---- Backup names ----

  // The number that decimal digits spell.
  function Spelled(t: Text): int {
    if t == [] then 0 else 10 * Spelled(t[..|t| - 1]) + (t[|t| - 1] as int - 48)
  }

  lemma {:induction false} DecimalSpells(n: nat)
    ensures Decimal(n) != [] && Spelled(Decimal(n)) == n
    ensures forall i :: 0 <= i < |Decimal(n)| ==> 48 <= Decimal(n)[i] <= 57
  {
    if n >= 10 {
      DecimalSpells(n / 10);
      assert Decimal(n)[..|Decimal(n)| - 1] == Decimal(n / 10);
    } else {
      assert Decimal(n)[..0] == [];
    }
  }

  // A backup is named after its destination, the process and the target's number.
  lemma BackupIs(destination: Text, pid: Text, index: nat) returns (digits: Text)
    ensures Spelled(digits) == index && digits != [] && forall i :: 0 <= i < |digits| ==> 48 <= digits[i] <= 57
    ensures BackupName(destination, pid, index) ==
            destination + [46, 112, 114, 101, 118, 105, 111, 117, 115, 45] + pid + [45] + digits
  {
    digits := Decimal(index);
    DecimalSpells(index);
  }
}
