/**
 * Sequence handling for one selected contig: the reverse complement used
 * for '-' strand hits, and replace_and_remove_bases, which deletes
 * ambiguous bases and trims lower-case (low-coverage) bases at both ends.
 */
module Bases {
  import opened Text

  /** A FASTA record as Biopython's SeqRecord holds it */
  datatype SeqRecord = SeqRecord(id: string, name: string, description: string, sequence: string)

  /** The complement of an IUPAC DNA letter, in either case; every other
      character is left as it is */
  function Complement(c: char): char {
    match c
    case 'A' => 'T' case 'T' => 'A' case 'C' => 'G' case 'G' => 'C'
    case 'M' => 'K' case 'K' => 'M' case 'R' => 'Y' case 'Y' => 'R'
    case 'V' => 'B' case 'B' => 'V' case 'H' => 'D' case 'D' => 'H'
    case 'a' => 't' case 't' => 'a' case 'c' => 'g' case 'g' => 'c'
    case 'm' => 'k' case 'k' => 'm' case 'r' => 'y' case 'y' => 'r'
    case 'v' => 'b' case 'b' => 'v' case 'h' => 'd' case 'd' => 'h'
    case _ => c
  }

  function ReverseComplement(s: string): string {
    seq(|s|, i requires 0 <= i < |s| => Complement(s[|s| - 1 - i]))
  }

  /** Reverse-complementing twice gives back the sequence */
  lemma ReverseComplementInvolution(s: string)
    ensures ReverseComplement(ReverseComplement(s)) == s
  {
    var r := ReverseComplement(s);
    forall i | 0 <= i < |s| ensures ReverseComplement(r)[i] == s[i] {
      assert ReverseComplement(r)[i] == Complement(Complement(s[i]));
    }
  }

  /** The character class of the regex `[N,n]{1,21}` compiled at line 142:
      'N', ',' and 'n' */
  predicate InClass(c: char) {
    c == 'N' || c == ',' || c == 'n'
  }

  /** The upper bound of the repetition `{1,21}` */
  const MAX_RUN: nat := 21

  /** The class [acgtn] of the trimming patterns */
  predicate IsSoft(c: char) {
    c == 'a' || c == 'c' || c == 'g' || c == 't' || c == 'n'
  }

  /** The length of the match of `[N,n]{1,bound}` at the start of s, greedy */
  function RunLength(s: string, bound: nat): (k: nat)
    ensures k <= bound && k <= |s|
    ensures forall i :: 0 <= i < k ==> InClass(s[i])
    ensures |s| > 0 && bound > 0 && InClass(s[0]) ==> k > 0
    decreases bound
  {
    if bound == 0 || s == [] || !InClass(s[0]) then 0 else 1 + RunLength(s[1..], bound - 1)
  }

  /** re.sub(regex, "", s): scanning from the left, each match (1 to 21
      class characters, as many as there are) is deleted and the scan goes
      on after it */
  function SubAmbiguous(s: string): string
    decreases |s|
  {
    if s == [] then []
    else if InClass(s[0]) then SubAmbiguous(s[RunLength(s, MAX_RUN)..])
    else [s[0]] + SubAmbiguous(s[1..])
  }

  /** s with every class character left out */
  function Unambiguous(s: string): string
    decreases |s|
  {
    if s == [] then [] else (if InClass(s[0]) then [] else [s[0]]) + Unambiguous(s[1..])
  }

  /** regex.search(s) */
  predicate HasAmbiguous(s: string) {
    exists i :: 0 <= i < |s| && InClass(s[i])
  }

  /** re.sub("^[acgtn]+", "", s) */
  function StripLeading(s: string): (r: string)
    ensures |r| <= |s| && r == s[|s| - |r|..]
    ensures r == [] || !IsSoft(r[0])
    ensures forall i :: 0 <= i < |s| - |r| ==> IsSoft(s[i])
    decreases |s|
  {
    if s != [] && IsSoft(s[0]) then StripLeading(s[1..]) else s
  }

  /** s without the longest run of [acgtn] at its very end */
  function DropSoftSuffix(s: string): (r: string)
    ensures r <= s
    ensures r == [] || !IsSoft(r[|r| - 1])
    ensures forall i :: |r| <= i < |s| ==> IsSoft(s[i])
    decreases |s|
  {
    if s != [] && IsSoft(s[|s| - 1]) then DropSoftSuffix(s[..|s| - 1]) else s
  }

  /** re.sub("[acgtn]+$", "", s): Python's `$` matches at the end of the
      string and also just before a newline that ends it */
  function StripTrailing(s: string): string {
    if EndsWith(s, '\n') then DropSoftSuffix(s[..|s| - 1]) + "\n" else DropSoftSuffix(s)
  }

  /** StripTrailing removes only a run of soft bases, and all of it: at the
      very end, or just before a final newline, which it keeps */
  lemma StripTrailingSpec(s: string)
    ensures !EndsWith(s, '\n') ==>
      var r := StripTrailing(s);
      r <= s && (r == [] || !IsSoft(r[|r| - 1])) &&
      forall i :: |r| <= i < |s| ==> IsSoft(s[i])
    ensures EndsWith(s, '\n') ==>
      var r := StripTrailing(s);
      var body := s[..|s| - 1];
      |r| > 0 && r[|r| - 1] == '\n' &&
      var kept := r[..|r| - 1];
      kept <= body && (kept == [] || !IsSoft(kept[|kept| - 1])) &&
      forall i :: |kept| <= i < |body| ==> IsSoft(body[i])
  {
    if EndsWith(s, '\n') {
      var kept := DropSoftSuffix(s[..|s| - 1]);
      assert (kept + "\n")[..|kept + "\n"| - 1] == kept;
    }
  }

  /** The three substitutions of replace_and_remove_bases, in order */
  function CleanSequence(s: string): string {
    StripTrailing(StripLeading(SubAmbiguous(s)))
  }

  /** replace_and_remove_bases, lines 96-106 */
  function ReplaceAndRemoveBases(rec: SeqRecord, count: nat): (SeqRecord, nat) {
    var count' := if HasAmbiguous(rec.sequence) then count + 1 else count;
    (SeqRecord(rec.id, "", "", CleanSequence(rec.sequence)), count')
  }

  // ---- the regex substitution deletes every class character ----

  /** A leading block of class characters contributes nothing */
  lemma {:induction false} UnambiguousSkip(s: string, k: nat)
    requires k <= |s| && forall i :: 0 <= i < k ==> InClass(s[i])
    ensures Unambiguous(s) == Unambiguous(s[k..])
    decreases k
  {
    if k > 0 {
      UnambiguousSkip(s[1..], k - 1);
      assert s[1..][k - 1..] == s[k..];
    }
  }

  /** Deleting matches in chunks of at most 21 still deletes every 'N', 'n'
      and ',' and keeps everything else in order: runs longer than 21 go too */
  lemma {:induction false} SubAmbiguousDeletesAll(s: string)
    ensures SubAmbiguous(s) == Unambiguous(s)
    decreases |s|
  {
    if s != [] {
      if InClass(s[0]) {
        var k := RunLength(s, MAX_RUN);
        UnambiguousSkip(s, k);
        SubAmbiguousDeletesAll(s[k..]);
      } else {
        SubAmbiguousDeletesAll(s[1..]);
      }
    }
  }

  lemma {:induction false} UnambiguousHasNone(s: string)
    ensures forall i :: 0 <= i < |Unambiguous(s)| ==> !InClass(Unambiguous(s)[i])
    decreases |s|
  {
    if s != [] {
      UnambiguousHasNone(s[1..]);
    }
  }

  lemma {:induction false} UnambiguousNoop(s: string)
    requires !HasAmbiguous(s)
    ensures Unambiguous(s) == s
    decreases |s|
  {
    if s != [] {
      assert !InClass(s[0]);
      assert !HasAmbiguous(s[1..]) by {
        forall i | 0 <= i < |s[1..]| ensures !InClass(s[1..][i]) {
          assert s[1..][i] == s[i + 1];
        }
      }
      UnambiguousNoop(s[1..]);
    }
  }

  // ---- subsequences ----

  /** a is obtained from b by deleting characters */
  ghost predicate IsSubsequence(a: string, b: string)
    decreases |b|
  {
    a == [] || (b != [] && ((a[0] == b[0] && IsSubsequence(a[1..], b[1..])) || IsSubsequence(a, b[1..])))
  }

  lemma {:induction false} SubsequenceReflexive(a: string)
    ensures IsSubsequence(a, a)
    decreases |a|
  {
    if a != [] {
      SubsequenceReflexive(a[1..]);
    }
  }

  /** Deleting a prefix leaves a subsequence */
  lemma {:induction false} SuffixSubsequence(b: string, n: nat)
    requires n <= |b|
    ensures IsSubsequence(b[n..], b)
    decreases n
  {
    if n == 0 {
      assert b[0..] == b;
      SubsequenceReflexive(b);
    } else {
      SuffixSubsequence(b[1..], n - 1);
      assert b[1..][n - 1..] == b[n..];
    }
  }

  /** Deleting the block b[m..n] leaves a subsequence */
  lemma {:induction false} DeleteBlock(b: string, m: nat, n: nat)
    requires m <= n <= |b|
    ensures IsSubsequence(b[..m] + b[n..], b)
    decreases m
  {
    var a := b[..m] + b[n..];
    if m == 0 {
      assert a == b[n..];
      SuffixSubsequence(b, n);
    } else {
      var b' := b[1..];
      DeleteBlock(b', m - 1, n - 1);
      assert b'[..m - 1] == b[1..m] && b'[n - 1..] == b[n..];
      assert a[1..] == b[1..m] + b[n..];
      assert a[0] == b[0];
    }
  }

  lemma {:induction false} SubsequenceTransitive(a: string, b: string, c: string)
    requires IsSubsequence(a, b) && IsSubsequence(b, c)
    ensures IsSubsequence(a, c)
    decreases |c|
  {
    if a != [] {
      if b[0] == c[0] && IsSubsequence(b[1..], c[1..]) {
        if a[0] == b[0] && IsSubsequence(a[1..], b[1..]) {
          SubsequenceTransitive(a[1..], b[1..], c[1..]);
        } else {
          SubsequenceTransitive(a, b[1..], c[1..]);
        }
      } else {
        SubsequenceTransitive(a, b, c[1..]);
      }
    }
  }

  lemma {:induction false} SubsequenceElements(a: string, b: string, x: char)
    requires IsSubsequence(a, b) && x in a
    ensures x in b
    decreases |b|
  {
    if a[0] == b[0] && IsSubsequence(a[1..], b[1..]) {
      if x != a[0] {
        SubsequenceElements(a[1..], b[1..], x);
      }
    } else {
      SubsequenceElements(a, b[1..], x);
    }
  }

  lemma {:induction false} UnambiguousSubsequence(s: string)
    ensures IsSubsequence(Unambiguous(s), s)
    decreases |s|
  {
    if s != [] {
      UnambiguousSubsequence(s[1..]);
      if InClass(s[0]) {
        assert Unambiguous(s) == Unambiguous(s[1..]);
      } else {
        assert Unambiguous(s)[1..] == Unambiguous(s[1..]);
      }
    }
  }

  lemma StripLeadingSubsequence(u: string)
    ensures IsSubsequence(StripLeading(u), u)
  {
    var l := StripLeading(u);
    DeleteBlock(u, 0, |u| - |l|);
    assert u[..0] + u[|u| - |l|..] == l;
  }

  lemma StripTrailingSubsequence(l: string)
    ensures IsSubsequence(StripTrailing(l), l)
  {
    var t := StripTrailing(l);
    if EndsWith(l, '\n') {
      var d := DropSoftSuffix(l[..|l| - 1]);
      DeleteBlock(l, |d|, |l| - 1);
      assert l[..|d|] + l[|l| - 1..] == t;
    } else {
      DeleteBlock(l, |t|, |l|);
      assert l[..|t|] + l[|l|..] == t;
    }
  }

  /** The trimming steps delete one block at each end */
  lemma TrimmedSubsequence(u: string)
    ensures IsSubsequence(StripTrailing(StripLeading(u)), u)
  {
    var l := StripLeading(u);
    StripLeadingSubsequence(u);
    StripTrailingSubsequence(l);
    SubsequenceTransitive(StripTrailing(l), l, u);
  }

  // ---- what replace_and_remove_bases promises ----

  /** The new record keeps the id, drops name and description, holds no
      'N', 'n' or ',' at all, is the old sequence with characters deleted,
      has no [acgtn] at either end; the counter goes up by one exactly when
      the old sequence held a class character */
  lemma ReplaceAndRemoveBasesSpec(rec: SeqRecord, count: nat)
    ensures var (out, count') := ReplaceAndRemoveBases(rec, count);
      out.id == rec.id && out.name == "" && out.description == "" &&
      (count' == count + 1 <==> HasAmbiguous(rec.sequence)) &&
      (count' == count <==> !HasAmbiguous(rec.sequence)) &&
      (forall i :: 0 <= i < |out.sequence| ==> !InClass(out.sequence[i])) &&
      IsSubsequence(out.sequence, rec.sequence) &&
      (out.sequence == [] || (!IsSoft(out.sequence[0]) && !IsSoft(out.sequence[|out.sequence| - 1])))
  {
    CleanSequenceSpec(rec.sequence);
  }

  lemma CleanSequenceSpec(s: string)
    ensures forall i :: 0 <= i < |CleanSequence(s)| ==> !InClass(CleanSequence(s)[i])
    ensures IsSubsequence(CleanSequence(s), s)
    ensures IsSubsequence(CleanSequence(s), Unambiguous(s))
    ensures CleanSequence(s) == [] ||
      (!IsSoft(CleanSequence(s)[0]) && !IsSoft(CleanSequence(s)[|CleanSequence(s)| - 1]))
  {
    var u := Unambiguous(s);
    var c := StripTrailing(StripLeading(u));
    SubAmbiguousDeletesAll(s);
    assert CleanSequence(s) == c;
    UnambiguousSubsequence(s);
    UnambiguousHasNone(s);
    TrimmedSubsequence(u);
    SubsequenceTransitive(c, u, s);
    NoClassInSubsequence(c, u);
    TrimmedEnds(u);
  }

  /** Deleting characters cannot bring in a class character */
  lemma NoClassInSubsequence(a: string, b: string)
    requires IsSubsequence(a, b) && forall i :: 0 <= i < |b| ==> !InClass(b[i])
    ensures forall i :: 0 <= i < |a| ==> !InClass(a[i])
  {
    forall i | 0 <= i < |a| ensures !InClass(a[i]) {
      SubsequenceElements(a, b, a[i]);
    }
  }

  /** Dropping a soft tail keeps a leading character that is not soft */
  lemma DropSoftSuffixHead(l: string)
    requires l == [] || !IsSoft(l[0])
    ensures var d := DropSoftSuffix(l); d == [] || !IsSoft(d[0])
  {
    var d := DropSoftSuffix(l);
    if d != [] {
      assert d[0] == l[0];
    }
  }

  /** After trimming, neither end is a character of [acgtn] */
  lemma TrimmedEnds(u: string)
    ensures var t := StripTrailing(StripLeading(u));
      t == [] || (!IsSoft(t[0]) && !IsSoft(t[|t| - 1]))
  {
    var l := StripLeading(u);
    assert l == [] || !IsSoft(l[0]);
    TrailingEnds(l);
  }

  /** Trimming the tail of a sequence whose head is not soft leaves
      neither end soft */
  lemma TrailingEnds(l: string)
    requires l == [] || !IsSoft(l[0])
    ensures var t := StripTrailing(l);
      t == [] || (!IsSoft(t[0]) && !IsSoft(t[|t| - 1]))
  {
    if EndsWith(l, '\n') {
      NewlineTailEnds(l);
    } else {
      DropSoftSuffixHead(l);
    }
  }

  /** The same, when `$` matches before a final newline */
  lemma NewlineTailEnds(l: string)
    requires EndsWith(l, '\n') && !IsSoft(l[0])
    ensures var t := StripTrailing(l);
      t != [] && !IsSoft(t[0]) && !IsSoft(t[|t| - 1])
  {
    var l' := l[..|l| - 1];
    if l' != [] {
      assert l'[0] == l[0];
    }
    DropSoftSuffixHead(l');
    var d := DropSoftSuffix(l');
    assert (d + "\n")[|d|] == '\n';
    if d != [] {
      assert (d + "\n")[0] == d[0];
    }
  }

  /** Cleaning a cleaned sequence changes nothing and finds no class
      character, for sequences without a newline (FASTA sequences never
      hold one) */
  lemma CleanSequenceIdempotent(s: string)
    requires '\n' !in s
    ensures !HasAmbiguous(CleanSequence(s))
    ensures CleanSequence(CleanSequence(s)) == CleanSequence(s)
  {
    var c := CleanSequence(s);
    CleanSequenceSpec(s);
    assert '\n' !in c by {
      if '\n' in c {
        SubsequenceElements(c, s, '\n');
      }
    }
    NothingToReplace(c);
    assert StripLeading(c) == c;
    assert !EndsWith(c, '\n');
  }

  /** replace_and_remove_bases applied to its own output returns the same
      record and leaves the counter alone */
  lemma ReplaceAndRemoveBasesIdempotent(rec: SeqRecord, count: nat, count2: nat)
    requires '\n' !in rec.sequence
    ensures var out := ReplaceAndRemoveBases(rec, count).0;
      ReplaceAndRemoveBases(out, count2) == (out, count2)
  {
    CleanSequenceIdempotent(rec.sequence);
  }

  /** With a newline inside, the `$` rule makes a second pass trim again */
  lemma NewlineBreaksIdempotence()
    ensures CleanSequence(['X', 'a', '\n', 'a', 'c', 'g']) == ['X', 'a', '\n']
    ensures CleanSequence(['X', 'a', '\n']) == ['X', '\n']
  {
    FirstPass();
    SecondPass();
  }

  lemma FirstPass()
    ensures CleanSequence(['X', 'a', '\n', 'a', 'c', 'g']) == ['X', 'a', '\n']
  {
    var s := ['X', 'a', '\n', 'a', 'c', 'g'];
    assert SubAmbiguous(s) == s by {
      assert !HasAmbiguous(s) by {
        forall i | 0 <= i < |s| ensures !InClass(s[i]) {
        }
      }
      NothingToReplace(s);
    }
    assert StripLeading(s) == s;
    DropSoftSuffixAt(s, 3);
    assert s[..3] == ['X', 'a', '\n'];
  }

  /** DropSoftSuffix stops at n when s[n - 1] is not soft and all after it is */
  lemma DropSoftSuffixAt(s: string, n: nat)
    requires n <= |s| && (n == 0 || !IsSoft(s[n - 1]))
    requires forall i :: n <= i < |s| ==> IsSoft(s[i])
    ensures DropSoftSuffix(s) == s[..n]
  {
  }

  lemma SecondPass()
    ensures CleanSequence(['X', 'a', '\n']) == ['X', '\n']
  {
    var c := ['X', 'a', '\n'];
    assert SubAmbiguous(c) == c by {
      assert !HasAmbiguous(c) by {
        forall i | 0 <= i < |c| ensures !InClass(c[i]) {
        }
      }
      NothingToReplace(c);
    }
    assert StripLeading(c) == c;
    DropSoftSuffixAt(['X', 'a'], 1);
    assert ['X', 'a'][..1] == ['X'];
    assert c[..2] == ['X', 'a'];
  }

  /** Without class characters the substitution changes nothing */
  lemma NothingToReplace(s: string)
    requires !HasAmbiguous(s)
    ensures SubAmbiguous(s) == s
  {
    SubAmbiguousDeletesAll(s);
    UnambiguousNoop(s);
  }

  /** Nothing for replace_and_remove_bases to delete or trim */
  predicate NothingToClean(s: string) {
    !HasAmbiguous(s) && '\n' !in s && (s == [] || (!IsSoft(s[0]) && !IsSoft(s[|s| - 1])))
  }

  /** On such a sequence the cleanup is the identity */
  lemma CleanSequenceNoop(s: string)
    requires NothingToClean(s)
    ensures CleanSequence(s) == s
  {
    NothingToReplace(s);
    assert StripLeading(s) == s;
    assert !EndsWith(s, '\n') by {
      if s != [] {
        assert s[|s| - 1] in s;
      }
    }
  }

  /** Complementing maps the class characters, the [acgtn] characters and
      the newline each onto themselves */
  lemma ComplementKeepsClasses(c: char)
    ensures InClass(Complement(c)) <==> InClass(c)
    ensures IsSoft(Complement(c)) <==> IsSoft(c)
    ensures Complement(c) == '\n' <==> c == '\n'
  {
  }

  /** Reverse-complementing neither adds nor removes anything the cleanup
      looks at: orientation does not change whether the counter goes up,
      nor whether there is anything to clean */
  lemma ReverseComplementCleanliness(s: string)
    ensures HasAmbiguous(ReverseComplement(s)) <==> HasAmbiguous(s)
    ensures NothingToClean(ReverseComplement(s)) <==> NothingToClean(s)
  {
    var r := ReverseComplement(s);
    forall i | 0 <= i < |s|
      ensures InClass(r[i]) <==> InClass(s[|s| - 1 - i])
      ensures IsSoft(r[i]) <==> IsSoft(s[|s| - 1 - i])
      ensures r[i] == '\n' <==> s[|s| - 1 - i] == '\n'
    {
      ComplementKeepsClasses(s[|s| - 1 - i]);
    }
    if HasAmbiguous(s) {
      var i :| 0 <= i < |s| && InClass(s[i]);
      assert InClass(r[|s| - 1 - i]);
    }
    if HasAmbiguous(r) {
      var i :| 0 <= i < |r| && InClass(r[i]);
      assert InClass(s[|s| - 1 - i]);
    }
    if '\n' in s {
      var i :| 0 <= i < |s| && s[i] == '\n';
      assert r[|s| - 1 - i] == '\n';
    }
    if '\n' in r {
      var i :| 0 <= i < |r| && r[i] == '\n';
      assert s[|s| - 1 - i] == '\n';
    }
  }
}
