/**
 * find_file: locates an organism's assembled-contig file under a directory,
 * trying several extensions, the name with '-' or '_', and each path as
 * given or lower-cased. The filesystem is the set of paths that are files.
 */
module ContigFiles {
  import opened Wrappers
  import opened Failures
  import opened Text

  const EXTENSIONS: seq<string> :=
    [".fa", ".fasta", ".contigs.fasta", ".contigs.fa", ".gz", ".fasta.gz", ".fa.gz"]

  /** os.path.join(a, b) on POSIX: an absolute b replaces a, and no second
      separator is added after a trailing '/' */
  function Join(a: string, b: string): string {
    if |b| > 0 && b[0] == '/' then b
    else if a == [] || a[|a| - 1] == '/' then a + b
    else a + "/" + b
  }

  /** b ends the joined path; an absolute b is the whole of it; otherwise
      a comes first, followed by one '/' exactly when a is non-empty and
      does not already end in one */
  lemma JoinSpec(a: string, b: string)
    ensures var j := Join(a, b);
      |b| <= |j| && j[|j| - |b|..] == b
    ensures |b| > 0 && b[0] == '/' ==> Join(a, b) == b
    ensures !(|b| > 0 && b[0] == '/') ==>
      Join(a, b) == a + (if a != [] && a[|a| - 1] != '/' then "/" else "") + b
  {
  }

  /** The v-th path tried for one extension: reads1, reads1.lower(), reads2,
      reads2.lower(), where reads2 spells the name with '_' for '-' */
  function Attempt(contigs: string, name: string, ext: string, v: nat): string
    requires v < 4
  {
    var path := Join(contigs, if v < 2 then name else ReplaceChar(name, '-', '_')) + ext;
    if v % 2 == 0 then path else Lower(path)
  }

  /** The paths tried for the given extensions, in order */
  function CandidatesFor(contigs: string, name: string, exts: seq<string>): (r: seq<string>)
    ensures |r| == 4 * |exts|
    decreases |exts|
  {
    if exts == [] then []
    else
      var ext := exts[|exts| - 1];
      CandidatesFor(contigs, name, exts[..|exts| - 1]) +
      [Attempt(contigs, name, ext, 0), Attempt(contigs, name, ext, 1),
       Attempt(contigs, name, ext, 2), Attempt(contigs, name, ext, 3)]
  }

  /** Every path find_file may try, in the order it tries them */
  function Candidates(contigs: string, name: string): seq<string> {
    CandidatesFor(contigs, name, EXTENSIONS)
  }

  lemma {:induction false} CandidatesForAt(contigs: string, name: string, exts: seq<string>, e: nat, v: nat)
    requires e < |exts| && v < 4
    ensures |CandidatesFor(contigs, name, exts)| == 4 * |exts|
    ensures CandidatesFor(contigs, name, exts)[4 * e + v] == Attempt(contigs, name, exts[e], v)
    decreases |exts|
  {
    var front, ext := exts[..|exts| - 1], exts[|exts| - 1];
    var before := CandidatesFor(contigs, name, front);
    var last := [Attempt(contigs, name, ext, 0), Attempt(contigs, name, ext, 1),
                 Attempt(contigs, name, ext, 2), Attempt(contigs, name, ext, 3)];
    assert CandidatesFor(contigs, name, exts) == before + last;
    if e < |front| {
      CandidatesForAt(contigs, name, front, e, v);
      assert front[e] == exts[e];
      assert (before + last)[4 * e + v] == before[4 * e + v];
    } else {
      assert (before + last)[4 * e + v] == last[v];
    }
  }

  lemma CandidateAt(contigs: string, name: string, e: nat, v: nat)
    requires e < |EXTENSIONS| && v < 4
    ensures |Candidates(contigs, name)| == 4 * |EXTENSIONS|
    ensures Candidates(contigs, name)[4 * e + v] == Attempt(contigs, name, EXTENSIONS[e], v)
  {
    CandidatesForAt(contigs, name, EXTENSIONS, e, v);
  }

  /** The first of the paths that is a file */
  function FirstExisting(paths: seq<string>, existing: set<string>): (r: Option<string>)
    ensures r.Some? ==> r.value in existing
    decreases |paths|
  {
    if paths == [] then None
    else if paths[0] in existing then Some(paths[0])
    else FirstExisting(paths[1..], existing)
  }

  /** FirstExisting returns a file, and every path before it is not one;
      it returns nothing exactly when no path is a file */
  lemma {:induction false} FirstExistingSpec(paths: seq<string>, existing: set<string>)
    ensures FirstExisting(paths, existing).Some? ==>
      var p := FirstExisting(paths, existing).value;
      p in existing &&
      exists i :: 0 <= i < |paths| && paths[i] == p && forall j :: 0 <= j < i ==> paths[j] !in existing
    ensures FirstExisting(paths, existing).None? <==> forall j :: 0 <= j < |paths| ==> paths[j] !in existing
    decreases |paths|
  {
    if paths != [] && paths[0] !in existing {
      FirstExistingSpec(paths[1..], existing);
      if FirstExisting(paths, existing).Some? {
        var p := FirstExisting(paths, existing).value;
        var i :| 0 <= i < |paths[1..]| && paths[1..][i] == p &&
          forall j :: 0 <= j < i ==> paths[1..][j] !in existing;
        assert paths[i + 1] == p;
      }
      assert forall j :: 0 < j < |paths| ==> paths[j] == paths[1..][j - 1];
    }
  }

  /** A file at position h with no file before it is what FirstExisting returns */
  lemma {:induction false} FirstExistingAt(paths: seq<string>, existing: set<string>, h: nat)
    requires h < |paths| && paths[h] in existing
    requires forall j :: 0 <= j < h ==> paths[j] !in existing
    ensures FirstExisting(paths, existing) == Some(paths[h])
    decreases h
  {
    if h > 0 {
      FirstExistingAt(paths[1..], existing, h - 1);
    }
  }

  /** When exactly one of the candidates is a file, that file is found,
      whichever position it has in the search order */
  lemma OnlyCandidate(paths: seq<string>, existing: set<string>, c: string)
    requires c in paths && c in existing
    requires forall j :: 0 <= j < |paths| && paths[j] in existing ==> paths[j] == c
    ensures FirstExisting(paths, existing) == Some(c)
  {
    FirstExistingSpec(paths, existing);
  }

  /** The paths tried for a concatenation of extension lists are those of
      the first list followed by those of the second */
  lemma {:induction false} CandidatesForAppend(contigs: string, name: string, a: seq<string>, b: seq<string>)
    ensures CandidatesFor(contigs, name, a + b) == CandidatesFor(contigs, name, a) + CandidatesFor(contigs, name, b)
    decreases |b|
  {
    if b == [] {
      assert a + b == a;
    } else {
      var front := b[..|b| - 1];
      assert (a + b)[..|a + b| - 1] == a + front;
      CandidatesForAppend(contigs, name, a, front);
    }
  }

  /** FirstExisting looks at a second list of paths only when the first
      holds no file */
  lemma {:induction false} FirstExistingAppend(a: seq<string>, b: seq<string>, existing: set<string>)
    ensures FirstExisting(a + b, existing) ==
      if FirstExisting(a, existing).Some? then FirstExisting(a, existing) else FirstExisting(b, existing)
    decreases |a|
  {
    if a == [] {
      assert a + b == b;
    } else {
      assert (a + b)[1..] == a[1..] + b;
      FirstExistingAppend(a[1..], b, existing);
    }
  }

  /** One pass of the inner loop of find_file: the path if it is a file,
      else its lower-cased form if that is one */
  method TryPath(existing: set<string>, path: string) returns (hit: Option<string>)
    ensures hit == FirstExisting([path, Lower(path)], existing)
  {
    if path in existing {
      return Some(path);
    }
    var lowered := Lower(path);
    assert [path, lowered][1..] == [lowered];
    if lowered in existing {
      return Some(lowered);
    }
    assert [lowered][1..] == [];
    assert FirstExisting([lowered], existing) == None;
    return None;
  }

  /** The search of find_file over a list of extensions */
  method Search(existing: set<string>, contigs: string, name: string, exts: seq<string>)
      returns (found: Option<string>)
    ensures found == FirstExisting(CandidatesFor(contigs, name, exts), existing)
  {
    for e := 0 to |exts|
      invariant FirstExisting(CandidatesFor(contigs, name, exts[..e]), existing) == None
    {
      var ext := exts[e];
      var path1 := Join(contigs, name) + ext;
      var path2 := Join(contigs, ReplaceChar(name, '-', '_')) + ext;
      ghost var pair1, pair2 := [path1, Lower(path1)], [path2, Lower(path2)];
      assert exts[..e + 1][..e] == exts[..e];
      assert CandidatesFor(contigs, name, exts[..e + 1]) == CandidatesFor(contigs, name, exts[..e]) + (pair1 + pair2);
      FirstExistingAppend(CandidatesFor(contigs, name, exts[..e]), pair1 + pair2, existing);
      FirstExistingAppend(pair1, pair2, existing);
      for w := 0 to 2
        invariant 0 < w ==> FirstExisting(pair1, existing) == None
        invariant w == 2 ==> FirstExisting(pair2, existing) == None
      {
        var path := if w == 0 then path1 else path2;
        var hit := TryPath(existing, path);
        if hit.Some? {
          assert exts == exts[..e + 1] + exts[e + 1..];
          CandidatesForAppend(contigs, name, exts[..e + 1], exts[e + 1..]);
          FirstExistingAppend(CandidatesFor(contigs, name, exts[..e + 1]), CandidatesFor(contigs, name, exts[e + 1..]), existing);
          return hit;
        }
      }
    }
    assert exts[..|exts|] == exts;
    return None;
  }

  /** find_file, lines 56-84 */
  method FindFile(existing: set<string>, contigs: string, name: string) returns (r: Result<string, Failure>)
    ensures r == match FirstExisting(Candidates(contigs, name), existing)
                 case Some(p) => Success(p)
                 case None => Failure(FastaNotFound(name, EXTENSIONS))
  {
    var found := Search(existing, contigs, name, EXTENSIONS);
    if found.None? {
      return Failure(FastaNotFound(name, EXTENSIONS));
    }
    return Success(found.value);
  }
}
