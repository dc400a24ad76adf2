/**
 * The organism loop of main: for each organism, find its contig file, build
 * its node dictionary, rename, orient and clean the contigs that are locus
 * hits, report missing loci, and check that every requested locus was
 * accounted for.
 */
module UceFastas {
  import opened Wrappers
  import opened Failures
  import opened Text
  import opened NodeIds
  import opened LocusMap
  import opened ContigFiles
  import opened Bases

  /** The options main reads */
  datatype Config = Config(
    contigs: string,        // args.contigs
    extendContigs: string,  // args.extend_locus_contigs; "" when not given
    matrix: Matrix,         // Incomplete when args.incomplete_matrix is given
    uces: seq<string>)      // the names of the Loci section

  /** The rows the match_map query returns for each organism column, from
      the primary database and from the attached extended one */
  datatype Store = Store(primary: map<string, seq<Row>>, extended: map<string, seq<Row>>)

  /** The contig files: each path that is a file, with its parsed records */
  type Files = map<string, seq<SeqRecord>>

  /** An organism name ending in '*' belongs to the extended data */
  predicate IsExtended(organism: string) {
    EndsWith(organism, '*')
  }

  /** "{0}_{1} |{0}".format(uce, organism.rstrip('*')) */
  function OutputId(uce: string, organism: string): string {
    uce + "_" + RStrip(organism, '*') + " |" + uce
  }

  function Orient(s: string, strand: char): string {
    if strand == '-' then ReverseComplement(s) else s
  }

  /** One pass of the contig loop (lines 194-213): the record written and
      its locus; None for a contig that is not a locus hit */
  function Transform(rec: SeqRecord, nodes: map<string, Hit>, organism: string, count: nat)
    : Result<Option<(SeqRecord, string, nat)>, Failure>
  {
    match GetContigName(rec.id)
    case Failure(e) => Failure(e)
    case Success(contig) =>
      var key := Lower(contig);
      if key !in nodes then Success(None)
      else
        var hit := nodes[key];
        var renamed := rec.(id := OutputId(hit.uce, organism), name := "", description := "",
                            sequence := Orient(rec.sequence, hit.strand));
        var (out, count') := ReplaceAndRemoveBases(renamed, count);
        Success(Some((out, hit.uce, count')))
  }

  /** The state of the contig loop: records written, the `written` list,
      the cleanup counter, and the exception that stopped the loop */
  datatype Scan = Scan(out: seq<SeqRecord>, loci: seq<string>, count: nat, failure: Option<Failure>)

  /** The contig loop over a prefix of the records, last record last */
  function ScanRecords(records: seq<SeqRecord>, nodes: map<string, Hit>, organism: string): Scan
    decreases |records|
  {
    if records == [] then Scan([], [], 0, None)
    else
      var prev := ScanRecords(records[..|records| - 1], nodes, organism);
      if prev.failure.Some? then prev
      else
        match Transform(records[|records| - 1], nodes, organism, prev.count)
        case Failure(e) => prev.(failure := Some(e))
        case Success(None) => prev
        case Success(Some((out, uce, count'))) => Scan(prev.out + [out], prev.loci + [uce], count', None)
  }

  /** What processing one organism appends to the two output files, and the
      exception that ends the run, if any */
  datatype Outcome = Outcome(fasta: seq<SeqRecord>, report: seq<string>, failure: Option<Failure>)

  /** Where an organism's data lives: the contig file name searched for,
      its directory, and the database column and table queried */
  datatype Source = Source(fileName: string, dir: string, column: string, table: map<string, seq<Row>>)

  /** Lines 149-169 */
  function SourceOf(cfg: Config, store: Store, organism: string): Source {
    var name := ReplaceChar(organism, '_', '-');
    if IsExtended(organism) then Source(RStrip(name, '*'), cfg.extendContigs, RStrip(organism, '*'), store.extended)
    else Source(name, cfg.contigs, organism, store.primary)
  }

  /** What is reported and raised after the contig loop, lines 214-228 */
  function Reconcile(cfg: Config, organism: string, scan: Scan, missing: seq<string>): Outcome {
    var reported := cfg.matrix == Incomplete && missing != [];
    var report := if reported then ["[" + organism + "]"] + missing else [];
    var loci := scan.loci + (if reported then missing else []);
    var failure := if Elems(loci) == Elems(cfg.uces) then None else Some(NamesDoNotMatch(organism));
    Outcome(scan.out, report, failure)
  }

  /** Lines 170-228, once the contig file has been found */
  function FromFile(cfg: Config, src: Source, records: seq<SeqRecord>, organism: string): Outcome {
    if src.column !in src.table then Outcome([], [], Some(QueryFailed(src.column)))
    else
      match Resolve(src.table[src.column], cfg.matrix)
      case Failure(e) => Outcome([], [], Some(e))
      case Success(nt) =>
        var scan := ScanRecords(records, nt.nodes, organism);
        if scan.failure.Some? then Outcome(scan.out, [], scan.failure)
        else Reconcile(cfg, organism, scan, nt.missing)
  }

  /** Lines 149-228 for one organism */
  function ProcessSpec(cfg: Config, store: Store, files: Files, organism: string): Outcome
  {
    var src := SourceOf(cfg, store, organism);
    match FirstExisting(Candidates(src.dir, src.fileName), files.Keys)
    case None => Outcome([], [], Some(FastaNotFound(src.fileName, EXTENSIONS)))
    case Some(path) => FromFile(cfg, src, files[path], organism)
  }

  /** The organism loop: organisms in order, stopping at the first exception */
  function RunSpec(cfg: Config, store: Store, files: Files, organisms: seq<string>): Outcome
    decreases |organisms|
  {
    if organisms == [] then Outcome([], [], None)
    else
      var prev := RunSpec(cfg, store, files, organisms[..|organisms| - 1]);
      if prev.failure.Some? then prev
      else
        var o := ProcessSpec(cfg, store, files, organisms[|organisms| - 1]);
        Outcome(prev.fasta + o.fasta, prev.report + o.report, o.failure)
  }

  /** Once a record's header has raised, later records do not matter */
  lemma {:induction false} ScanFailureSticks(records: seq<SeqRecord>, nodes: map<string, Hit>, organism: string, i: nat)
    requires i <= |records| && ScanRecords(records[..i], nodes, organism).failure.Some?
    ensures ScanRecords(records, nodes, organism) == ScanRecords(records[..i], nodes, organism)
    decreases |records|
  {
    if i < |records| {
      var front := records[..|records| - 1];
      assert front[..i] == records[..i];
      ScanFailureSticks(front, nodes, organism, i);
    } else {
      assert records[..i] == records;
    }
  }

  /** The two output streams of main */
  class Pipeline {
    var fasta: seq<SeqRecord>   // records written to the combined FASTA output
    var report: seq<string>     // lines written to the incomplete-matrix file

    constructor ()
      ensures fasta == [] && report == []
    {
      fasta := [];
      report := [];
    }

    /** The contig loop, lines 193-213: writes the hits and returns the
        `written` list and the cleanup counter, or the header that raised */
    method WriteHits(records: seq<SeqRecord>, nodeDict: map<string, Hit>, organism: string)
        returns (failure: Option<Failure>, written: seq<string>, count: nat)
      modifies this
      ensures var scan := ScanRecords(records, nodeDict, organism);
        fasta == old(fasta) + scan.out && report == old(report) && failure == scan.failure &&
        (failure.None? ==> written == scan.loci && count == scan.count)
    {
      written, count := [], 0;
      for i := 0 to |records|
        invariant var scan := ScanRecords(records[..i], nodeDict, organism);
          scan.failure.None? && fasta == old(fasta) + scan.out && written == scan.loci &&
          count == scan.count && report == old(report)
      {
        assert records[..i + 1][..i] == records[..i];
        var rec := records[i];
        var contig := GetContigName(rec.id);
        if contig.Failure? {
          ScanFailureSticks(records, nodeDict, organism, i + 1);
          return Some(contig.error), written, count;
        }
        var key := Lower(contig.value);
        if key in nodeDict {
          var hit := nodeDict[key];
          rec := rec.(id := OutputId(hit.uce, organism), name := "", description := "");
          if hit.strand == '-' {
            rec := rec.(sequence := ReverseComplement(rec.sequence));
          }
          var cleaned := ReplaceAndRemoveBases(rec, count);
          rec, count := cleaned.0, cleaned.1;
          AppendAssociates(old(fasta), ScanRecords(records[..i], nodeDict, organism).out, [rec]);
          fasta := fasta + [rec];
          written := written + [hit.uce];
        }
      }
      assert records[..|records|] == records;
      failure := None;
    }

    /** Lines 214-228: report the missing loci and compare the loci
        accounted for with the requested ones */
    method ReportMissing(cfg: Config, organism: string, written: seq<string>, missing: seq<string>)
        returns (failure: Option<Failure>)
      modifies this
      ensures var o := Reconcile(cfg, organism, Scan([], written, 0, None), missing);
        fasta == old(fasta) && report == old(report) + o.report && failure == o.failure
    {
      var loci := written;
      if cfg.matrix == Incomplete && missing != [] {
        report := report + ["[" + organism + "]"];
        ghost var head := report;
        for j := 0 to |missing|
          invariant report == head + missing[..j]
          invariant loci == written + missing[..j]
          invariant fasta == old(fasta)
        {
          assert missing[..j + 1] == missing[..j] + [missing[j]];
          AppendAssociates(head, missing[..j], [missing[j]]);
          AppendAssociates(written, missing[..j], [missing[j]]);
          report := report + [missing[j]];
          loci := loci + [missing[j]];
        }
        assert missing[..|missing|] == missing;
        AppendAssociates(old(report), ["[" + organism + "]"], missing);
      }
      if Elems(loci) != Elems(cfg.uces) {
        return Some(NamesDoNotMatch(organism));
      }
      return None;
    }

    /** The body of the organism loop, lines 147-228 */
    method ProcessOrganism(cfg: Config, store: Store, files: Files, organism: string)
        returns (failure: Option<Failure>)
      requires IsExtended(organism) ==> cfg.extendContigs != ""
      modifies this
      ensures var o := ProcessSpec(cfg, store, files, organism);
        fasta == old(fasta) + o.fasta && report == old(report) + o.report && failure == o.failure
    {
      var name := ReplaceChar(organism, '_', '-');
      var dir, column, table;
      if IsExtended(organism) {
        name := RStrip(name, '*');
        dir, column, table := cfg.extendContigs, RStrip(organism, '*'), store.extended;
      } else {
        dir, column, table := cfg.contigs, organism, store.primary;
      }
      ghost var src := Source(name, dir, column, table);
      assert src == SourceOf(cfg, store, organism);
      var found := FindFile(files.Keys, dir, name);
      if found.Failure? {
        return Some(found.error);
      }
      var records := files[found.value];
      assert ProcessSpec(cfg, store, files, organism) == FromFile(cfg, src, records, organism);
      if column !in table {
        return Some(QueryFailed(column));
      }
      var resolved := GetNodesForUces(table[column], cfg.matrix);
      if resolved.Failure? {
        return Some(resolved.error);
      }
      var nodeDict, missing := resolved.value.nodes, resolved.value.missing;
      var written, count;
      failure, written, count := WriteHits(records, nodeDict, organism);
      if failure.Some? {
        return;
      }
      ghost var scan := ScanRecords(records, nodeDict, organism);
      assert Reconcile(cfg, organism, scan, missing).report == Reconcile(cfg, organism, Scan([], written, 0, None), missing).report;
      failure := ReportMissing(cfg, organism, written, missing);
    }

    /** The organism loop of main, lines 146-228; an exception ends the run
      with the records written so far left in the output */
    method Run(cfg: Config, store: Store, files: Files, organisms: seq<string>)
        returns (failure: Option<Failure>)
      requires forall o :: o in organisms && IsExtended(o) ==> cfg.extendContigs != ""
      modifies this
      ensures var o := RunSpec(cfg, store, files, organisms);
        fasta == old(fasta) + o.fasta && report == old(report) + o.report && failure == o.failure
    {
      for n := 0 to |organisms|
        invariant var o := RunSpec(cfg, store, files, organisms[..n]);
          o.failure.None? && fasta == old(fasta) + o.fasta && report == old(report) + o.report
      {
        RunStep(cfg, store, files, organisms, n);
        ghost var prev := RunSpec(cfg, store, files, organisms[..n]);
        ghost var next := ProcessSpec(cfg, store, files, organisms[n]);
        ghost var fasta0, report0 := fasta, report;
        failure := ProcessOrganism(cfg, store, files, organisms[n]);
        assert fasta == fasta0 + next.fasta && report == report0 + next.report;
        AppendAssociates(old(fasta), prev.fasta, next.fasta);
        AppendAssociates(old(report), prev.report, next.report);
        if failure.Some? {
          RunFailureSticks(cfg, store, files, organisms, n + 1);
          return;
        }
      }
      assert organisms[..|organisms|] == organisms;
      return None;
    }
  }

  lemma AppendAssociates<T>(a: seq<T>, b: seq<T>, c: seq<T>)
    ensures (a + b) + c == a + (b + c)
  {
    assert forall i :: 0 <= i < |a| + |b| + |c| ==> ((a + b) + c)[i] == (a + (b + c))[i];
  }

  /** One more organism extends the run by its own outcome */
  lemma RunStep(cfg: Config, store: Store, files: Files, organisms: seq<string>, n: nat)
    requires n < |organisms| && RunSpec(cfg, store, files, organisms[..n]).failure.None?
    ensures var prev := RunSpec(cfg, store, files, organisms[..n]);
      var o := ProcessSpec(cfg, store, files, organisms[n]);
      RunSpec(cfg, store, files, organisms[..n + 1]) == Outcome(prev.fasta + o.fasta, prev.report + o.report, o.failure)
  {
    assert organisms[..n + 1][..n] == organisms[..n];
  }

  /** Once an organism has raised, later organisms do not matter */
  lemma {:induction false} RunFailureSticks(cfg: Config, store: Store, files: Files, organisms: seq<string>, n: nat)
    requires n <= |organisms| && RunSpec(cfg, store, files, organisms[..n]).failure.Some?
    ensures RunSpec(cfg, store, files, organisms) == RunSpec(cfg, store, files, organisms[..n])
    decreases |organisms|
  {
    if n < |organisms| {
      var front := organisms[..|organisms| - 1];
      assert front[..n] == organisms[..n];
      RunFailureSticks(cfg, store, files, front, n);
    } else {
      assert organisms[..n] == organisms;
    }
  }
  // ---- one record ----

  /** A record raises exactly when its header names no node; it is written
      exactly when its node is in the dictionary; a written record carries
      the locus of that node, is renamed after it, is oriented by its
      strand and cleaned (no 'N', 'n' or ',' left, no soft base at either
      end), and the counter goes up exactly when the contig
      held an 'N', 'n' or ',' (in either orientation) */
  lemma TransformSpec(rec: SeqRecord, nodes: map<string, Hit>, organism: string, count: nat)
    ensures var t := Transform(rec, nodes, organism, count);
      (t.Failure? <==> GetContigName(rec.id).Failure?) &&
      (t.Failure? ==> t.error == UnrecognisedHeader(rec.id)) &&
      (t.Success? ==> (t.value.Some? <==> Lower(GetContigName(rec.id).value) in nodes))
    ensures var t := Transform(rec, nodes, organism, count);
      t.Success? && t.value.Some? ==>
        var (out, uce, count') := t.value.value;
        var hit := nodes[Lower(GetContigName(rec.id).value)];
        uce == hit.uce && out.id == OutputId(uce, organism) && out.name == "" && out.description == "" &&
        out.sequence == CleanSequence(Orient(rec.sequence, hit.strand)) &&
        IsSubsequence(out.sequence, Orient(rec.sequence, hit.strand)) &&
        (forall i :: 0 <= i < |out.sequence| ==> !InClass(out.sequence[i])) &&
        (out.sequence == [] || (!IsSoft(out.sequence[0]) && !IsSoft(out.sequence[|out.sequence| - 1]))) &&
        (count' == count + 1 <==> HasAmbiguous(rec.sequence)) &&
        (count' == count <==> !HasAmbiguous(rec.sequence))
  {
    var contig := GetContigName(rec.id);
    if contig.Success? {
      GetContigNameSpec(rec.id);
      var key := Lower(contig.value);
      if key in nodes {
        var hit := nodes[key];
        var oriented := Orient(rec.sequence, hit.strand);
        var renamed := rec.(id := OutputId(hit.uce, organism), name := "", description := "", sequence := oriented);
        ReplaceAndRemoveBasesSpec(renamed, count);
        CleanSequenceSpec(oriented);
        ReverseComplementCleanliness(rec.sequence);
      }
    } else {
      GetContigNameSpec(rec.id);
    }
  }

  /** A '-' strand contig with nothing to clean is written as its exact
      reverse complement, so reverse-complementing the output gives the
      contig back; a '+' strand one is written unchanged */
  lemma OrientRoundTrip(rec: SeqRecord, nodes: map<string, Hit>, organism: string, count: nat)
    requires GetContigName(rec.id).Success? && Lower(GetContigName(rec.id).value) in nodes
    requires NothingToClean(rec.sequence)
    ensures var t := Transform(rec, nodes, organism, count);
      var strand := nodes[Lower(GetContigName(rec.id).value)].strand;
      t.Success? && t.value.Some? && t.value.value.2 == count &&
      Orient(t.value.value.0.sequence, strand) == rec.sequence
  {
    var hit := nodes[Lower(GetContigName(rec.id).value)];
    ReverseComplementCleanliness(rec.sequence);
    CleanSequenceNoop(Orient(rec.sequence, hit.strand));
    ReverseComplementInvolution(rec.sequence);
  }

  // ---- the contig loop ----

  /** The loci of the records that are hits, in file order: a reference
      definition read from the front */
  function HitLoci(records: seq<SeqRecord>, nodes: map<string, Hit>): seq<string>
    decreases |records|
  {
    if records == [] then []
    else
      var contig := GetContigName(records[0].id);
      (if contig.Success? && Lower(contig.value) in nodes then [nodes[Lower(contig.value)].uce] else []) +
      HitLoci(records[1..], nodes)
  }

  lemma {:induction false} HitLociSnoc(records: seq<SeqRecord>, rec: SeqRecord, nodes: map<string, Hit>)
    ensures var contig := GetContigName(rec.id);
      HitLoci(records + [rec], nodes) == HitLoci(records, nodes) +
        (if contig.Success? && Lower(contig.value) in nodes then [nodes[Lower(contig.value)].uce] else [])
    decreases |records|
  {
    if records == [] {
      assert [rec][1..] == [];
    } else {
      assert (records + [rec])[1..] == records[1..] + [rec];
      HitLociSnoc(records[1..], rec, nodes);
    }
  }

  /** The contig loop raises exactly when some header names no node, and
      then with the first such header */
  lemma {:induction false} ScanFailure(records: seq<SeqRecord>, nodes: map<string, Hit>, organism: string)
    ensures var scan := ScanRecords(records, nodes, organism);
      scan.failure.None? <==> forall i :: 0 <= i < |records| ==> GetContigName(records[i].id).Success?
    ensures var scan := ScanRecords(records, nodes, organism);
      scan.failure.Some? ==>
        exists i :: 0 <= i < |records| &&
          scan.failure.value == UnrecognisedHeader(records[i].id) &&
          forall j :: 0 <= j < i ==> GetContigName(records[j].id).Success?
    decreases |records|
  {
    if records != [] {
      var front, last := records[..|records| - 1], records[|records| - 1];
      ScanFailure(front, nodes, organism);
      assert forall j :: 0 <= j < |front| ==> front[j] == records[j];
      var prev := ScanRecords(front, nodes, organism);
      if prev.failure.None? {
        TransformSpec(last, nodes, organism, prev.count);
      }
    }
  }

  /** The last record of a contig loop that finishes */
  lemma ScanLast(records: seq<SeqRecord>, nodes: map<string, Hit>, organism: string)
    requires records != [] && ScanRecords(records, nodes, organism).failure.None?
    ensures var prev := ScanRecords(records[..|records| - 1], nodes, organism);
      var t := Transform(records[|records| - 1], nodes, organism, prev.count);
      prev.failure.None? && t.Success? &&
      ScanRecords(records, nodes, organism) ==
        match t.value
        case None => prev
        case Some((out, uce, count')) => Scan(prev.out + [out], prev.loci + [uce], count', None)
  {
  }

  /** A contig loop that finishes writes one record per hit, in file order,
      with the loci of HitLoci; the counter counts at most one per record */
  lemma {:induction false} ScanLoci(records: seq<SeqRecord>, nodes: map<string, Hit>, organism: string)
    requires ScanRecords(records, nodes, organism).failure.None?
    ensures var scan := ScanRecords(records, nodes, organism);
      scan.loci == HitLoci(records, nodes) && |scan.out| == |scan.loci| && scan.count <= |scan.out|
    decreases |records|
  {
    if records != [] {
      var front, last := records[..|records| - 1], records[|records| - 1];
      ScanLast(records, nodes, organism);
      ScanLoci(front, nodes, organism);
      TransformSpec(last, nodes, organism, ScanRecords(front, nodes, organism).count);
      assert front + [last] == records;
      HitLociSnoc(front, last, nodes);
    }
  }

  /** Every record the contig loop writes is named after its locus, holds
      no 'N', 'n' or ',' and has no soft base at either end */
  lemma {:induction false} ScanNames(records: seq<SeqRecord>, nodes: map<string, Hit>, organism: string)
    requires ScanRecords(records, nodes, organism).failure.None?
    ensures var scan := ScanRecords(records, nodes, organism);
      |scan.out| == |scan.loci| &&
      forall k :: 0 <= k < |scan.out| ==> Written(scan.out[k], scan.loci[k], organism)
    decreases |records|
  {
    if records != [] {
      var front, last := records[..|records| - 1], records[|records| - 1];
      var prev := ScanRecords(front, nodes, organism);
      ScanLast(records, nodes, organism);
      ScanNames(front, nodes, organism);
      TransformSpec(last, nodes, organism, prev.count);
    }
  }

  /** A record as the contig loop writes it for a locus: named after it,
      with no 'N', 'n' or ',' and no soft base at either end */
  predicate Written(rec: SeqRecord, uce: string, organism: string) {
    rec.id == OutputId(uce, organism) &&
    (forall i :: 0 <= i < |rec.sequence| ==> !InClass(rec.sequence[i])) &&
    (rec.sequence == [] || (!IsSoft(rec.sequence[0]) && !IsSoft(rec.sequence[|rec.sequence| - 1])))
  }

  // ---- one organism ----

  /** For an organism marked '*', the column is the organism without its
      trailing '*'s, the file name spells that column with '-' for every
      '_', and the extended data is used */
  lemma SourceOfSpec(cfg: Config, store: Store, organism: string)
    requires IsExtended(organism)
    ensures var src := SourceOf(cfg, store, organism);
      src.column <= organism && !EndsWith(src.column, '*') &&
      (forall i :: |src.column| <= i < |organism| ==> organism[i] == '*') &&
      |src.fileName| == |src.column| &&
      (forall i :: 0 <= i < |src.column| ==>
        src.fileName[i] == if organism[i] == '_' then '-' else organism[i]) &&
      src.dir == cfg.extendContigs && src.table == store.extended
  {
    RStripReplaceChar(organism, '*', '_', '-');
  }

  /** For any other organism, the file name is the organism with '-' for
      every '_', the column is the organism itself, and the primary data
      is used */
  lemma SourceOfPrimary(cfg: Config, store: Store, organism: string)
    requires !IsExtended(organism)
    ensures var src := SourceOf(cfg, store, organism);
      src.column == organism && |src.fileName| == |organism| &&
      (forall i :: 0 <= i < |organism| ==>
        src.fileName[i] == if organism[i] == '_' then '-' else organism[i]) &&
      src.dir == cfg.contigs && src.table == store.primary
  {
  }

  /** With a complete matrix, a NULL row for the organism ends the run
      before anything is written for it */
  lemma StrictNullAborts(cfg: Config, store: Store, files: Files, organism: string)
    requires cfg.matrix == Complete
    requires var src := SourceOf(cfg, store, organism);
      src.column in src.table && exists i :: 0 <= i < |src.table[src.column]| && src.table[src.column][i].0.None?
    ensures var o := ProcessSpec(cfg, store, files, organism);
      o.failure.Some? && o.fasta == [] && o.report == []
  {
    var src := SourceOf(cfg, store, organism);
    var rows := src.table[src.column];
    if Resolve(rows, Complete).Success? {
      ResolveComplete(rows);
      assert false;
    }
  }

  /** An organism that succeeds had its file found, its rows resolved and
      its contig loop finished; its records are those of the loop, its
      report lists the NULL loci under its name when there are any and
      the matrix is incomplete, and the loci written together with the
      reported ones are exactly the requested loci */
  lemma ProcessSuccess(cfg: Config, store: Store, files: Files, organism: string)
    requires ProcessSpec(cfg, store, files, organism).failure.None?
    ensures var src := SourceOf(cfg, store, organism);
      var path := FirstExisting(Candidates(src.dir, src.fileName), files.Keys);
      path.Some? && src.column in src.table && Resolve(src.table[src.column], cfg.matrix).Success?
    ensures var src := SourceOf(cfg, store, organism);
      var path := FirstExisting(Candidates(src.dir, src.fileName), files.Keys).value;
      var rows := src.table[src.column];
      var nodes := Resolve(rows, cfg.matrix).value.nodes;
      var nulls := if cfg.matrix == Incomplete then NullLoci(rows) else [];
      var o := ProcessSpec(cfg, store, files, organism);
      o.fasta == ScanRecords(files[path], nodes, organism).out &&
      o.report == (if nulls == [] then [] else ["[" + organism + "]"] + nulls) &&
      Elems(HitLoci(files[path], nodes) + nulls) == Elems(cfg.uces)
  {
    var src := SourceOf(cfg, store, organism);
    var path := FirstExisting(Candidates(src.dir, src.fileName), files.Keys).value;
    var rows := src.table[src.column];
    var nt := Resolve(rows, cfg.matrix).value;
    ResolveMissing(rows, cfg.matrix);
    if cfg.matrix == Complete {
      ResolveComplete(rows);
    }
    ScanLoci(files[path], nt.nodes, organism);
    assert HitLoci(files[path], nt.nodes) + [] == HitLoci(files[path], nt.nodes);
  }

  /** Some record of fasta is named after locus u of the organism */
  predicate Covers(fasta: seq<SeqRecord>, organism: string, u: string) {
    exists k :: 0 <= k < |fasta| && fasta[k].id == OutputId(u, organism)
  }

  /** The record is named after one of the requested loci of the organism */
  predicate Requested(rec: SeqRecord, organism: string, uces: seq<string>) {
    exists u :: u in uces && rec.id == OutputId(u, organism)
  }

  /** Records named after loci, where those loci together with some
      reported ones are the requested ones: every record is named after a
      requested locus, and with nothing reported every requested locus has
      a record */
  lemma NamedAfterRequested(out: seq<SeqRecord>, loci: seq<string>, reported: seq<string>,
                            uces: seq<string>, organism: string)
    requires |out| == |loci| && forall k :: 0 <= k < |out| ==> Written(out[k], loci[k], organism)
    requires Elems(loci + reported) == Elems(uces)
    ensures forall k :: 0 <= k < |out| ==> Requested(out[k], organism, uces)
    ensures reported == [] ==> forall u :: u in uces ==> Covers(out, organism, u)
  {
    forall k | 0 <= k < |out| ensures Requested(out[k], organism, uces) {
      assert (loci + reported)[k] == loci[k];
      assert loci[k] in Elems(loci + reported);
    }
    if reported == [] {
      assert loci + reported == loci;
      forall u | u in uces ensures Covers(out, organism, u) {
        assert u in Elems(loci);
        var k :| 0 <= k < |loci| && loci[k] == u;
        assert out[k].id == OutputId(u, organism);
      }
    }
  }

  /** Every record written for an organism that succeeds is named after a
      requested locus; with a complete matrix every requested locus has a
      record */
  lemma ProcessCoverage(cfg: Config, store: Store, files: Files, organism: string)
    requires ProcessSpec(cfg, store, files, organism).failure.None?
    ensures var o := ProcessSpec(cfg, store, files, organism);
      forall k :: 0 <= k < |o.fasta| ==> Requested(o.fasta[k], organism, cfg.uces)
    ensures var o := ProcessSpec(cfg, store, files, organism);
      cfg.matrix == Complete ==> forall u :: u in cfg.uces ==> Covers(o.fasta, organism, u)
  {
    ProcessSuccess(cfg, store, files, organism);
    var src := SourceOf(cfg, store, organism);
    var path := FirstExisting(Candidates(src.dir, src.fileName), files.Keys).value;
    var rows := src.table[src.column];
    var nodes := Resolve(rows, cfg.matrix).value.nodes;
    var nulls := if cfg.matrix == Incomplete then NullLoci(rows) else [];
    var scan := ScanRecords(files[path], nodes, organism);
    ScanNames(files[path], nodes, organism);
    ScanLoci(files[path], nodes, organism);
    assert ProcessSpec(cfg, store, files, organism).fasta == scan.out;
    NamedAfterRequested(scan.out, scan.loci, nulls, cfg.uces, organism);
  }

  /** A record of either part is a record of the concatenation */
  lemma CoversAppend(a: seq<SeqRecord>, b: seq<SeqRecord>, organism: string, u: string)
    requires Covers(a, organism, u) || Covers(b, organism, u)
    ensures Covers(a + b, organism, u)
  {
    if Covers(a, organism, u) {
      var k :| 0 <= k < |a| && a[k].id == OutputId(u, organism);
      assert (a + b)[k] == a[k];
    } else {
      var k :| 0 <= k < |b| && b[k].id == OutputId(u, organism);
      assert (a + b)[|a| + k] == b[k];
    }
  }

  // ---- the run ----

  /** The last organism of a run that succeeds */
  lemma RunLast(cfg: Config, store: Store, files: Files, organisms: seq<string>)
    requires organisms != [] && RunSpec(cfg, store, files, organisms).failure.None?
    ensures var front, last := organisms[..|organisms| - 1], organisms[|organisms| - 1];
      RunSpec(cfg, store, files, front).failure.None? &&
      ProcessSpec(cfg, store, files, last).failure.None? &&
      RunSpec(cfg, store, files, organisms).fasta ==
        RunSpec(cfg, store, files, front).fasta + ProcessSpec(cfg, store, files, last).fasta
  {
  }

  /** An element other than the last is in the front */
  lemma InFront(organisms: seq<string>, o: string)
    requires o in organisms && o != organisms[|organisms| - 1]
    ensures o in organisms[..|organisms| - 1]
  {
    var i :| 0 <= i < |organisms| && organisms[i] == o;
    assert organisms[..|organisms| - 1][i] == o;
  }

  /** A run that succeeds succeeded for every organism */
  lemma {:induction false} RunSuccess(cfg: Config, store: Store, files: Files, organisms: seq<string>, o: string)
    requires o in organisms && RunSpec(cfg, store, files, organisms).failure.None?
    ensures ProcessSpec(cfg, store, files, o).failure.None?
    decreases |organisms|
  {
    var front, last := organisms[..|organisms| - 1], organisms[|organisms| - 1];
    RunLast(cfg, store, files, organisms);
    if o != last {
      InFront(organisms, o);
      RunSuccess(cfg, store, files, front, o);
    }
  }

  /** With a complete matrix, a run that succeeds holds a record for every
      pair of organism and requested locus */
  lemma {:induction false} RunCoverage(cfg: Config, store: Store, files: Files, organisms: seq<string>, o: string, u: string)
    requires cfg.matrix == Complete && RunSpec(cfg, store, files, organisms).failure.None?
    requires o in organisms && u in cfg.uces
    ensures Covers(RunSpec(cfg, store, files, organisms).fasta, o, u)
    decreases |organisms|
  {
    var front, last := organisms[..|organisms| - 1], organisms[|organisms| - 1];
    var prev := RunSpec(cfg, store, files, front).fasta;
    var mine := ProcessSpec(cfg, store, files, last).fasta;
    RunLast(cfg, store, files, organisms);
    if o == last {
      ProcessCoverage(cfg, store, files, last);
      assert Covers(mine, o, u);
    } else {
      InFront(organisms, o);
      RunCoverage(cfg, store, files, front, o, u);
    }
    CoversAppend(prev, mine, o, u);
  }
}
