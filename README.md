# uce_fastas: collecting UCE contigs into one FASTA file

`phyluce/fetch/uce_fastas.py` gathers, for every organism listed in a
match-count configuration, the assembled contigs that hit ultra-conserved
element (UCE) loci. It writes them all into a single FASTA file, renamed as
`<locus>_<organism> |<locus>`. For each organism it:

- finds the organism's contig file (`find_file`);
- reads the `match_map` table of the locus database and builds the node
  dictionary, which maps contig node to (locus, strand) and lists the loci
  with no contig (`get_nodes_for_uces`);
- keeps the contigs whose node is in the dictionary, found by the node ids
  parsed from their headers (`get_contig_name`);
- reverse-complements the contigs on the '-' strand;
- deletes ambiguous bases and trims the lower-case (low-coverage) bases at
  both ends (`replace_and_remove_bases`);
- reports missing loci when the matrix is incomplete;
- checks that the loci written, together with those reported, are exactly
  the requested ones.

An organism ending in `*` takes its contigs and rows from the extended
locus data.

The Dafny model, module by module:

- `Wrappers`, `Failures`: `Option` and `Result`, and one `Failure` value
  per exception the model keeps.
- `Text`: the Python 2 byte-string operations it uses (`lower`, `replace`,
  `rstrip`, `endswith`, `set(...)`).
- `NodeIds`: the node-id shapes of both regular expressions
  (`Node_\d+`, `NODE_\d+`, `node_\d+`, `comp\d+_c\d+_seq\d+`). It contains
  a greedy matcher proved equal to "the longest prefix of that shape", and
  `get_contig_name`.
- `LocusMap`: the row loop of `get_nodes_for_uces`. It is a method proved
  against the function `Resolve`, with lemmas about the keys, values,
  strands and missing loci of the result.
- `ContigFiles`: `find_file`. The filesystem is the set of paths that are
  files. The method's two nested loops are proved equal to "the first file
  in the ordered list of candidate paths".
- `Bases`: the reverse complement and `replace_and_remove_bases`, with
  Python's `re.sub` semantics written out.
- `UceFastas`: the organism loop. The two output files are the fields of
  the class `Pipeline`: the FASTA records and the lines of the
  incomplete-matrix report. Its methods are proved against the functions
  `ProcessSpec` and `RunSpec`, and the lemmas say what a successful run has
  written.

The inputs that the program reads from disk or the database are
parameters:

- the configuration is `Config`;
- the rows each `match_map` query returns, per organism column and
  database, are `Store`;
- the parsed contig files are `Files`, a map from each path that is a file
  to its records.

## Model

| member | source | states |
|---|---|---|
| `Text.RStrip` | phyluce/fetch/uce_fastas.py:164 | `rstrip('*')` gives a prefix that does not end in `*`, and only `*` characters were removed |
| `Text.RStripReplaceChar` | phyluce/fetch/uce_fastas.py:151-164 | replacing `_` by `-` and then stripping `*` gives the same name as stripping first, so the file name and the column line up character by character |
| `NodeIds.HeaderShapesWellFormed` | phyluce/fetch/uce_fastas.py:92 | the alternatives of the header pattern are separated: no header can start two of them, and no literal after the first starts with a digit |
| `NodeIds.ShapeEndLongest` | phyluce/fetch/uce_fastas.py:92 | for separated shapes, the greedy alternation match ends at the longest prefix of the string that is a whole id, and never inside a run of digits |
| `NodeIds.ShapeEndNone` | phyluce/fetch/uce_fastas.py:92 | the alternation fails exactly when no prefix of the string is a whole id |
| `NodeIds.GetContigNameSpec` | phyluce/fetch/uce_fastas.py:87-93 | the contig name is the longest prefix of the header that is a `Node_`/`NODE_`/`comp_c_seq` id; the call raises (`UnrecognisedHeader`) exactly when no prefix is such an id |
| `LocusMap.MatchShapesWellFormed` | phyluce/fetch/uce_fastas.py:45 | the two alternatives of the match pattern are separated |
| `LocusMap.ParseMatchSpec` | phyluce/fetch/uce_fastas.py:44-48 | the match pattern succeeds exactly when some prefix is a node id followed by `(+)` or `(-)`; that prefix is unique, and its id and strand are the two groups |
| `LocusMap.GetNodesForUces` | phyluce/fetch/uce_fastas.py:40-53 | the row loop builds the node dictionary and missing list of `Resolve`, or raises where `Resolve` raises |
| `LocusMap.ResolveFailureSticks` | phyluce/fetch/uce_fastas.py:42-53 | once a row has raised, the rows after it do not change the outcome |
| `LocusMap.ResolveOutcome` | phyluce/fetch/uce_fastas.py:42-52 | the loop succeeds exactly when every row has a parsable match or is a NULL under an incomplete matrix |
| `LocusMap.ResolveFirstFailure` | phyluce/fetch/uce_fastas.py:42-52 | the first row that is neither raises its exception (`UnparsableMatch` for its match string, `CompleteMatrixMissingData` for a NULL), and that is the loop's outcome |
| `LocusMap.ResolveMissing` | phyluce/fetch/uce_fastas.py:49-50 | `missing` is the loci of the NULL rows, in row order |
| `LocusMap.ResolveComplete` | phyluce/fetch/uce_fastas.py:51-52 | under a complete matrix a successful loop saw no NULL row and reports nothing missing |
| `LocusMap.ResolveKeys` | phyluce/fetch/uce_fastas.py:48 | the dictionary's keys are exactly the node ids of the parsable rows |
| `LocusMap.ResolveValues` | phyluce/fetch/uce_fastas.py:48 | a row whose node no later row names leaves that node mapped to its locus and strand (later rows overwrite earlier ones) |
| `LocusMap.ResolveShapes` | phyluce/fetch/uce_fastas.py:45-48 | every key is, in full, a `node_` or `comp_c_seq` id of the match pattern, and every strand is `+` or `-` |
| `ContigFiles.JoinSpec` | phyluce/fetch/uce_fastas.py:67-68 | `os.path.join` on POSIX: the second part ends the path, an absolute second part is the whole path, and otherwise one `/` separates the parts unless the first is empty or already ends in `/` |
| `ContigFiles.CandidateAt` | phyluce/fetch/uce_fastas.py:57-76 | there are 4 candidate paths per extension: the `4e+v`-th is, for extension `e`, the joined path, its lower-cased form, the `-`→`_` spelling, and that spelling lower-cased |
| `ContigFiles.FirstExistingSpec` | phyluce/fetch/uce_fastas.py:66-78 | the path found is a file and no earlier candidate is; nothing is found exactly when no candidate is a file |
| `ContigFiles.FirstExistingAt` | phyluce/fetch/uce_fastas.py:66-78 | a file preceded only by non-files is the path found |
| `ContigFiles.OnlyCandidate` | phyluce/fetch/uce_fastas.py:66-78 | when exactly one candidate is a file, that one is found, wherever it stands |
| `ContigFiles.CandidatesForAppend` | phyluce/fetch/uce_fastas.py:66-68 | the candidates of two extension lists are those of the first followed by those of the second |
| `ContigFiles.FirstExistingAppend` | phyluce/fetch/uce_fastas.py:69-78 | the search looks at later candidates only when the earlier ones hold no file |
| `ContigFiles.TryPath` | phyluce/fetch/uce_fastas.py:70-76 | one inner pass returns the path if it is a file, else its lower-cased form if that is a file, else nothing |
| `ContigFiles.Search` | phyluce/fetch/uce_fastas.py:66-78 | the nested loops return the first candidate that is a file |
| `ContigFiles.FindFile` | phyluce/fetch/uce_fastas.py:56-84 | `find_file` returns the first candidate that is a file, and raises `FastaNotFound` naming the name and all seven extensions when there is none |
| `Bases.ReverseComplementInvolution` | phyluce/fetch/uce_fastas.py:204-205 | reverse-complementing twice gives the sequence back |
| `Bases.RunLength` | phyluce/fetch/uce_fastas.py:142 | the greedy match of `[N,n]{1,21}` is at most 21 long, all class characters, and non-empty when the sequence starts with one |
| `Bases.SubAmbiguousDeletesAll` | phyluce/fetch/uce_fastas.py:99 | substituting the `{1,21}` pattern by "" deletes every `N`, `n` and `,`, including runs longer than 21 |
| `Bases.UnambiguousHasNone` | phyluce/fetch/uce_fastas.py:99 | the substituted sequence holds no class character |
| `Bases.NothingToReplace` | phyluce/fetch/uce_fastas.py:98-99 | without a class character the substitution changes nothing, so applying it only after `regex.search` succeeds is the same as always applying it |
| `Bases.StripLeading` | phyluce/fetch/uce_fastas.py:102 | `^[acgtn]+` removes exactly the leading run of `a c g t n`: the result is a suffix that does not start with one |
| `Bases.DropSoftSuffix` | phyluce/fetch/uce_fastas.py:103 | the helper of `StripTrailing`: removes exactly the trailing run of `a c g t n`, so the result is a prefix that does not end with one |
| `Bases.StripTrailingSpec` | phyluce/fetch/uce_fastas.py:103 | `[acgtn]+$` removes exactly the run of `a c g t n` at the end of the sequence; when the sequence ends in a newline, the run just before that newline is removed and the newline is kept |
| `Bases.ReplaceAndRemoveBasesSpec` | phyluce/fetch/uce_fastas.py:96-106 | the counter goes up by one exactly when the sequence held a class character; the output keeps the id, has empty name and description, is a subsequence of the input with no class character, and starts and ends with something other than `a c g t n` |
| `Bases.CleanSequenceSpec` | phyluce/fetch/uce_fastas.py:97-103 | the cleaned sequence is a subsequence of the input and of the input without class characters, has no class character, and has no soft base at either end |
| `Bases.CleanSequenceIdempotent` | phyluce/fetch/uce_fastas.py:97-103 | for a sequence without a newline, cleaning twice is cleaning once and the cleaned sequence has nothing left for `regex.search` to find |
| `Bases.ReplaceAndRemoveBasesIdempotent` | phyluce/fetch/uce_fastas.py:96-106 | without a newline, a second call returns the same record and does not count it |
| `Bases.NewlineBreaksIdempotence` | phyluce/fetch/uce_fastas.py:103 | because `$` also matches before a final newline, cleaning `"Xa\nacg"` gives `"Xa\n"`, and cleaning that again gives `"X\n"` |
| `Bases.CleanSequenceNoop` | phyluce/fetch/uce_fastas.py:97-103 | a sequence with no class character, no newline and no soft base at its ends is left unchanged |
| `Bases.ReverseComplementCleanliness` | phyluce/fetch/uce_fastas.py:204-211 | reverse complementing changes neither whether `regex.search` finds something nor whether cleaning has anything to do |
| `UceFastas.Pipeline.constructor` | phyluce/fetch/uce_fastas.py:144-145 | both output files start empty |
| `UceFastas.Pipeline.WriteHits` | phyluce/fetch/uce_fastas.py:193-213 | the contig loop appends the records of `ScanRecords` to the FASTA output, leaves the report alone, and returns the `written` list and counter, or the header error that stopped it |
| `UceFastas.Pipeline.ReportMissing` | phyluce/fetch/uce_fastas.py:220-228 | under an incomplete matrix with missing loci, appends `[organism]` and the missing loci to the report; then raises `NamesDoNotMatch` exactly when the written and reported loci, as a set, differ from the requested ones |
| `UceFastas.Pipeline.ProcessOrganism` | phyluce/fetch/uce_fastas.py:147-228 | one organism appends exactly the records and report lines of `ProcessSpec`, and fails with its failure |
| `UceFastas.Pipeline.Run` | phyluce/fetch/uce_fastas.py:146-228 | the organism loop appends exactly what `RunSpec` does: the organisms in order up to and including the first one that raises |
| `UceFastas.ScanFailureSticks` | phyluce/fetch/uce_fastas.py:193-194 | once a header has raised, later records do not matter |
| `UceFastas.RunFailureSticks` | phyluce/fetch/uce_fastas.py:146-228 | once an organism has raised, later organisms do not matter |
| `UceFastas.RunStep` | phyluce/fetch/uce_fastas.py:146 | running one more organism extends the run by that organism's outcome |
| `UceFastas.TransformSpec` | phyluce/fetch/uce_fastas.py:194-213 | a contig raises exactly when its header is not a node id; it is written exactly when its lower-cased node is in the dictionary; then it is renamed after the node's locus and the organism without `*`, with empty name and description; its sequence is the cleanup (`CleanSequence`) of the contig oriented by the hit's strand, so a subsequence of it with no class character and no soft base at either end; and the counter goes up exactly when the contig held a class character |
| `UceFastas.OrientRoundTrip` | phyluce/fetch/uce_fastas.py:204-211 | a contig with nothing to clean is written as exactly its oriented sequence: orienting the output by the hit's strand gives the contig back, and the counter is unchanged |
| `UceFastas.HitLociSnoc` | phyluce/fetch/uce_fastas.py:193-213 | the front-first definition of the loci of the hits extends by one record at the end |
| `UceFastas.ScanFailure` | phyluce/fetch/uce_fastas.py:193-194 | the contig loop completes exactly when every header is a node id; otherwise it stops with the error of the first bad header |
| `UceFastas.ScanLoci` | phyluce/fetch/uce_fastas.py:193-213 | a completed loop's `written` list is the loci of the hits in file order, one record per locus, and the counter is at most the number of records written |
| `UceFastas.ScanNames` | phyluce/fetch/uce_fastas.py:196-211 | the k-th record written is named after the k-th written locus, holds no class character and has no soft base at either end |
| `UceFastas.SourceOfSpec` | phyluce/fetch/uce_fastas.py:151-172 | for a `*` organism the column is the organism without its trailing `*`s, the file name is that column with `-` for every `_`, and the extended directory and database are used |
| `UceFastas.SourceOfPrimary` | phyluce/fetch/uce_fastas.py:151-158 | for any other organism the column is the organism, the file name is the organism with `-` for every `_`, and the contig directory and primary database are used |
| `UceFastas.StrictNullAborts` | phyluce/fetch/uce_fastas.py:173-176 | under a complete matrix a NULL row for the organism raises before anything is written or reported for it |
| `UceFastas.ProcessSuccess` | phyluce/fetch/uce_fastas.py:149-228 | an organism that succeeds had its file found and its rows resolved; its records are those of the contig loop; it reports `[organism]` with its NULL loci when the matrix is incomplete and there are some; and the loci of its hits with the NULL ones are, as a set, the requested loci |
| `UceFastas.NamedAfterRequested` | phyluce/fetch/uce_fastas.py:228 | when the written loci together with the reported ones are the requested ones, every record is named after a requested locus, and with nothing reported every requested locus has a record |
| `UceFastas.ProcessCoverage` | phyluce/fetch/uce_fastas.py:193-228 | every record written for a successful organism is named after a requested locus; with a complete matrix every requested locus has a record |
| `UceFastas.CoversAppend` | phyluce/fetch/uce_fastas.py:212 | a record written stays in the output as more are appended |
| `UceFastas.RunSuccess` | phyluce/fetch/uce_fastas.py:146-228 | in a run that succeeds, every listed organism succeeded |
| `UceFastas.RunCoverage` | phyluce/fetch/uce_fastas.py:146-228 | a successful run with a complete matrix has, for every listed organism and every requested locus, a record named after both |

## Left out

- The SQL text of the `match_map` query, `ATTACH DATABASE` and SQLite's `lower()` are not modelled. Each query's result rows (match string already lower-cased, or NULL, and locus) are an input per organism column and database. A column the store lacks becomes `QueryFailed`. The `uce in (...)` filter is taken as already applied to those rows.
- ConfigParser, `get_names_from_config` and the command-line arguments are not modelled. The organisms, the loci and the options are parameters (`Config`). An absent `--extend-locus-contigs` is the empty string.
- Logging, including the `count > 0` message, is not modelled. The counter is modelled and proved about.
- Biopython's FASTA parsing and formatting are not modelled, and neither is file I/O. A contig file is its list of records, and the outputs are the lists of records and report lines the program would write. The report's "\n" line endings are left implicit.
- `os.path.isfile` is membership in the set of paths that are files. `os.path.join` is the POSIX join of two parts.
- Strings are Python 2 byte strings read as `seq<char>`. `lower()` and `\d` are ASCII only, with no Unicode.
- The reverse complement uses the IUPAC DNA table in both cases and leaves every other character unchanged. It does not model Biopython's RNA handling or alphabets, nor the `ValueError` Biopython raises for a sequence that mixes RNA and DNA.
- `defaultdict()` without a factory behaves as a plain `dict`, and is modelled as a map.
- `UceFastas.Pipeline.ProcessOrganism`: an organism ending in `*` when no extended contig directory is given is excluded by a precondition. The source would then reuse the `reads` and `node_dict` of an earlier organism, or raise `NameError` for the first one. `UceFastas.Pipeline.Run` carries the same precondition for every organism.
- `UceFastas.ProcessSuccess`, `UceFastas.ProcessCoverage`, `UceFastas.RunSuccess` and `UceFastas.RunCoverage` are stated over `ProcessSpec` and `RunSpec`, whose domain is wider than the program's: for a `*` organism with no extended contig directory they describe the model's outcome (the search in the empty directory), not the stale `reads` and `node_dict` the source would reuse. Under the precondition of `Pipeline.ProcessOrganism` and `Pipeline.Run` the two agree.
- The regex `[N,n]{1,21}` at line 142 (used at lines 98-99) deletes every `N`, `n` and also `,`, including runs longer than 21. The comments at lines 206-207 and the log message at lines 217-219 ("Replaced <20 ambiguous bases") describe removing only short runs of N. The model follows the code (`Bases.SubAmbiguousDeletesAll`).
- `[acgtn]+$` at line 103 also matches before a final newline, and the model keeps that. Cleanup is therefore idempotent only for sequences without a newline (`Bases.NewlineBreaksIdempotence`). FASTA parsing never puts a newline into a sequence.
- The incomplete-matrix branch tests `organism.endswith('*')` and the complete branch tests `name.endswith('*')`. Replacing `_` by `-` keeps a trailing `*`, so both are modelled by one test, `IsExtended(organism)`.
