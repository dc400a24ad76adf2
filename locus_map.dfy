/**
 * get_nodes_for_uces: turns the rows of the match_map query for one
 * organism into the node dictionary (contig node -> (locus, strand)) and
 * the list of loci that have no contig.
 */
module LocusMap {
  import opened Wrappers
  import opened Failures
  import opened NodeIds

  /** One fetched row: the organism's lower-cased match string, or NULL, and the locus */
  type Row = (Option<string>, string)

  /** What node_dict stores for a contig node */
  datatype Hit = Hit(uce: string, strand: char)

  datatype Matrix = Complete | Incomplete

  /** The two results of get_nodes_for_uces */
  datatype NodeTable = NodeTable(nodes: map<string, Hit>, missing: seq<string>)

  /** The node alternatives of the match pattern (the string is lower-cased) */
  const MATCH_SHAPES: seq<Shape> := [["node_"], ["comp", "_c", "_seq"]]

  lemma MatchShapesWellFormed()
    ensures WellFormed(MATCH_SHAPES)
  {
    assert "node_"[0] != "comp"[0];
    assert Clash("node_", "comp");
    assert Separated(["comp", "_c", "_seq"]) by {
      assert "_c"[0] == '_' && "_seq"[0] == '_';
    }
  }

  /** s holds a node id of k characters followed by `(+)` or `(-)` */
  ghost predicate MatchAt(s: string, k: nat) {
    k + 3 <= |s| && FitsAny(MATCH_SHAPES, s[..k]) &&
    s[k] == '(' && (s[k + 1] == '+' || s[k + 1] == '-') && s[k + 2] == ')'
  }

  /** re.search('^(node_\d+|comp\d+_c\d+_seq\d+)\(([+-])\)', s): the two groups */
  function ParseMatch(s: string): Option<(string, char)> {
    match ShapeEnd(MATCH_SHAPES, s)
    case None => None
    case Some(k) =>
      if k + 3 <= |s| && s[k] == '(' && (s[k + 1] == '+' || s[k + 1] == '-') && s[k + 2] == ')'
      then Some((s[..k], s[k + 1]))
      else None
  }

  /** ParseMatch succeeds exactly when some prefix of s is a node id followed
      by a strand in parentheses, and then returns that id and strand; there
      is at most one such prefix, and text after it is ignored */
  lemma ParseMatchSpec(s: string)
    ensures ParseMatch(s).Some? ==>
      (MatchAt(s, |ParseMatch(s).value.0|) &&
       ParseMatch(s).value == (s[..|ParseMatch(s).value.0|], s[|ParseMatch(s).value.0| + 1]))
    ensures forall k: nat :: MatchAt(s, k) ==> ParseMatch(s) == Some((s[..k], s[k + 1]))
  {
    MatchShapesWellFormed();
    if ShapeEnd(MATCH_SHAPES, s).Some? {
      ShapeEndSound(MATCH_SHAPES, s);
    }
    forall k: nat | MatchAt(s, k) ensures ParseMatch(s) == Some((s[..k], s[k + 1])) {
      ShapeEndComplete(MATCH_SHAPES, s, k);
    }
  }

  /** The node_dict entry a row contributes, if its match string parses */
  function Entry(row: Row): Option<(string, Hit)> {
    if row.0.Some? && ParseMatch(row.0.value).Some? then
      var (node, strand) := ParseMatch(row.0.value).value;
      Some((node, Hit(row.1, strand)))
    else None
  }

  /** A row the loop gets past: a parsable match string, or a NULL that an
      incomplete matrix tolerates */
  predicate Accepted(row: Row, matrix: Matrix) {
    if row.0.Some? then ParseMatch(row.0.value).Some? else matrix == Incomplete
  }

  /** The exception a row that is not accepted raises */
  function RowFailure(row: Row): Failure {
    if row.0.Some? then UnparsableMatch(row.0.value) else CompleteMatrixMissingData
  }

  /** One iteration of the row loop */
  function Step(acc: NodeTable, row: Row, matrix: Matrix): Result<NodeTable, Failure> {
    match row.0
    case Some(v) =>
      (match ParseMatch(v)
       case None => Failure(UnparsableMatch(v))
       case Some((node, strand)) => Success(acc.(nodes := acc.nodes[node := Hit(row.1, strand)])))
    case None =>
      if matrix == Incomplete then Success(acc.(missing := acc.missing + [row.1]))
      else Failure(CompleteMatrixMissingData)
  }

  /** The row loop over a prefix of the rows, last row last */
  function Resolve(rows: seq<Row>, matrix: Matrix): Result<NodeTable, Failure>
    decreases |rows|
  {
    if rows == [] then Success(NodeTable(map[], []))
    else
      match Resolve(rows[..|rows| - 1], matrix)
      case Failure(e) => Failure(e)
      case Success(acc) => Step(acc, rows[|rows| - 1], matrix)
  }

  /** Once the loop has raised, later rows do not matter */
  lemma {:induction false} ResolveFailureSticks(rows: seq<Row>, matrix: Matrix, i: nat)
    requires i <= |rows| && Resolve(rows[..i], matrix).Failure?
    ensures Resolve(rows, matrix) == Resolve(rows[..i], matrix)
    decreases |rows|
  {
    if i < |rows| {
      var front := rows[..|rows| - 1];
      assert front[..i] == rows[..i];
      ResolveFailureSticks(front, matrix, i);
    } else {
      assert rows[..i] == rows;
    }
  }

  /** get_nodes_for_uces, lines 40-53 */
  method GetNodesForUces(rows: seq<Row>, matrix: Matrix) returns (r: Result<NodeTable, Failure>)
    ensures r == Resolve(rows, matrix)
  {
    var nodeDict: map<string, Hit> := map[];
    var missing: seq<string> := [];
    for i := 0 to |rows|
      invariant Resolve(rows[..i], matrix) == Success(NodeTable(nodeDict, missing))
    {
      assert rows[..i + 1][..i] == rows[..i];
      var (value, uce) := rows[i];
      if value.Some? {
        var m := ParseMatch(value.value);
        if m.None? {
          ResolveFailureSticks(rows, matrix, i + 1);
          return Failure(UnparsableMatch(value.value));
        }
        nodeDict := nodeDict[m.value.0 := Hit(uce, m.value.1)];
      } else if matrix == Incomplete {
        missing := missing + [uce];
      } else {
        ResolveFailureSticks(rows, matrix, i + 1);
        return Failure(CompleteMatrixMissingData);
      }
    }
    assert rows[..|rows|] == rows;
    r := Success(NodeTable(nodeDict, missing));
  }

  /** The loop succeeds exactly when every row is accepted */
  lemma {:induction false} ResolveOutcome(rows: seq<Row>, matrix: Matrix)
    ensures Resolve(rows, matrix).Success? <==> forall i :: 0 <= i < |rows| ==> Accepted(rows[i], matrix)
    decreases |rows|
  {
    if rows != [] {
      var front := rows[..|rows| - 1];
      ResolveOutcome(front, matrix);
      assert forall j :: 0 <= j < |front| ==> front[j] == rows[j];
    }
  }

  /** The first row that is not accepted raises its exception, and the
      loop ends with it */
  lemma {:induction false} ResolveFirstFailure(rows: seq<Row>, matrix: Matrix, i: nat)
    requires i < |rows| && !Accepted(rows[i], matrix)
    requires forall j :: 0 <= j < i ==> Accepted(rows[j], matrix)
    ensures Resolve(rows, matrix) == Failure(RowFailure(rows[i]))
    decreases |rows|
  {
    var front := rows[..|rows| - 1];
    if i < |front| {
      assert forall j :: 0 <= j <= i ==> front[j] == rows[j];
      ResolveFirstFailure(front, matrix, i);
    } else {
      assert forall j :: 0 <= j < |front| ==> front[j] == rows[j];
      ResolveOutcome(front, matrix);
    }
  }

  /** The loci of the NULL rows, in row order */
  function NullLoci(rows: seq<Row>): seq<string>
    decreases |rows|
  {
    if rows == [] then []
    else (if rows[0].0.None? then [rows[0].1] else []) + NullLoci(rows[1..])
  }

  lemma {:induction false} NullLociSnoc(rows: seq<Row>, row: Row)
    ensures NullLoci(rows + [row]) == NullLoci(rows) + (if row.0.None? then [row.1] else [])
    decreases |rows|
  {
    if rows == [] {
      assert [row][1..] == [];
    } else {
      assert (rows + [row])[1..] == rows[1..] + [row];
      NullLociSnoc(rows[1..], row);
    }
  }

  /** The last row's effect on the missing list of a successful loop */
  lemma MissingLast(rows: seq<Row>, matrix: Matrix)
    requires rows != [] && Resolve(rows, matrix).Success?
    ensures var front, last := rows[..|rows| - 1], rows[|rows| - 1];
      Resolve(front, matrix).Success? &&
      Resolve(rows, matrix).value.missing ==
        Resolve(front, matrix).value.missing + (if last.0.None? then [last.1] else []) &&
      (matrix == Complete ==> last.0.Some?)
  {
  }

  /** missing lists the loci of the NULL rows, in row order */
  lemma {:induction false} ResolveMissing(rows: seq<Row>, matrix: Matrix)
    requires Resolve(rows, matrix).Success?
    ensures Resolve(rows, matrix).value.missing == NullLoci(rows)
    decreases |rows|
  {
    if rows != [] {
      var front, last := rows[..|rows| - 1], rows[|rows| - 1];
      MissingLast(rows, matrix);
      ResolveMissing(front, matrix);
      assert front + [last] == rows;
      NullLociSnoc(front, last);
    }
  }

  /** A complete matrix that succeeds had no NULL row and has an empty
      missing list */
  lemma {:induction false} ResolveComplete(rows: seq<Row>)
    requires Resolve(rows, Complete).Success?
    ensures Resolve(rows, Complete).value.missing == []
    ensures forall i :: 0 <= i < |rows| ==> rows[i].0.Some?
    decreases |rows|
  {
    if rows != [] {
      var front := rows[..|rows| - 1];
      MissingLast(rows, Complete);
      ResolveComplete(front);
      assert forall j :: 0 <= j < |front| ==> front[j] == rows[j];
    }
  }

  /** The last row's effect on a successful loop */
  lemma ResolveLast(rows: seq<Row>, matrix: Matrix)
    requires rows != [] && Resolve(rows, matrix).Success?
    ensures Resolve(rows[..|rows| - 1], matrix).Success?
    ensures var before := Resolve(rows[..|rows| - 1], matrix).value.nodes;
      var last := rows[|rows| - 1];
      Resolve(rows, matrix).value.nodes ==
        if Entry(last).Some? then before[Entry(last).value.0 := Entry(last).value.1] else before
  {
  }

  /** A node is a key of the dictionary exactly when some row's match string gives it */
  lemma {:induction false} ResolveKeys(rows: seq<Row>, matrix: Matrix)
    requires Resolve(rows, matrix).Success?
    ensures forall node :: node in Resolve(rows, matrix).value.nodes <==>
      exists i :: 0 <= i < |rows| && Entry(rows[i]).Some? && Entry(rows[i]).value.0 == node
    decreases |rows|
  {
    if rows != [] {
      var front := rows[..|rows| - 1];
      ResolveLast(rows, matrix);
      ResolveKeys(front, matrix);
      assert forall j :: 0 <= j < |front| ==> front[j] == rows[j];
    }
  }

  /** Row i's entry survives unless a later row gives the same node */
  predicate LastFor(rows: seq<Row>, i: nat)
    requires i < |rows|
  {
    Entry(rows[i]).Some? &&
    forall j :: i < j < |rows| ==> Entry(rows[j]).None? || Entry(rows[j]).value.0 != Entry(rows[i]).value.0
  }

  /** A node maps to the locus and strand of the LAST row that gives it:
      later rows overwrite earlier ones */
  lemma {:induction false} ResolveValues(rows: seq<Row>, matrix: Matrix, i: nat)
    requires Resolve(rows, matrix).Success? && i < |rows| && LastFor(rows, i)
    ensures var (node, hit) := Entry(rows[i]).value;
      node in Resolve(rows, matrix).value.nodes && Resolve(rows, matrix).value.nodes[node] == hit
    decreases |rows|
  {
    var front := rows[..|rows| - 1];
    ResolveLast(rows, matrix);
    if i < |front| {
      assert LastFor(front, i) by {
        assert forall j :: 0 <= j < |front| ==> front[j] == rows[j];
      }
      ResolveValues(front, matrix, i);
    }
  }

  /** Every key is a node id that its row follows with a strand, '+' or '-' */
  lemma {:induction false} ResolveShapes(rows: seq<Row>, matrix: Matrix)
    requires Resolve(rows, matrix).Success?
    ensures forall node :: node in Resolve(rows, matrix).value.nodes ==>
      FitsAny(MATCH_SHAPES, node) &&
      (Resolve(rows, matrix).value.nodes[node].strand == '+' ||
       Resolve(rows, matrix).value.nodes[node].strand == '-')
    decreases |rows|
  {
    if rows != [] {
      var front, last := rows[..|rows| - 1], rows[|rows| - 1];
      ResolveLast(rows, matrix);
      ResolveShapes(front, matrix);
      if last.0.Some? {
        ParseMatchSpec(last.0.value);
      }
    }
  }
}
