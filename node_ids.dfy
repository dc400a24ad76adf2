/**
 * Contig-node identifiers. Both patterns of uce_fastas.py recognise an
 * alternation of identifier shapes, each a literal followed by digits,
 * repeated: `node_\d+`, `Node_\d+`, `NODE_\d+` and `comp\d+_c\d+_seq\d+`.
 * A shape is written here as its list of literals; the digits after each
 * literal are implied.
 */
module NodeIds {
  import opened Text
  import opened Wrappers
  import opened Failures

  /** The literals of `lit0\d+lit1\d+...` */
  type Shape = seq<string>

  predicate IsNumeral(t: string) {
    |t| > 0 && forall i :: 0 <= i < |t| ==> IsDigit(t[i])
  }

  /** Every character of s from a to b is a digit */
  predicate Digits(s: string, a: nat, b: nat) {
    a <= b <= |s| && forall p :: a <= p < b ==> IsDigit(s[p])
  }

  /** s from i to r is, in full, one string of the given shape: the first
      literal, a nonempty run of digits, then the rest of the shape */
  ghost predicate FitsAt(shape: Shape, s: string, i: nat, r: nat)
    decreases |shape|
  {
    i <= r <= |s| &&
    if shape == [] then i == r
    else
      var lit := shape[0];
      i + |lit| <= r && s[i..i + |lit|] == lit &&
      exists k :: i + |lit| < k <= r && Digits(s, i + |lit|, k) && FitsAt(shape[1..], s, k, r)
  }

  /** t is, in full, one string of the given shape */
  ghost predicate Fits(shape: Shape, t: string) {
    FitsAt(shape, t, 0, |t|)
  }

  /** t is, in full, one string of one of the shapes */
  ghost predicate FitsAny(shapes: seq<Shape>, t: string) {
    exists x :: 0 <= x < |shapes| && Fits(shapes[x], t)
  }

  /** End of the longest run of digits that starts at i (greedy `\d*`) */
  function DigitRunEnd(s: string, i: nat): (j: nat)
    requires i <= |s|
    ensures i <= j <= |s|
    ensures forall k :: i <= k < j ==> IsDigit(s[k])
    ensures j == |s| || !IsDigit(s[j])
    decreases |s| - i
  {
    if i < |s| && IsDigit(s[i]) then DigitRunEnd(s, i + 1) else i
  }

  /** Matches `lit\d+` at position i, the digits greedily; the end of the match, if any */
  function Piece(lit: string, s: string, i: nat): (r: Option<nat>)
    requires i <= |s|
    ensures r.Some? ==> i + |lit| < r.value <= |s| && r.value == DigitRunEnd(s, i + |lit|)
    ensures r.Some? ==> s[i..i + |lit|] == lit
  {
    if i + |lit| <= |s| && s[i..i + |lit|] == lit then
      var j := DigitRunEnd(s, i + |lit|);
      if j > i + |lit| then Some(j) else None
    else None
  }

  /** Matches the shape against s from position i; the end of the match, if any */
  function PieceEnd(shape: Shape, s: string, i: nat): (r: Option<nat>)
    requires i <= |s|
    ensures r.Some? ==> i <= r.value <= |s|
    ensures r.Some? && |shape| > 0 ==> r.value == |s| || !IsDigit(s[r.value])
    decreases |shape|
  {
    if shape == [] then Some(i)
    else
      match Piece(shape[0], s, i)
      case None => None
      case Some(j) => PieceEnd(shape[1..], s, j)
  }

  /** The alternation `^(shape0|shape1|...)`: the first shape that matches
      at the start of s decides the end of the match */
  function ShapeEnd(shapes: seq<Shape>, s: string): (r: Option<nat>)
    ensures r.Some? ==> r.value <= |s|
  {
    if shapes == [] then None
    else
      match PieceEnd(shapes[0], s, 0)
      case Some(j) => Some(j)
      case None => ShapeEnd(shapes[1..], s)
  }

  /** Every literal after the first starts with a non-digit, so the digit
      runs between literals cannot be split another way */
  predicate Separated(shape: Shape) {
    forall m :: 0 < m < |shape| ==> |shape[m]| > 0 && !IsDigit(shape[m][0])
  }

  /** p and q differ at some position both have */
  predicate Clash(p: string, q: string) {
    exists m :: 0 <= m < |p| && m < |q| && p[m] != q[m]
  }

  /** No string starts with the first literals of two different shapes */
  predicate WellFormed(shapes: seq<Shape>) {
    (forall x :: 0 <= x < |shapes| ==> |shapes[x]| > 0 && Separated(shapes[x])) &&
    (forall x, y :: 0 <= x < y < |shapes| ==> Clash(shapes[x][0], shapes[y][0]))
  }

  /** The pieces of a string that fits a nonempty shape */
  lemma FitsAtSplit(shape: Shape, s: string, i: nat, r: nat) returns (m: nat)
    requires shape != [] && FitsAt(shape, s, i, r)
    ensures i + |shape[0]| < m <= r <= |s| && s[i..i + |shape[0]|] == shape[0]
    ensures Digits(s, i + |shape[0]|, m) && FitsAt(shape[1..], s, m, r)
  {
    m :| i + |shape[0]| < m <= r && Digits(s, i + |shape[0]|, m) && FitsAt(shape[1..], s, m, r);
  }

  /** A slice of a prefix is the same slice of the whole string */
  lemma SliceOfPrefix(s: string, k: nat, a: nat, b: nat)
    requires a <= b <= k <= |s|
    ensures s[..k][a..b] == s[a..b]
  {
  }

  /** What fits from i to r inside s still fits once s is cut after r */
  lemma {:induction false} FitsAtCut(shape: Shape, s: string, i: nat, r: nat, k: nat)
    requires r <= k <= |s| && FitsAt(shape, s, i, r)
    ensures FitsAt(shape, s[..k], i, r)
    decreases |shape|
  {
    if shape != [] {
      var lit := shape[0];
      var m := FitsAtSplit(shape, s, i, r);
      SliceOfPrefix(s, k, i, i + |lit|);
      FitsAtCut(shape[1..], s, m, r, k);
      assert Digits(s[..k], i + |lit|, m);
    }
  }

  /** What fits from i to r inside a prefix of s fits inside s */
  lemma {:induction false} FitsAtExtend(shape: Shape, s: string, i: nat, r: nat, k: nat)
    requires r <= k <= |s| && FitsAt(shape, s[..k], i, r)
    ensures FitsAt(shape, s, i, r)
    decreases |shape|
  {
    if shape != [] {
      var lit := shape[0];
      var m := FitsAtSplit(shape, s[..k], i, r);
      SliceOfPrefix(s, k, i, i + |lit|);
      FitsAtExtend(shape[1..], s, m, r, k);
      assert Digits(s, i + |lit|, m);
    }
  }

  /** The prefix of s of length k fits a shape exactly when s fits it from 0 to k */
  lemma PrefixFits(shape: Shape, s: string, k: nat)
    requires k <= |s|
    ensures Fits(shape, s[..k]) <==> FitsAt(shape, s, 0, k)
  {
    if FitsAt(shape, s, 0, k) {
      FitsAtCut(shape, s, 0, k, k);
    }
    if Fits(shape, s[..k]) {
      FitsAtExtend(shape, s, 0, k, k);
    }
  }

  /** What PieceEnd matches fits the shape */
  lemma {:induction false} PieceEndSound(shape: Shape, s: string, i: nat)
    requires i <= |s| && PieceEnd(shape, s, i).Some?
    ensures FitsAt(shape, s, i, PieceEnd(shape, s, i).value)
    decreases |shape|
  {
    if shape != [] {
      var lit := shape[0];
      var j := Piece(lit, s, i).value;
      PieceEndSound(shape[1..], s, j);
      assert Digits(s, i + |lit|, j);
    }
  }

  /** A run of digits from a to m: the greedy run from a reaches m, and ends
      there when s[m] is not a digit */
  lemma DigitRunReaches(s: string, a: nat, m: nat)
    requires a <= m <= |s| && forall p :: a <= p < m ==> IsDigit(s[p])
    ensures DigitRunEnd(s, a) >= m
    ensures (m == |s| || !IsDigit(s[m])) ==> DigitRunEnd(s, a) == m
  {
  }

  /** A string of the shape from i to k: PieceEnd matches at least up to k,
      and exactly up to k when no digit follows */
  lemma {:induction false} PieceEndComplete(shape: Shape, s: string, i: nat, k: nat)
    requires Separated(shape) && FitsAt(shape, s, i, k)
    ensures PieceEnd(shape, s, i).Some? && PieceEnd(shape, s, i).value >= k
    ensures (k == |s| || !IsDigit(s[k])) ==> PieceEnd(shape, s, i).value == k
    decreases |shape|
  {
    if shape != [] {
      var lit, rest := shape[0], shape[1..];
      var m :| i + |lit| < m <= k && Digits(s, i + |lit|, m) && FitsAt(rest, s, m, k);
      PieceFound(lit, s, i, m);
      if rest != [] {
        assert Separated(rest) by {
          forall q | 0 < q < |rest| ensures |rest[q]| > 0 && !IsDigit(rest[q][0]) {
            assert rest[q] == shape[q + 1];
          }
        }
        RestStartsWithNonDigit(shape, s, m, k);
        PieceEndComplete(rest, s, m, k);
      }
    }
  }

  /** The literal, then a nonempty run of digits: Piece matches up to the run's end */
  lemma PieceFound(lit: string, s: string, i: nat, m: nat)
    requires i + |lit| < m <= |s| && s[i..i + |lit|] == lit && Digits(s, i + |lit|, m)
    ensures Piece(lit, s, i).Some? && Piece(lit, s, i).value >= m
    ensures (m == |s| || !IsDigit(s[m])) ==> Piece(lit, s, i) == Some(m)
  {
    DigitRunReaches(s, i + |lit|, m);
  }

  /** Where a later literal begins, the digit run before it has ended */
  lemma RestStartsWithNonDigit(shape: Shape, s: string, m: nat, k: nat)
    requires Separated(shape) && |shape| > 1 && FitsAt(shape[1..], s, m, k)
    ensures m < k && !IsDigit(s[m])
  {
    var rest := shape[1..];
    assert rest[0] == shape[1];
    assert s[m..m + |rest[0]|][0] == s[m];
  }

  lemma {:induction false} ShapeEndSound(shapes: seq<Shape>, s: string)
    requires ShapeEnd(shapes, s).Some?
    ensures FitsAny(shapes, s[..ShapeEnd(shapes, s).value])
    decreases |shapes|
  {
    var j := ShapeEnd(shapes, s).value;
    if PieceEnd(shapes[0], s, 0).Some? {
      PieceEndSound(shapes[0], s, 0);
      PrefixFits(shapes[0], s, j);
      assert Fits(shapes[0], s[..j]);
    } else {
      ShapeEndSound(shapes[1..], s);
      var x :| 0 <= x < |shapes[1..]| && Fits(shapes[1..][x], s[..j]);
      assert Fits(shapes[x + 1], s[..j]);
    }
  }

  /** A successful shape match starts with the shape's first literal */
  lemma PieceEndStart(shape: Shape, s: string)
    requires |shape| > 0
    ensures PieceEnd(shape, s, 0).Some? ==> |shape[0]| <= |s| && s[0..|shape[0]|] == shape[0]
  {
  }

  /** Two clashing literals cannot both start one string */
  lemma ClashingStarts(p: string, q: string, s: string)
    requires Clash(p, q)
    ensures !(|p| <= |s| && s[0..|p|] == p && |q| <= |s| && s[0..|q|] == q)
  {
    var m :| 0 <= m < |p| && m < |q| && p[m] != q[m];
  }

  lemma {:induction false} ShapeEndComplete(shapes: seq<Shape>, s: string, k: nat)
    requires WellFormed(shapes)
    requires k <= |s| && FitsAny(shapes, s[..k])
    ensures ShapeEnd(shapes, s).Some? && ShapeEnd(shapes, s).value >= k
    ensures (k == |s| || !IsDigit(s[k])) ==> ShapeEnd(shapes, s).value == k
    decreases |shapes|
  {
    var x :| 0 <= x < |shapes| && Fits(shapes[x], s[..k]);
    PrefixFits(shapes[x], s, k);
    if x == 0 {
      PieceEndComplete(shapes[0], s, 0, k);
    } else {
      PieceEndStart(shapes[0], s);
      ClashingStarts(shapes[0][0], shapes[x][0], s);
      assert PieceEnd(shapes[0], s, 0).None?;
      var tail := shapes[1..];
      assert Fits(tail[x - 1], s[..k]);
      assert WellFormed(tail) by {
        forall a, b | 0 <= a < b < |tail| ensures Clash(tail[a][0], tail[b][0]) {
          assert tail[a] == shapes[a + 1] && tail[b] == shapes[b + 1];
        }
      }
      ShapeEndComplete(tail, s, k);
    }
  }

  /** The alternation of get_contig_name: velvet and trinity contig ids */
  const HEADER_SHAPES: seq<Shape> := [["Node_"], ["NODE_"], ["comp", "_c", "_seq"]]

  lemma HeaderShapesWellFormed()
    ensures WellFormed(HEADER_SHAPES)
  {
    assert "Node_"[1] != "NODE_"[1];
    assert Clash("Node_", "NODE_");
    assert "Node_"[0] != "comp"[0];
    assert Clash("Node_", "comp");
    assert "NODE_"[0] != "comp"[0];
    assert Clash("NODE_", "comp");
    assert Separated(["comp", "_c", "_seq"]) by {
      assert "_c"[0] == '_' && "_seq"[0] == '_';
    }
  }

  /** get_contig_name: the contig id at the start of a FASTA id */
  function GetContigName(header: string): (r: Result<string, Failure>)
  {
    match ShapeEnd(HEADER_SHAPES, header)
    case None => Failure(UnrecognisedHeader(header))
    case Some(j) => Success(header[..j])
  }

  /** A prefix that ShapeEnd finds is the longest prefix that fits */
  lemma ShapeEndLongest(shapes: seq<Shape>, s: string, j: nat)
    requires WellFormed(shapes) && ShapeEnd(shapes, s) == Some(j)
    ensures FitsAny(shapes, s[..j]) && (j == |s| || !IsDigit(s[j]))
    ensures forall k :: 0 <= k <= |s| && FitsAny(shapes, s[..k]) ==> k <= j
  {
    ShapeEndSound(shapes, s);
    ShapeEndStops(shapes, s);
    forall k | 0 <= k <= |s| && FitsAny(shapes, s[..k]) ensures k <= j {
      ShapeEndComplete(shapes, s, k);
    }
  }

  /** A match of well-formed shapes never stops inside a run of digits */
  lemma {:induction false} ShapeEndStops(shapes: seq<Shape>, s: string)
    requires forall x :: 0 <= x < |shapes| ==> |shapes[x]| > 0
    ensures ShapeEnd(shapes, s).Some? ==>
      ShapeEnd(shapes, s).value == |s| || !IsDigit(s[ShapeEnd(shapes, s).value])
    decreases |shapes|
  {
    if shapes != [] && PieceEnd(shapes[0], s, 0).None? {
      ShapeEndStops(shapes[1..], s);
    }
  }

  /** ShapeEnd fails exactly when no prefix fits */
  lemma ShapeEndNone(shapes: seq<Shape>, s: string)
    requires WellFormed(shapes)
    ensures ShapeEnd(shapes, s).None? <==> forall k :: 0 <= k <= |s| ==> !FitsAny(shapes, s[..k])
  {
    if ShapeEnd(shapes, s).Some? {
      ShapeEndSound(shapes, s);
    }
    forall k | 0 <= k <= |s| && FitsAny(shapes, s[..k]) ensures ShapeEnd(shapes, s).Some? {
      ShapeEndComplete(shapes, s, k);
    }
  }

  /** The name is the longest prefix of the header that is a whole contig
      id, and no prefix is one exactly when the call fails */
  lemma GetContigNameSpec(header: string)
    ensures GetContigName(header).Success? ==>
      var name := GetContigName(header).value;
      name <= header && FitsAny(HEADER_SHAPES, name) &&
      (|name| == |header| || !IsDigit(header[|name|])) &&
      forall k :: 0 <= k <= |header| && FitsAny(HEADER_SHAPES, header[..k]) ==> k <= |name|
    ensures GetContigName(header).Failure? <==>
      forall k :: 0 <= k <= |header| ==> !FitsAny(HEADER_SHAPES, header[..k])
    ensures GetContigName(header).Failure? ==>
      GetContigName(header).error == UnrecognisedHeader(header)
  {
    HeaderShapesWellFormed();
    ShapeEndNone(HEADER_SHAPES, header);
    if ShapeEnd(HEADER_SHAPES, header).Some? {
      ShapeEndLongest(HEADER_SHAPES, header, ShapeEnd(HEADER_SHAPES, header).value);
    }
  }
}
