/** String helpers with the semantics of Python 2 byte strings. */
module Text {
  /** `\d` in a byte-string pattern: the ASCII digits */
  predicate IsDigit(c: char) {
    '0' <= c <= '9'
  }

  /** str.lower() on one byte: only the ASCII capitals change */
  function LowerChar(c: char): char {
    if 'A' <= c <= 'Z' then (c as int + 32) as char else c
  }

  function Lower(s: string): string {
    seq(|s|, i requires 0 <= i < |s| => LowerChar(s[i]))
  }

  /** s.replace(a, b) for single characters: every occurrence is replaced */
  function ReplaceChar(s: string, a: char, b: char): string {
    seq(|s|, i requires 0 <= i < |s| => if s[i] == a then b else s[i])
  }

  /** s.rstrip(c): drops every trailing c */
  function RStrip(s: string, c: char): (r: string)
    ensures r <= s
    ensures r == [] || r[|r| - 1] != c
    ensures forall i :: |r| <= i < |s| ==> s[i] == c
  {
    if |s| > 0 && s[|s| - 1] == c then RStrip(s[..|s| - 1], c) else s
  }

  /** Replacing one character by another, neither of them c, commutes
      with rstrip(c) */
  lemma {:induction false} RStripReplaceChar(s: string, c: char, a: char, b: char)
    requires c != a && c != b
    ensures RStrip(ReplaceChar(s, a, b), c) == ReplaceChar(RStrip(s, c), a, b)
    decreases |s|
  {
    if |s| > 0 && s[|s| - 1] == c {
      assert ReplaceChar(s, a, b)[..|s| - 1] == ReplaceChar(s[..|s| - 1], a, b);
      RStripReplaceChar(s[..|s| - 1], c, a, b);
    }
  }

  predicate EndsWith(s: string, c: char) {
    |s| > 0 && s[|s| - 1] == c
  }

  /** The distinct elements of a list, as Python's set(list) */
  function Elems(s: seq<string>): set<string> {
    set x | x in s
  }
}
