/**
 * The few pieces of Python's `str` behaviour that the crawler and the
 * scraper rely on: `isspace`, `strip`/`rstrip`/`strip(chars)`, `lower`,
 * `startswith`/`endswith`, `in`, `splitlines` and `sep.join`.
 * Strings are sequences of Unicode scalar values.
 */
module PyStr {

  /** `c.isspace()`: the characters CPython treats as whitespace. */
  predicate IsSpace(c: char) {
    || c == ' '
    || ('\t' <= c <= '\r')
    || ('\U{1c}' <= c <= '\U{1f}')
    || c == '\U{85}' || c == '\U{a0}' || c == '\U{1680}'
    || ('\U{2000}' <= c <= '\U{200a}')
    || c == '\U{2028}' || c == '\U{2029}' || c == '\U{202f}'
    || c == '\U{205f}' || c == '\U{3000}'
  }

  /** The line boundaries recognised by `str.splitlines()`. */
  predicate IsLineBreak(c: char) {
    || ('\n' <= c <= '\r')
    || ('\U{1c}' <= c <= '\U{1e}')
    || c == '\U{85}' || c == '\U{2028}' || c == '\U{2029}'
  }

  /** A string made only of whitespace: `not s.strip()`. */
  predicate IsBlank(s: string) {
    forall i :: 0 <= i < |s| ==> IsSpace(s[i])
  }

  predicate NoLineBreak(s: string) {
    forall i :: 0 <= i < |s| ==> !IsLineBreak(s[i])
  }

  // ---------------------------------------------------------------
  // strip family
  // ---------------------------------------------------------------

  /** How many leading characters of `s` satisfy `drop`. */
  function LeadingCount(s: string, drop: char -> bool): (n: nat)
    ensures n <= |s|
    ensures forall i :: 0 <= i < n ==> drop(s[i])
    ensures n < |s| ==> !drop(s[n])
  {
    if s != [] && drop(s[0]) then 1 + LeadingCount(s[1..], drop) else 0
  }

  /** The length of `s` without its trailing characters satisfying `drop`. */
  function TrailingStart(s: string, drop: char -> bool): (n: nat)
    ensures n <= |s|
    ensures forall i :: n <= i < |s| ==> drop(s[i])
    ensures n > 0 ==> !drop(s[n - 1])
  {
    if s != [] && drop(s[|s| - 1]) then TrailingStart(s[..|s| - 1], drop) else |s|
  }

  /** Drops the leading characters satisfying `drop`. */
  function LStripBy(s: string, drop: char -> bool): string {
    s[LeadingCount(s, drop)..]
  }

  /** Drops the trailing characters satisfying `drop`. */
  function RStripBy(s: string, drop: char -> bool): string {
    s[..TrailingStart(s, drop)]
  }

  /** `s.strip(chars)` with the set of characters given as a predicate. */
  function StripBy(s: string, drop: char -> bool): string {
    RStripBy(LStripBy(s, drop), drop)
  }

  /** `s.strip()` */
  function Strip(s: string): string {
    StripBy(s, IsSpace)
  }

  /** `s.rstrip()` */
  function RStrip(s: string): string {
    RStripBy(s, IsSpace)
  }

  /** What `strip` keeps is made of characters of `s`, with no stripped character at either end. */
  lemma StripByKeeps(s: string, drop: char -> bool)
    ensures var r := StripBy(s, drop);
      && (r != [] ==> !drop(r[0]) && !drop(r[|r| - 1]))
      && forall k :: 0 <= k < |r| ==> r[k] in s
  {
    var i := LeadingCount(s, drop);
    var l := s[i..];
    var r := l[..TrailingStart(l, drop)];
    forall k | 0 <= k < |r|
      ensures r[k] in s
    {
      assert r[k] == l[k] == s[i + k];
    }
  }

  /** `s.strip()` is empty exactly when `s` is blank. */
  lemma StripEmptyIffBlank(s: string)
    ensures Strip(s) == [] <==> IsBlank(s)
  {
    var i := LeadingCount(s, IsSpace);
    var l := s[i..];
    assert forall k :: 0 <= k < |l| ==> l[k] == s[i + k];
    var n := TrailingStart(l, IsSpace);
  }

  /** Stripping keeps only characters of the original, so it introduces no line break. */
  lemma StripKeepsNoLineBreak(s: string)
    requires NoLineBreak(s)
    ensures NoLineBreak(Strip(s))
  {
    StripByKeeps(s, IsSpace);
  }

  // ---------------------------------------------------------------
  // lower, startswith, endswith, in
  // ---------------------------------------------------------------

  /** `c.lower()` restricted to ASCII letters. */
  function LowerChar(c: char): char {
    if 'A' <= c <= 'Z' then (c as int + 32) as char else c
  }

  /** `s.lower()` (ASCII case folding). */
  function Lower(s: string): (r: string)
    ensures |r| == |s|
    ensures forall i :: 0 <= i < |s| ==> r[i] == LowerChar(s[i])
  {
    seq(|s|, i requires 0 <= i < |s| => LowerChar(s[i]))
  }

  predicate IsLower(s: string) {
    forall i :: 0 <= i < |s| ==> !('A' <= s[i] <= 'Z')
  }

  /** `s.startswith(p)` */
  predicate StartsWith(s: string, p: string) {
    |p| <= |s| && s[..|p|] == p
  }

  /** `s.endswith(p)` */
  predicate EndsWith(s: string, p: string) {
    |p| <= |s| && s[|s| - |p|..] == p
  }

  /** `p in s` for strings (substring test). */
  predicate Contains(s: string, p: string)
    decreases |s|
  {
    StartsWith(s, p) || (s != [] && Contains(s[1..], p))
  }

  // ---------------------------------------------------------------
  // join and splitlines
  // ---------------------------------------------------------------

  /** `sep.join(parts)` */
  function Join(sep: string, parts: seq<string>): string {
    if parts == [] then ""
    else if |parts| == 1 then parts[0]
    else parts[0] + sep + Join(sep, parts[1..])
  }

  /** Index of the first line boundary in `s`, or `|s|` when there is none. */
  function LineEnd(s: string): (i: nat)
    ensures i <= |s|
    ensures forall j :: 0 <= j < i ==> !IsLineBreak(s[j])
    ensures i < |s| ==> IsLineBreak(s[i])
  {
    if s == [] || IsLineBreak(s[0]) then 0 else 1 + LineEnd(s[1..])
  }

  /**
   * `s.splitlines()`: pieces between line boundaries, where "\r\n" counts
   * as one boundary and a boundary at the very end opens no empty line.
   */
  function SplitLines(s: string): seq<string>
    decreases |s|
  {
    if s == [] then []
    else
      var i := LineEnd(s);
      if i == |s| then [s]
      else
        var next := if s[i] == '\r' && i + 1 < |s| && s[i + 1] == '\n' then i + 2 else i + 1;
        [s[..i]] + SplitLines(s[next..])
  }

  /** No line produced by `splitlines` holds a line boundary. */
  lemma {:induction false} SplitLinesHaveNoBreaks(s: string)
    ensures forall k :: 0 <= k < |SplitLines(s)| ==> NoLineBreak(SplitLines(s)[k])
    decreases |s|
  {
    if s != [] {
      var i := LineEnd(s);
      if i < |s| {
        var next := if s[i] == '\r' && i + 1 < |s| && s[i + 1] == '\n' then i + 2 else i + 1;
        SplitLinesHaveNoBreaks(s[next..]);
      }
    }
  }

  /**
   * Joining non-empty lines without boundaries by "\n" and splitting the
   * result again gives back exactly those lines.
   */
  lemma {:induction false} SplitJoinedLines(ls: seq<string>)
    requires forall k :: 0 <= k < |ls| ==> ls[k] != "" && NoLineBreak(ls[k])
    ensures SplitLines(Join("\n", ls)) == ls
  {
    if |ls| == 1 {
      var s := ls[0];
      assert LineEnd(s) == |s|;
    } else if |ls| > 1 {
      var rest := Join("\n", ls[1..]);
      var s := ls[0] + "\n" + rest;
      var n := |ls[0]|;
      assert s[n] == '\n';
      assert forall j :: 0 <= j < n ==> s[j] == ls[0][j];
      assert LineEnd(s) == n;
      assert s[..n] == ls[0];
      assert s[n + 1..] == rest;
      SplitJoinedLines(ls[1..]);
    }
  }

  /** A line without boundaries that does not end in whitespace. */
  predicate CleanLine(l: string) {
    NoLineBreak(l) && (l == [] || !IsSpace(l[|l| - 1]))
  }

  /**
   * Text whose only line boundary is "\n" and in which no line ends in
   * whitespace: a whitespace character other than "\n" is never followed
   * by "\n" nor is it the last character.
   */
  predicate CleanLineEnds(s: string) {
    && (forall i :: 0 <= i < |s| && IsLineBreak(s[i]) ==> s[i] == '\n')
    && (forall i :: 0 <= i < |s| && IsSpace(s[i]) && s[i] != '\n' ==> i + 1 < |s| && s[i + 1] != '\n')
  }

  /** `rstrip` leaves a line without boundaries clean. */
  lemma RStripClean(l: string)
    requires NoLineBreak(l)
    ensures CleanLine(RStrip(l))
  {
  }

  /** Joining clean lines by "\n" gives text with clean line ends. */
  lemma {:induction false} JoinCleanLines(ls: seq<string>)
    requires forall k :: 0 <= k < |ls| ==> CleanLine(ls[k])
    ensures CleanLineEnds(Join("\n", ls))
  {
    if |ls| > 1 {
      var head, rest := ls[0], Join("\n", ls[1..]);
      JoinCleanLines(ls[1..]);
      var s := head + "\n" + rest;
      var n := |head|;
      forall i | 0 <= i < |s|
        ensures IsLineBreak(s[i]) ==> s[i] == '\n'
        ensures IsSpace(s[i]) && s[i] != '\n' ==> i + 1 < |s| && s[i + 1] != '\n'
      {
        if i < n {
          assert s[i] == head[i];
          if i + 1 < n {
            assert s[i + 1] == head[i + 1];
          }
        } else if i > n {
          assert s[i] == rest[i - n - 1];
          if i + 1 < |s| {
            assert s[i + 1] == rest[i - n];
          }
        }
      }
    }
  }

  /** Joining non-empty parts gives the empty string only when there are no parts. */
  lemma {:induction false} JoinEmptyIff(sep: string, parts: seq<string>)
    requires forall k :: 0 <= k < |parts| ==> parts[k] != ""
    ensures Join(sep, parts) == "" <==> parts == []
  {
    if |parts| > 1 {
      assert |Join(sep, parts)| >= |parts[0]| > 0;
    }
  }
}
