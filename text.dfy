/** The one failure-compatible wrapper the model needs: Python's `None` against a value. */
module Wrappers {
  datatype Option<+T> = None | Some(value: T)
}

/**
 * The Python 2 string operations the client relies on, written out over
 * `seq<char>`: `strip`, `rstrip(c)`, `split(c)`, `splitlines()`, `in` on
 * strings and `replace` of one character. Byte strings are what the client
 * handles, so "whitespace" is the six ASCII characters C's isspace accepts.
 */
module PyText {

  /** Whitespace for `str.strip()` and for the regex class `\s`. */
  predicate IsSpace(c: char) {
    c == ' ' || c == '\t' || c == '\n' || c == '\r' || c == '\U{B}' || c == '\U{C}'
  }

  predicate AllSpace(s: string) {
    forall k :: 0 <= k < |s| ==> IsSpace(s[k])
  }

  /** `s.strip()`: leading and trailing whitespace removed. */
  function Strip(s: string): (r: string)
    ensures |r| <= |s|
    ensures r != [] ==> !IsSpace(r[0]) && !IsSpace(r[|r| - 1])
    decreases |s|
  {
    if s != [] && IsSpace(s[0]) then Strip(s[1..])
    else if s != [] && IsSpace(s[|s| - 1]) then Strip(s[..|s| - 1])
    else s
  }

  /** `r` sits at offset `i` of `s` with only whitespace around it. */
  predicate FramedBySpace(s: string, r: string, i: int)
  {
    0 <= i <= |s| - |r| && r == s[i..i + |r|] && AllSpace(s[..i]) && AllSpace(s[i + |r|..])
  }

  lemma FramedConsSpace(s: string, r: string, j: int)
    requires s != [] && IsSpace(s[0]) && FramedBySpace(s[1..], r, j)
    ensures FramedBySpace(s, r, j + 1)
  {
    assert s[..j + 1] == [s[0]] + s[1..][..j];
    assert s[j + 1..j + 1 + |r|] == s[1..][j..j + |r|];
    assert s[j + 1 + |r|..] == s[1..][j + |r|..];
  }

  lemma FramedSnocSpace(s: string, r: string, i: int)
    requires s != [] && IsSpace(s[|s| - 1]) && FramedBySpace(s[..|s| - 1], r, i)
    ensures FramedBySpace(s, r, i)
  {
    var t := s[..|s| - 1];
    assert s[..i] == t[..i];
    assert s[i..i + |r|] == t[i..i + |r|];
    assert s[i + |r|..] == t[i + |r|..] + [s[|s| - 1]];
  }

  /** What `strip()` keeps is a slice of `s` with only whitespace before and after it. */
  lemma {:induction false} StripIsMiddle(s: string) returns (i: int)
    ensures FramedBySpace(s, Strip(s), i)
    decreases |s|
  {
    if s != [] && IsSpace(s[0]) {
      var j := StripIsMiddle(s[1..]);
      FramedConsSpace(s, Strip(s), j);
      i := j + 1;
    } else if s != [] && IsSpace(s[|s| - 1]) {
      i := StripIsMiddle(s[..|s| - 1]);
      FramedSnocSpace(s, Strip(s), i);
    } else {
      i := 0;
      assert s[0..0 + |s|] == s;
    }
  }

  /** `strip()` gives back exactly the middle of a string made of whitespace, a middle
      that starts and ends with non-whitespace, and whitespace again. */
  lemma {:induction false} StripExact(a: string, m: string, b: string)
    requires AllSpace(a) && AllSpace(b)
    requires m == [] || (!IsSpace(m[0]) && !IsSpace(m[|m| - 1]))
    ensures Strip(a + m + b) == m
    decreases |a| + |b|
  {
    var s := a + m + b;
    if a != [] {
      assert s[0] == a[0];
      assert s[1..] == a[1..] + m + b;
      StripExact(a[1..], m, b);
    } else if b != [] {
      assert s == m + b;
      if m == [] {
        assert s[0] == b[0];
        assert s[1..] == a + m + b[1..];
        StripExact(a, m, b[1..]);
      } else {
        assert s[0] == m[0];
        assert s[|s| - 1] == b[|b| - 1];
        assert s[..|s| - 1] == a + m + b[..|b| - 1];
        StripExact(a, m, b[..|b| - 1]);
      }
    } else {
      assert s == m;
    }
  }

  /** A string that starts with a non-whitespace character keeps it as the first
      character of its strip. */
  lemma {:induction false} StripKeepsFirst(s: string)
    requires s != [] && !IsSpace(s[0])
    ensures Strip(s) != [] && Strip(s)[0] == s[0]
    decreases |s|
  {
    if IsSpace(s[|s| - 1]) {
      StripKeepsFirst(s[..|s| - 1]);
    }
  }

  /** `s.rstrip(c)`: drop every trailing occurrence of `c`. */
  function RStripChar(s: string, c: char): (r: string)
    ensures |r| <= |s| && r == s[..|r|]
    ensures forall k :: |r| <= k < |s| ==> s[k] == c
    ensures r != [] ==> r[|r| - 1] != c
    decreases |s|
  {
    if s != [] && s[|s| - 1] == c then RStripChar(s[..|s| - 1], c) else s
  }

  /** The first index at or after `i` holding `c`, or `|s|` when there is none. */
  function IndexFrom(s: string, c: char, i: nat): (k: nat)
    requires i <= |s|
    ensures i <= k <= |s|
    ensures k < |s| ==> s[k] == c
    ensures forall j :: i <= j < k ==> s[j] != c
    decreases |s| - i
  {
    if i == |s| || s[i] == c then i else IndexFrom(s, c, i + 1)
  }

  /** Python's `sep.join(parts)` for a one-character separator. */
  function Join(parts: seq<string>, sep: char): string
    decreases |parts|
  {
    if parts == [] then ""
    else if |parts| == 1 then parts[0]
    else parts[0] + [sep] + Join(parts[1..], sep)
  }

  /** Python's `s.split(sep)` for an explicit one-character separator: the pieces
      between separators, empty pieces included, so that joining them back gives `s`. */
  function SplitOn(s: string, sep: char): (r: seq<string>)
    ensures |r| >= 1
    decreases |s|
  {
    if s == [] then [""]
    else
      var rest := SplitOn(s[1..], sep);
      if s[0] == sep then [""] + rest
      else [[s[0]] + rest[0]] + rest[1..]
  }

  /** No piece holds the separator, and joining the pieces gives `s` back. */
  lemma {:induction false} SplitOnSound(s: string, sep: char)
    ensures forall i :: 0 <= i < |SplitOn(s, sep)| ==> sep !in SplitOn(s, sep)[i]
    ensures Join(SplitOn(s, sep), sep) == s
    decreases |s|
  {
    if s != [] {
      var rest := SplitOn(s[1..], sep);
      SplitOnSound(s[1..], sep);
      var r := SplitOn(s, sep);
      if s[0] == sep {
        assert r[1..] == rest;
        assert forall i :: 1 <= i < |r| ==> r[i] == rest[i - 1];
      } else {
        assert r[1..] == rest[1..];
        assert forall i :: 1 <= i < |r| ==> r[i] == rest[i];
        assert |rest| >= 2 ==> Join(rest, sep) == rest[0] + [sep] + Join(rest[1..], sep);
      }
    }
  }

  /** `split` undoes `join` when no piece holds the separator. */
  lemma {:induction false} SplitOnJoin(parts: seq<string>, sep: char)
    requires |parts| >= 1
    requires forall i :: 0 <= i < |parts| ==> sep !in parts[i]
    ensures SplitOn(Join(parts, sep), sep) == parts
    decreases |parts|, |parts[0]|
  {
    var p := parts[0];
    if |parts| == 1 {
      SplitOnFree(p, sep);
    } else if p == [] {
      var s := Join(parts, sep);
      assert s == [sep] + Join(parts[1..], sep);
      assert s[1..] == Join(parts[1..], sep);
      SplitOnJoin(parts[1..], sep);
      assert parts == [""] + parts[1..];
    } else {
      var s := Join(parts, sep);
      var tail := [p[1..]] + parts[1..];
      assert tail[1..] == parts[1..];
      assert s[1..] == Join(tail, sep);
      SplitOnJoin(tail, sep);
      assert [p[0]] + p[1..] == p;
      assert s[0] == p[0];
      assert SplitOn(s, sep) == [[s[0]] + SplitOn(s[1..], sep)[0]] + SplitOn(s[1..], sep)[1..];
      assert parts == [[p[0]] + tail[0]] + tail[1..];
    }
  }

  /** A string without the separator splits into itself alone. */
  lemma {:induction false} SplitOnFree(s: string, sep: char)
    requires sep !in s
    ensures SplitOn(s, sep) == [s]
    decreases |s|
  {
    if s != [] {
      SplitOnFree(s[1..], sep);
      assert [s[0]] + s[1..] == s;
    }
  }

  /** The piece before the first separator: `s.split(sep)[0]`. */
  function FirstPiece(s: string, sep: char): string {
    SplitOn(s, sep)[0]
  }

  /** The piece after the last separator: `s.split(sep)[-1]`. */
  function LastPiece(s: string, sep: char): string {
    var parts := SplitOn(s, sep);
    parts[|parts| - 1]
  }

  /** `split(sep)[0]` is the text before the first separator, or all of `s`. */
  lemma FirstPieceIsPrefix(s: string, sep: char)
    ensures var f := FirstPiece(s, sep);
      f <= s && sep !in f && (f == s || s[|f|] == sep)
  {
    SplitOnSound(s, sep);
    var parts := SplitOn(s, sep);
    if |parts| >= 2 {
      assert s == parts[0] + [sep] + Join(parts[1..], sep);
      assert s[..|parts[0]|] == parts[0];
    }
  }

  /** `split(sep)[-1]` is the text after the last separator, or all of `s`. */
  lemma LastPieceIsSuffix(s: string, sep: char)
    ensures var l := LastPiece(s, sep);
      |l| <= |s| && l == s[|s| - |l|..] && sep !in l && (l == s || s[|s| - |l| - 1] == sep)
  {
    SplitOnSound(s, sep);
    var parts := SplitOn(s, sep);
    JoinLast(parts, sep);
  }

  lemma {:induction false} JoinLast(parts: seq<string>, sep: char)
    requires |parts| >= 1
    ensures var l := parts[|parts| - 1]; var s := Join(parts, sep);
      |l| <= |s| && s[|s| - |l|..] == l && (|parts| == 1 || (|l| < |s| && s[|s| - |l| - 1] == sep))
    ensures |parts| == 1 ==> Join(parts, sep) == parts[0]
    decreases |parts|
  {
    if |parts| > 1 {
      JoinLast(parts[1..], sep);
      var s := Join(parts, sep);
      var t := Join(parts[1..], sep);
      assert s == parts[0] + [sep] + t;
      var l := parts[|parts| - 1];
      assert l == parts[1..][|parts[1..]| - 1];
      assert s[|s| - |l|..] == t[|t| - |l|..];
      if |parts| == 2 {
        assert t == l;
      }
      assert s[|s| - |l| - 1] == (parts[0] + [sep] + t)[|s| - |l| - 1];
    }
  }

  /** Python's `t in s` for strings. */
  predicate Contains(s: string, t: string) {
    exists i :: 0 <= i <= |s| && t <= s[i..]
  }

  lemma ContainsMiddle(a: string, t: string, b: string)
    ensures Contains(a + t + b, t)
  {
    var s := a + t + b;
    assert s[|a|..] == t + b;
  }

  /** Helper: `s.replace(a, b)` for one character replaced by one
      character, element by element. */
  function ReplaceChar(s: string, a: char, b: char): (r: string)
    ensures |r| == |s|
    ensures forall k :: 0 <= k < |s| ==> r[k] == (if s[k] == a then b else s[k])
  {
    seq(|s|, k requires 0 <= k < |s| => if s[k] == a then b else s[k])
  }

  predicate IsLineBreak(c: char) {
    c == '\n' || c == '\r'
  }

  /** The end of the line that starts at `i`: the next line break, or `|s|`. */
  function LineEnd(s: string, i: nat): (k: nat)
    requires i <= |s|
    ensures i <= k <= |s|
    ensures k < |s| ==> IsLineBreak(s[k])
    ensures forall j :: i <= j < k ==> !IsLineBreak(s[j])
    decreases |s| - i
  {
    if i == |s| || IsLineBreak(s[i]) then i else LineEnd(s, i + 1)
  }

  /** Python 2 `str.splitlines()`: lines end at "\n", "\r" or "\r\n"; the breaks
      are dropped and a final break does not start an empty line. */
  function SplitLines(s: string): seq<string>
    decreases |s|
  {
    if s == [] then []
    else
      var k := LineEnd(s, 0);
      if k == |s| then [s]
      else
        var next := if s[k] == '\r' && k + 1 < |s| && s[k + 1] == '\n' then k + 2 else k + 1;
        [s[..k]] + SplitLines(s[next..])
  }

  predicate NoLineBreak(s: string) {
    forall k :: 0 <= k < |s| ==> !IsLineBreak(s[k])
  }

  /** Lines written one after another, each ended by "\n". */
  function JoinLines(lines: seq<string>): string
    decreases |lines|
  {
    if lines == [] then "" else lines[0] + "\n" + JoinLines(lines[1..])
  }

  /** `splitlines()` gives back the lines that were written with "\n" endings. */
  lemma {:induction false} SplitLinesJoin(lines: seq<string>)
    requires forall i :: 0 <= i < |lines| ==> NoLineBreak(lines[i])
    ensures SplitLines(JoinLines(lines)) == lines
    decreases |lines|
  {
    if lines != [] {
      var l := lines[0];
      var rest := JoinLines(lines[1..]);
      var s := JoinLines(lines);
      assert s == l + "\n" + rest;
      LineEndAt(s, l);
      assert s[..|l|] == l;
      assert s[|l| + 1..] == rest;
      SplitLinesJoin(lines[1..]);
    }
  }

  lemma LineEndAt(s: string, l: string)
    requires l < s && NoLineBreak(l) && s[|l|] == '\n'
    ensures LineEnd(s, 0) == |l|
  {
    assert forall j :: 0 <= j < |l| ==> s[j] == l[j];
    assert IsLineBreak(s[|l|]);
  }
}
