// The git-svn version check: the three-part version comparison, the search
// for `version X.Y.Z` in `git svn --version`, and the upgrade gate against 1.5.4.

module Versions {
  import opened Wrappers

  /** A (major, minor, micro) triple as the source passes it around. */
  datatype Version = Version(major: nat, minor: nat, micro: nat)

  /** `is_valid_version`: the three-case disjunction as the source writes it. */
  predicate IsValidVersion(actual: Version, expected: Version) {
    actual.major > expected.major
    || (actual.major == expected.major && actual.minor > expected.minor)
    || (actual.major == expected.major && actual.minor == expected.minor
        && actual.micro >= expected.micro)
  }

  // ---------------------------------------------------------------------
  // Reference: the lexicographic order on sequences of integers

  function Key(v: Version): seq<int> {
    [v.major, v.minor, v.micro]
  }

  /** `a >= b` lexicographically, for sequences of the same length. */
  predicate LexGe(a: seq<int>, b: seq<int>)
    requires |a| == |b|
  {
    a == [] || a[0] > b[0] || (a[0] == b[0] && LexGe(a[1..], b[1..]))
  }

  lemma {:induction false} LexGeReflexive(a: seq<int>)
    ensures LexGe(a, a)
  {
    if a != [] {
      LexGeReflexive(a[1..]);
    }
  }

  lemma {:induction false} LexGeTotal(a: seq<int>, b: seq<int>)
    requires |a| == |b|
    ensures LexGe(a, b) || LexGe(b, a)
  {
    if a != [] && a[0] == b[0] {
      LexGeTotal(a[1..], b[1..]);
    }
  }

  lemma {:induction false} LexGeTransitive(a: seq<int>, b: seq<int>, c: seq<int>)
    requires |a| == |b| == |c| && LexGe(a, b) && LexGe(b, c)
    ensures LexGe(a, c)
  {
    if a != [] && a[0] == b[0] == c[0] {
      LexGeTransitive(a[1..], b[1..], c[1..]);
    }
  }

  lemma {:induction false} LexGeAntisymmetric(a: seq<int>, b: seq<int>)
    requires |a| == |b| && LexGe(a, b) && LexGe(b, a)
    ensures a == b
  {
    if a != [] {
      LexGeAntisymmetric(a[1..], b[1..]);
      assert a == [a[0]] + a[1..] && b == [b[0]] + b[1..];
    }
  }

  /** The source's disjunction is exactly `>=` on the triples. */
  lemma IsValidVersionIsLexGe(actual: Version, expected: Version)
    ensures IsValidVersion(actual, expected) <==> LexGe(Key(actual), Key(expected))
  {
    var a, e := Key(actual), Key(expected);
    var a1, e1 := a[1..], e[1..];
    var a2, e2 := a1[1..], e1[1..];
    assert a1 == [actual.minor, actual.micro] && e1 == [expected.minor, expected.micro];
    assert a2 == [actual.micro] && e2 == [expected.micro];
    assert a2[1..] == [] && e2[1..] == [];
    assert LexGe(a2, e2) <==> actual.micro >= expected.micro;
    assert LexGe(a1, e1) <==>
      (actual.minor > expected.minor || (actual.minor == expected.minor && actual.micro >= expected.micro));
  }

  lemma IsValidVersionReflexive(v: Version)
    ensures IsValidVersion(v, v)
  {
    IsValidVersionIsLexGe(v, v);
    LexGeReflexive(Key(v));
  }

  lemma IsValidVersionTotal(a: Version, e: Version)
    ensures IsValidVersion(a, e) || IsValidVersion(e, a)
  {
    IsValidVersionIsLexGe(a, e);
    IsValidVersionIsLexGe(e, a);
    LexGeTotal(Key(a), Key(e));
  }

  lemma IsValidVersionTransitive(a: Version, b: Version, c: Version)
    requires IsValidVersion(a, b) && IsValidVersion(b, c)
    ensures IsValidVersion(a, c)
  {
    IsValidVersionIsLexGe(a, b);
    IsValidVersionIsLexGe(b, c);
    IsValidVersionIsLexGe(a, c);
    LexGeTransitive(Key(a), Key(b), Key(c));
  }

  lemma IsValidVersionAntisymmetric(a: Version, e: Version)
    requires IsValidVersion(a, e) && IsValidVersion(e, a)
    ensures a == e
  {
    IsValidVersionIsLexGe(a, e);
    IsValidVersionIsLexGe(e, a);
    LexGeAntisymmetric(Key(a), Key(e));
    assert Key(a)[0] == Key(e)[0] && Key(a)[1] == Key(e)[1] && Key(a)[2] == Key(e)[2];
  }

  // ---------------------------------------------------------------------
  // Decimal digits, as `\d` and `int()` read them

  predicate IsDigit(c: char) {
    '0' <= c <= '9'
  }

  predicate AllDigits(s: string) {
    forall k :: 0 <= k < |s| ==> IsDigit(s[k])
  }

  function DigitValue(c: char): nat {
    if IsDigit(c) then (c - '0') as nat else 0
  }

  /** `int()` of a run of ASCII digits; leading zeros are allowed. It is only
      applied to runs of digits. */
  function Value(s: string): nat {
    if s == [] then 0 else Value(s[..|s| - 1]) * 10 + DigitValue(s[|s| - 1])
  }

  /** The decimal spelling of `n`, with no leading zeros. */
  function Decimal(n: nat): (r: string)
    ensures r != [] && AllDigits(r)
  {
    var d := ['0' + (n % 10) as char];
    if n < 10 then d else Decimal(n / 10) + d
  }

  lemma {:induction false} ValueOfDecimal(n: nat)
    ensures Value(Decimal(n)) == n
  {
    var d := ['0' + (n % 10) as char];
    if n >= 10 {
      ValueOfDecimal(n / 10);
      assert Decimal(n)[..|Decimal(n)| - 1] == Decimal(n / 10);
    }
  }

  /** The maximal run of digits at the front of `s`, and what follows it. */
  function Run(s: string): (r: (string, string))
    ensures r.0 + r.1 == s && AllDigits(r.0)
    ensures r.1 != [] ==> !IsDigit(r.1[0])
  {
    if s != [] && IsDigit(s[0]) then
      var rest := Run(s[1..]);
      assert [s[0]] + rest.0 + rest.1 == s;
      ([s[0]] + rest.0, rest.1)
    else ([], s)
  }

  lemma {:induction false} RunOf(d: string, t: string)
    requires AllDigits(d) && (t == [] || !IsDigit(t[0]))
    ensures Run(d + t) == (d, t)
  {
    if d != [] {
      var s := d + t;
      assert s[0] == d[0] && IsDigit(d[0]);
      assert s[1..] == d[1..] + t;
      RunOf(d[1..], t);
      assert Run(s) == ([s[0]] + Run(s[1..]).0, Run(s[1..]).1);
      assert [d[0]] + d[1..] == d;
    } else {
      assert d + t == t;
    }
  }

  // ---------------------------------------------------------------------
  // `re.search('version (\d+)\.(\d+)\.(\d+)', output)`

  const VERSION_WORD := "version "

  /** The match at the front of `s`, if there is one. Each `\d+` takes the
      whole run of digits: giving any back would put a digit where a `.` is
      needed, and is never needed for the last group. */
  function VersionPrefix(s: string): Option<Version> {
    if !(VERSION_WORD <= s) then None
    else
      var (d1, r1) := Run(s[|VERSION_WORD|..]);
      if d1 == [] || r1 == [] || r1[0] != '.' then None
      else
        var (d2, r2) := Run(r1[1..]);
        if d2 == [] || r2 == [] || r2[0] != '.' then None
        else
          var (d3, _) := Run(r2[1..]);
          if d3 == [] then None
          else Some(Version(Value(d1), Value(d2), Value(d3)))
  }

  /** The match that starts at position `i`, if there is one. */
  function VersionAt(s: string, i: nat): Option<Version>
    requires i <= |s|
  {
    VersionPrefix(s[i..])
  }

  /** The leftmost match at or after `i`, with its position. */
  function FindVersion(s: string, i: nat): Option<(nat, Version)>
    requires i <= |s|
    decreases |s| - i
  {
    match VersionAt(s, i)
    case Some(v) => Some((i, v))
    case None => if i == |s| then None else FindVersion(s, i + 1)
  }

  /** `re.search` semantics: the match found is one, and no match starts
      earlier; nothing is found only when no position matches. */
  lemma {:induction false} FindVersionLeftmost(s: string, i: nat)
    requires i <= |s|
    ensures var r := FindVersion(s, i);
      r.Some? ==> i <= r.value.0 <= |s| && VersionAt(s, r.value.0) == Some(r.value.1)
    ensures var r := FindVersion(s, i);
      r.Some? ==> forall j :: i <= j < r.value.0 ==> VersionAt(s, j).None?
    ensures var r := FindVersion(s, i);
      r.None? ==> forall j :: i <= j <= |s| ==> VersionAt(s, j).None?
    decreases |s| - i
  {
    if VersionAt(s, i).None? && i < |s| {
      FindVersionLeftmost(s, i + 1);
      var r := FindVersion(s, i + 1);
      assert FindVersion(s, i) == r;
      if r.Some? {
        forall j | i <= j < r.value.0 ensures VersionAt(s, j).None? {
          if j == i {
          }
        }
      } else {
        forall j | i <= j <= |s| ensures VersionAt(s, j).None? {
          if j == i {
          }
        }
      }
    }
  }

  /** The version triple in the output of `git svn --version`, if any. */
  function ParseVersion(output: string): Option<Version> {
    match FindVersion(output, 0)
    case Some(found) => Some(found.1)
    case None => None
  }

  /** How a version is printed: `version X.Y.Z`. */
  function Shown(v: Version): string {
    VERSION_WORD + (Decimal(v.major) + ("." + (Decimal(v.minor) + ("." + Decimal(v.micro)))))
  }

  /** Three runs of digits separated by dots, after the word, are read as
      the three components. */
  lemma VersionPrefixOf(d1: string, d2: string, d3: string, t: string)
    requires d1 != [] && d2 != [] && d3 != []
    requires AllDigits(d1) && AllDigits(d2) && AllDigits(d3)
    requires t == [] || !IsDigit(t[0])
    ensures VersionPrefix(VERSION_WORD + (d1 + ("." + (d2 + ("." + (d3 + t))))))
      == Some(Version(Value(d1), Value(d2), Value(d3)))
  {
    var r2 := "." + (d3 + t);
    var r1 := "." + (d2 + r2);
    var s := VERSION_WORD + (d1 + r1);
    assert s[|VERSION_WORD|..] == d1 + r1;
    RunOf(d1, r1);
    assert r1[1..] == d2 + r2;
    RunOf(d2, r2);
    assert r2[1..] == d3 + t;
    RunOf(d3, t);
  }

  /** A printed version, followed by anything that does not start with a
      digit, is read back as that version. */
  lemma ParseShown(v: Version, t: string)
    requires t == [] || !IsDigit(t[0])
    ensures ParseVersion(Shown(v) + t) == Some(v)
  {
    var d1, d2, d3 := Decimal(v.major), Decimal(v.minor), Decimal(v.micro);
    var s := Shown(v) + t;
    assert s == VERSION_WORD + (d1 + ("." + (d2 + ("." + (d3 + t)))));
    VersionPrefixOf(d1, d2, d3, t);
    assert s[0..] == s;
    ValueOfDecimal(v.major);
    ValueOfDecimal(v.minor);
    ValueOfDecimal(v.micro);
  }

  // ---------------------------------------------------------------------
  // The upgrade gate of `get_repository_info`

  const MINIMUM := Version(1, 5, 4)

  /** The source stops with an upgrade message when a version was found,
      it is below 1.5.4, and an svn remote is configured (the output of
      `git config --get svn-remote.svn.url` is not empty). */
  predicate NeedsUpgrade(versionOutput: string, svnRemote: string) {
    match ParseVersion(versionOutput)
    case None => false
    case Some(v) => !IsValidVersion(v, MINIMUM) && svnRemote != ""
  }

  lemma UpgradeGate(versionOutput: string, svnRemote: string)
    ensures NeedsUpgrade(versionOutput, svnRemote) <==>
      (ParseVersion(versionOutput).Some?
       && !LexGe(Key(ParseVersion(versionOutput).value), Key(MINIMUM))
       && svnRemote != "")
  {
    if ParseVersion(versionOutput).Some? {
      IsValidVersionIsLexGe(ParseVersion(versionOutput).value, MINIMUM);
    }
  }

  /** Components compare as numbers, not as text: 1.10.0 is recent enough. */
  lemma NumericComponents(t: string, svnRemote: string)
    requires t == [] || !IsDigit(t[0])
    ensures !NeedsUpgrade(Shown(Version(1, 10, 0)) + t, svnRemote)
    ensures svnRemote != "" ==> NeedsUpgrade(Shown(Version(1, 5, 3)) + t, svnRemote)
  {
    ParseShown(Version(1, 10, 0), t);
    ParseShown(Version(1, 5, 3), t);
  }
}
