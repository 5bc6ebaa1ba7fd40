// `update_commits_with_reviewer_info`: the `Reviewed-By:` text, the reuse
// of an attribution already in the first commit's notes, and the count of
// commits whose notes were updated.

module Annotator {
  import opened Wrappers
  import opened PyText

  const MARKER := "Reviewed-By: "

  /** The attribution, written out case by case: the reviewers, the groups,
      both joined by `and`, or neither, and the review URL in angle brackets. */
  function Attribution(people: string, groups: string, url: string): string {
    if people != "" && groups != "" then MARKER + people + " and groups:" + groups + " <" + url + ">"
    else if people != "" then MARKER + people + " <" + url + ">"
    else if groups != "" then MARKER + "groups:" + groups + " <" + url + ">"
    else MARKER + "<" + url + ">"
  }

  /** The source's construction, one `+=` at a time. */
  method BuildAttribution(people: string, groups: string, url: string) returns (reviewedBy: string)
    ensures reviewedBy == Attribution(people, groups, url)
  {
    reviewedBy := "Reviewed-By:";
    if people != "" {
      reviewedBy := reviewedBy + " " + people;
    }
    if people != "" && groups != "" {
      reviewedBy := reviewedBy + " and";
    }
    if groups != "" {
      reviewedBy := reviewedBy + " groups:" + groups;
    }
    reviewedBy := reviewedBy + " <" + url + ">";
    if people != "" && groups != "" {
      assert reviewedBy == MARKER + people + " and groups:" + groups + " <" + url + ">";
    } else if people != "" {
      assert reviewedBy == MARKER + people + " <" + url + ">";
    } else if groups != "" {
      assert reviewedBy == MARKER + "groups:" + groups + " <" + url + ">";
    } else {
      assert reviewedBy == MARKER + "<" + url + ">";
    }
  }

  /** A notes line the source takes as an attribution for this review. */
  predicate Recognized(line: string, url: string) {
    MARKER <= line && Contains(line, url)
  }

  /** Whatever the options, the attribution starts with `Reviewed-By: `,
      ends with the URL in angle brackets after a space (the marker's own
      space when there are neither reviewers nor groups), and is itself
      recognized as an attribution for that review. */
  lemma AttributionShape(people: string, groups: string, url: string)
    ensures var a := Attribution(people, groups, url);
      MARKER <= a && |a| >= |url| + 3 && a[|a| - |url| - 3..] == " <" + url + ">"
      && Recognized(a, url)
  {
    if people != "" && groups != "" {
      PrefixExtends(MARKER, MARKER, people);
      PrefixExtends(MARKER, MARKER + people, " and groups:");
      PrefixExtends(MARKER, MARKER + people + " and groups:", groups);
      Framed(MARKER + people + " and groups:" + groups, url);
    } else if people != "" {
      PrefixExtends(MARKER, MARKER, people);
      Framed(MARKER + people, url);
    } else if groups != "" {
      PrefixExtends(MARKER, MARKER, "groups:");
      PrefixExtends(MARKER, MARKER + "groups:", groups);
      Framed(MARKER + "groups:" + groups, url);
    } else {
      FramedBare(url);
    }
  }

  /** With neither reviewers nor groups, the marker's own space stands
      before the bracket. */
  lemma FramedBare(url: string)
    ensures var a := MARKER + "<" + url + ">";
      MARKER <= a && |a| >= |url| + 3 && a[|a| - |url| - 3..] == " <" + url + ">"
      && Recognized(a, url)
  {
    var a := MARKER + "<" + url + ">";
    assert MARKER == "Reviewed-By:" + " " && " " + "<" == " <";
    AppendAssoc4("Reviewed-By:", " ", "<", url, ">");
    assert a == "Reviewed-By:" + " <" + url + ">";
    PrefixExtends(MARKER, MARKER, "<" + url + ">");
    assert MARKER + ("<" + url + ">") == a;
    Framed("Reviewed-By:", url);
  }

  lemma AppendAssoc4(a: string, b: string, c: string, d: string, e: string)
    ensures a + b + c + d + e == a + (b + c) + d + e
  {
  }

  /** A prefix of `x` is a prefix of anything `x` starts. */
  lemma PrefixExtends(p: string, x: string, y: string)
    requires p <= x
    ensures p <= x + y
  {
    assert (x + y)[..|p|] == x[..|p|];
  }

  /** A head, then ` <url>`: that ending, and a recognized line when the
      head has the marker in front. */
  lemma Framed(head: string, url: string)
    ensures var a := head + " <" + url + ">";
      |a| >= |url| + 3 && a[|a| - |url| - 3..] == " <" + url + ">"
      && (MARKER <= head + " " ==> Recognized(a, url))
  {
    var a := head + " <" + url + ">";
    assert a == head + (" <" + url + ">");
    ContainsMiddle(head + " <", url, ">");
    if MARKER <= head + " " {
      PrefixExtends(MARKER, head + " ", "<" + url + ">");
      assert head + " " + ("<" + url + ">") == a;
    }
  }

  /** `and` joins the reviewers and the groups only when both are given. */
  lemma AttributionJoin(people: string, groups: string, url: string)
    ensures var a := Attribution(people, groups, url);
      people != "" && groups != "" <==> MARKER + people + " and groups:" <= a
  {
    var a := Attribution(people, groups, url);
    var j := MARKER + people + " and groups:";
    var k := |MARKER + people|;
    if people != "" && groups != "" {
      assert a == j + (groups + " <" + url + ">");
    } else if people != "" {
      assert a == (MARKER + people) + (" <" + url + ">");
      assert a[k + 1] == '<' && j[k + 1] == 'a';
    } else {
      assert j[k] == ' ';
      if groups != "" {
        assert a == MARKER + ("groups:" + groups + " <" + url + ">");
      } else {
        assert a == MARKER + ("<" + url + ">");
      }
      assert a[k] != ' ';
    }
  }

  /** The first recognized line, as the loop over `splitlines()` finds it:
      a recognized line with no recognized line before it. */
  function FirstRecognized(lines: seq<string>, url: string): (r: Option<string>)
    ensures r.Some? ==>
      exists k :: 0 <= k < |lines| && lines[k] == r.value && Recognized(r.value, url)
                  && forall j :: 0 <= j < k ==> !Recognized(lines[j], url)
    ensures r.None? ==> forall i :: 0 <= i < |lines| ==> !Recognized(lines[i], url)
    decreases |lines|
  {
    if lines == [] then None
    else if Recognized(lines[0], url) then Some(lines[0])
    else
      var r := FirstRecognized(lines[1..], url);
      assert forall j :: 1 <= j < |lines| ==> lines[j] == lines[1..][j - 1];
      r
  }

  /** An attribution already in the first commit's notes; `None` output (an
      error) and empty output both mean none. */
  function PriorAttribution(notes: Option<string>, url: string): Option<string> {
    match notes
    case None => None
    case Some(text) => if text == "" then None else FirstRecognized(SplitLines(text), url)
  }

  /** The loop over the notes' lines, stopping at the first attribution. */
  method FindPrior(notes: Option<string>, url: string) returns (found: Option<string>)
    ensures found == PriorAttribution(notes, url)
  {
    found := None;
    if notes.Some? && notes.value != "" {
      var lines := SplitLines(notes.value);
      var i := 0;
      while i < |lines|
        invariant 0 <= i <= |lines|
        invariant FirstRecognized(lines, url) == FirstRecognized(lines[i..], url)
        decreases |lines| - i
      {
        assert lines[i..][1..] == lines[i + 1..];
        if Recognized(lines[i], url) {
          found := Some(lines[i]);
          return;
        }
        i := i + 1;
      }
    }
  }

  /** Notes laid out as some lines without an attribution for this review
      followed by the attribution are recognized on the next run, which then
      skips the commit. The layout is assumed here: the perl filter the
      source passes as editor is not modelled, and it prints the last
      original line a second time before the attribution. */
  lemma RerunFindsAttribution(kept: seq<string>, people: string, groups: string, url: string)
    requires forall i :: 0 <= i < |kept| ==> NoLineBreak(kept[i]) && !Recognized(kept[i], url)
    requires NoLineBreak(Attribution(people, groups, url))
    ensures var a := Attribution(people, groups, url);
      PriorAttribution(Some(JoinLines(kept + [a])), url) == Some(a)
  {
    var a := Attribution(people, groups, url);
    var lines := kept + [a];
    SplitLinesJoin(lines);
    AttributionShape(people, groups, url);
    assert JoinLines(lines) != "" by {
      if JoinLines(lines) == "" {
        assert false;
      }
    }
    FirstRecognizedAfter(kept, a, url);
  }

  lemma {:induction false} FirstRecognizedAfter(kept: seq<string>, a: string, url: string)
    requires forall i :: 0 <= i < |kept| ==> !Recognized(kept[i], url)
    requires Recognized(a, url)
    ensures FirstRecognized(kept + [a], url) == Some(a)
  {
    if kept != [] {
      assert (kept + [a])[1..] == kept[1..] + [a];
      FirstRecognizedAfter(kept[1..], a, url);
    } else {
      assert kept + [a] == [a];
    }
  }

  /** How many of `commits` had their notes edited: `edit` says whether
      `git notes edit` gave output for a commit and attribution. */
  function Successes(commits: seq<string>, attribution: string, edit: (string, string) -> bool): nat {
    if commits == [] then 0
    else (if edit(commits[0], attribution) then 1 else 0) + Successes(commits[1..], attribution, edit)
  }

  lemma {:induction false} SuccessesBound(commits: seq<string>, attribution: string, edit: (string, string) -> bool)
    ensures Successes(commits, attribution, edit) <= |commits|
    ensures Successes(commits, attribution, edit) == |commits|
      <==> forall i :: 0 <= i < |commits| ==> edit(commits[i], attribution)
  {
    if commits != [] {
      SuccessesBound(commits[1..], attribution, edit);
      forall i | 0 < i < |commits| ensures commits[i] == commits[1..][i - 1] { }
    }
  }

  lemma {:induction false} SuccessesAppend(xs: seq<string>, c: string, attribution: string, edit: (string, string) -> bool)
    ensures Successes(xs + [c], attribution, edit)
      == Successes(xs, attribution, edit) + (if edit(c, attribution) then 1 else 0)
  {
    if xs == [] {
      assert xs + [c] == [c];
    } else {
      assert (xs + [c])[1..] == xs[1..] + [c];
      SuccessesAppend(xs[1..], c, attribution, edit);
    }
  }

  /** The loop over the commits, counting the edits that gave output. */
  method CountEdits(commits: seq<string>, attribution: string, edit: (string, string) -> bool) returns (n: nat)
    ensures n == Successes(commits, attribution, edit)
  {
    n := 0;
    for i := 0 to |commits|
      invariant n == Successes(commits[..i], attribution, edit)
    {
      assert commits[..i + 1] == commits[..i] + [commits[i]];
      SuccessesAppend(commits[..i], commits[i], attribution, edit);
      if edit(commits[i], attribution) {
        n := n + 1;
      }
    }
    assert commits[..|commits|] == commits;
  }

  /** Helper: `[c.strip() for c in commits]`, element by element. */
  function StripAll(raw: seq<string>): (r: seq<string>)
    ensures |r| == |raw| && forall i :: 0 <= i < |raw| ==> r[i] == Strip(raw[i])
  {
    seq(|raw|, i requires 0 <= i < |raw| => Strip(raw[i]))
  }

  /** The count `update_commits_with_reviewer_info` returns, given the
      `rev-list` output (`None` on error), the first commit's notes and the
      outcome of each edit. A first commit that already carries an
      attribution for this review is counted without being edited, and its
      attribution is the one written into the others. */
  function UpdateCount(revList: Option<seq<string>>, notesOfFirst: string -> Option<string>,
                       edit: (string, string) -> bool, people: string, groups: string, url: string): nat
  {
    match revList
    case None => 0
    case Some(raw) =>
      if raw == [] then 0
      else
        var commits := StripAll(raw);
        match PriorAttribution(notesOfFirst(commits[0]), url)
        case Some(line) => 1 + Successes(commits[1..], line, edit)
        case None => Successes(commits, Attribution(people, groups, url), edit)
  }

  /** Nothing to update gives 0; otherwise the count never exceeds the
      number of commits, and reaches it exactly when every edit made is
      reported. */
  lemma UpdateCountBounds(revList: Option<seq<string>>, notesOfFirst: string -> Option<string>,
                          edit: (string, string) -> bool, people: string, groups: string, url: string)
    ensures revList.None? || revList == Some([]) ==> UpdateCount(revList, notesOfFirst, edit, people, groups, url) == 0
    ensures revList.Some? ==> UpdateCount(revList, notesOfFirst, edit, people, groups, url) <= |revList.value|
  {
    if revList.Some? && revList.value != [] {
      var commits := StripAll(revList.value);
      SuccessesBound(commits, Attribution(people, groups, url), edit);
      match PriorAttribution(notesOfFirst(commits[0]), url)
      case Some(line) => SuccessesBound(commits[1..], line, edit);
      case None =>
    }
  }

  /** When every edit succeeds, every commit is counted, whether or not the
      first one is skipped. */
  lemma UpdateCountAllSucceed(raw: seq<string>, notesOfFirst: string -> Option<string>,
                              edit: (string, string) -> bool, people: string, groups: string, url: string)
    requires forall c, a :: edit(c, a)
    ensures UpdateCount(Some(raw), notesOfFirst, edit, people, groups, url) == |raw|
  {
    if raw != [] {
      var commits := StripAll(raw);
      SuccessesBound(commits, Attribution(people, groups, url), edit);
      match PriorAttribution(notesOfFirst(commits[0]), url)
      case Some(line) => SuccessesBound(commits[1..], line, edit);
      case None =>
    }
  }
}
