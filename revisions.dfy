// Which diffs `diff` and `diff_between_revisions` ask `make_diff` for, which
// revision range they remember for the reviewer annotation, and how
// `make_diff` spells its range for `git diff`.

module Revisions {
  import opened Wrappers
  import opened PyText

  /** The two arguments of `make_diff(ancestor, commit="")`. */
  datatype Range = Range(ancestor: string, commit: string)

  /** The range argument `make_diff` gives `git diff`: `a..c`, or just `a`
      (a diff against the working tree) when there is no commit. */
  function RevRangeArg(r: Range): string {
    if r.commit != "" then r.ancestor + ".." + r.commit else r.ancestor
  }

  /** The range `update_commits_with_reviewer_info` gives `git rev-list`:
      `"..".join(pair)`, which keeps the `..` even for an empty end. */
  function RevListArg(pair: (string, string)): string {
    pair.0 + ".." + pair.1
  }

  /** A `make_diff` range with a commit reads back as its two ends when the
      ancestor has no dot; without a commit it is the ancestor alone. The
      `rev-list` spelling agrees with it exactly when the end is not empty. */
  lemma RevRangeArgParts(r: Range)
    ensures r.commit == "" ==> RevRangeArg(r) == r.ancestor
    ensures r.commit != "" && '.' !in r.ancestor ==>
      FirstPiece(RevRangeArg(r), '.') == r.ancestor && RevRangeArg(r)[|r.ancestor| + 2..] == r.commit
    ensures RevListArg((r.ancestor, r.commit)) == RevRangeArg(r) <==> r.commit != ""
  {
    var s := r.ancestor + ".." + r.commit;
    if r.commit != "" && '.' !in r.ancestor {
      FirstPieceIsPrefix(s, '.');
      var f := FirstPiece(s, '.');
      assert s[|r.ancestor|] == '.';
      if |f| < |r.ancestor| {
        assert false;
      } else if |f| > |r.ancestor| {
        assert false;
      }
      assert f == s[..|f|] && r.ancestor == s[..|r.ancestor|];
      assert s[|r.ancestor| + 2..] == r.commit;
    }
    if r.commit == "" {
      assert |RevListArg((r.ancestor, r.commit))| == |r.ancestor| + 2;
    }
  }

  /** What one of the two entry points settles: the main diff, the parent
      diff if any, and the pair kept in `rev_range_for_diff`. */
  datatype Plan = Plan(primary: Range, parent: Option<Range>, revRange: (string, string))

  /** `head_ref`, or `HEAD` when `symbolic-ref` gave nothing. */
  function HeadOrDefault(headRef: string): string {
    if headRef != "" then headRef else "HEAD"
  }

  /** `diff`: with a parent branch, the working tree against the parent and
      the parent against the merge base; otherwise the merge base against
      the head. */
  function PlanDiff(parentBranch: string, mergeBase: string, headRef: string): Plan {
    if parentBranch != "" then
      Plan(Range(parentBranch, ""), Some(Range(mergeBase, parentBranch)), (parentBranch, "HEAD"))
    else
      Plan(Range(mergeBase, headRef), None, (mergeBase, "HEAD"))
  }

  /** The diffs of `diff` chain up: a parent diff runs from the merge base to
      where the main diff starts, and without one the main diff starts at the
      merge base itself. The remembered range runs from that start to `HEAD`. */
  lemma PlanDiffChain(parentBranch: string, mergeBase: string, headRef: string)
    ensures var p := PlanDiff(parentBranch, mergeBase, headRef);
      (p.parent.Some? <==> parentBranch != "")
      && (p.parent.Some? ==> p.parent.value == Range(mergeBase, p.primary.ancestor) && p.primary.commit == "")
      && (p.parent.None? ==> p.primary == Range(mergeBase, headRef))
      && p.revRange == (p.primary.ancestor, "HEAD")
  {
  }

  /** The `git svn` / `git branch --contains` target: the revision, or the
      first of the two. */
  function FirstRevision(revisionRange: string): string {
    FirstPiece(revisionRange, ':')
  }

  /** `R1:R2` is unpacked into exactly two names; a third `:` makes the
      source fail, so callers give at most one. */
  predicate WellFormedRange(revisionRange: string) {
    ':' !in revisionRange || |SplitOn(revisionRange, ':')| == 2
  }

  /** `diff_between_revisions`: `containsOutput` is what `git branch -r
      --contains` printed for the first revision; an empty output means no
      remote branch has it yet, and a parent diff is made. */
  function PlanBetween(revisionRange: string, mergeBase: string, containsOutput: string): Plan
    requires WellFormedRange(revisionRange)
  {
    if ':' !in revisionRange then
      var parent := if containsOutput == "" then Some(Range(mergeBase, revisionRange)) else None;
      Plan(Range(revisionRange, ""), parent, (revisionRange, "HEAD"))
    else
      var parts := SplitOn(revisionRange, ':');
      var (r1, r2) := (parts[0], parts[1]);
      var parent := if containsOutput == "" then Some(Range(mergeBase, r1)) else None;
      Plan(Range(r1, r2), parent, (r1, r2))
  }

  /** The parent diff is made exactly when no remote branch contains the
      first revision, and then runs from the merge base to it, where the main
      diff starts; the remembered range starts there too. */
  lemma PlanBetweenGate(revisionRange: string, mergeBase: string, containsOutput: string)
    requires WellFormedRange(revisionRange)
    ensures var p := PlanBetween(revisionRange, mergeBase, containsOutput);
      (p.parent.Some? <==> containsOutput == "")
      && (p.parent.Some? ==> p.parent.value == Range(mergeBase, FirstRevision(revisionRange)))
      && p.primary.ancestor == FirstRevision(revisionRange) == p.revRange.0
  {
    if ':' !in revisionRange {
      SplitOnFree(revisionRange, ':');
    }
  }

  /** One revision `R` that no remote branch contains plans exactly what
      `diff` plans with `R` as its parent branch; once a remote branch has
      it, the same without the parent diff. */
  lemma PlanBetweenSingle(rev: string, mergeBase: string, containsOutput: string, headRef: string)
    requires ':' !in rev && rev != ""
    ensures WellFormedRange(rev)
    ensures var p := PlanBetween(rev, mergeBase, containsOutput);
      var d := PlanDiff(rev, mergeBase, headRef);
      (containsOutput == "" ==> p == d)
      && (containsOutput != "" ==> p == d.(parent := None))
  {
  }

  /** Two revisions `R1:R2`: the diff from `R1` to `R2`, remembered as such. */
  lemma PlanBetweenPair(r1: string, r2: string, mergeBase: string, containsOutput: string)
    requires ':' !in r1 && ':' !in r2
    ensures WellFormedRange(r1 + ":" + r2)
    ensures var p := PlanBetween(r1 + ":" + r2, mergeBase, containsOutput);
      p.primary == Range(r1, r2) && p.revRange == (r1, r2)
  {
    var parts := [r1, r2];
    assert Join(parts, ':') == r1 + ":" + r2 by {
      assert parts[1..] == [r2];
    }
    SplitOnJoin(parts, ':');
    assert (r1 + ":" + r2)[|r1|] == ':';
  }
}
