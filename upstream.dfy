// The string rules `get_repository_info` and `get_origin` use to settle the
// upstream branch and the repository paths: the `refs/heads/` prefix, the
// tracking branch, the origin default chain, the bare-repository fallback,
// and the line searches over `git svn info` and `git svn rebase -n`.

module Upstream {
  import opened Wrappers
  import opened PyText

  const HEADS_PREFIX := "refs/heads/"

  /** `_strip_heads_prefix`: `re.sub('^refs/heads/', '', ref)`. The anchor
      only matches at the very start, so at most one prefix goes. */
  function StripHeadsPrefix(ref: string): (r: string)
    ensures HEADS_PREFIX <= ref ==> HEADS_PREFIX + r == ref
    ensures !(HEADS_PREFIX <= ref) ==> r == ref
  {
    if HEADS_PREFIX <= ref then ref[|HEADS_PREFIX|..] else ref
  }

  /** Putting the prefix on and taking it off gives back the branch name,
      even when that name itself starts with `refs/heads/`. */
  lemma StripHeadsPrefixInverse(branch: string)
    ensures StripHeadsPrefix(HEADS_PREFIX + branch) == branch
  {
    assert HEADS_PREFIX <= HEADS_PREFIX + branch;
    assert (HEADS_PREFIX + branch)[|HEADS_PREFIX|..] == branch;
  }

  /** The keys `get_repository_info` asks `git config --get` for. */
  function MergeKey(shortHead: string): string {
    "branch." + shortHead + ".merge"
  }

  function RemoteKey(shortHead: string): string {
    "branch." + shortHead + ".remote"
  }

  function RemoteUrlKey(remote: string): string {
    "remote." + remote + ".url"
  }

  /** The tracking branch of the checked-out branch, or `""`: `config` is
      the output of `git config --get KEY`. */
  function TrackingBranch(headRef: string, config: string -> string): string {
    if headRef == "" then ""
    else
      var shortHead := StripHeadsPrefix(headRef);
      var merge := StripHeadsPrefix(Strip(config(MergeKey(shortHead))));
      var remote := Strip(config(RemoteKey(shortHead)));
      if remote != "" && remote != "." && merge != "" then remote + "/" + merge else ""
  }

  /** Helper: `get_origin`'s choice of branch, the `--tracking-branch`
      option, else the branch passed in, else `origin/master`. */
  function ChooseUpstream(tracking: string, default: string): (b: string)
    ensures b != ""
    ensures tracking != "" ==> b == tracking
    ensures tracking == "" && default != "" ==> b == default
    ensures tracking == "" && default == "" ==> b == "origin/master"
  {
    if tracking != "" then tracking else if default != "" then default else "origin/master"
  }

  /** `upstream_branch.split('/')[0]`. */
  function RemoteOf(branch: string): string {
    FirstPiece(branch, '/')
  }

  /** The remote name is the start of the branch up to its first `/`. */
  lemma RemoteOfIsPrefix(branch: string)
    ensures var r := RemoteOf(branch);
      r <= branch && '/' !in r && (r == branch || branch[|r|] == '/')
  {
    FirstPieceIsPrefix(branch, '/');
  }

  /** A branch `remote/name` with no `/` in the remote names that remote. */
  lemma RemoteOfTracking(remote: string, name: string)
    requires '/' !in remote
    ensures RemoteOf(remote + "/" + name) == remote
  {
    var b := remote + "/" + name;
    RemoteOfIsPrefix(b);
    var r := RemoteOf(b);
    assert b[|remote|] == '/';
    if |r| < |remote| {
      assert false;
    } else if |r| > |remote| {
      assert false;
    }
    assert r == b[..|r|] && remote == b[..|remote|];
  }

  /** `get_origin`: the chosen branch and the configured URL of its remote,
      with trailing newlines removed. */
  function GetOrigin(tracking: string, default: string, config: string -> string): (string, string) {
    var branch := ChooseUpstream(tracking, default);
    (branch, RStripChar(config(RemoteUrlKey(RemoteOf(branch))), '\n'))
  }

  /** With no remote URL, `upstream_branch.split('/')[-1]`. */
  function BareBranch(branch: string): string {
    LastPiece(branch, '/')
  }

  /** The fallback keeps what follows the last `/`, and all of a branch
      without one. */
  lemma BareBranchIsSuffix(branch: string)
    ensures var b := BareBranch(branch);
      |b| <= |branch| && b == branch[|branch| - |b|..] && '/' !in b
      && (b == branch || branch[|branch| - |b| - 1] == '/')
  {
    LastPieceIsSuffix(branch, '/');
  }

  /** `URL[len(root):] or "/"`: Python's slice never fails, and does not
      check that the root is a prefix of the URL. */
  function BasePath(url: string, root: string): (p: string)
    ensures p != ""
  {
    if |root| < |url| then url[|root|..] else "/"
  }

  /** Under the root, the base path is the rest of the URL; the root itself
      (or anything no longer) is `/`. */
  lemma BasePathUnderRoot(root: string, rest: string)
    ensures BasePath(root + rest, root) == if rest == "" then "/" else rest
  {
    if rest != "" {
      assert (root + rest)[|root|..] == rest;
    } else {
      assert root + rest == root;
    }
  }

  // ---------------------------------------------------------------------
  // `re.search(r'^Key: (.+)$', data, re.M)` and
  // `re.search(r'^Remote Branch:\s*(.+)$', data, re.M)`

  datatype LinePattern = Field(key: string) | RemoteBranchLine

  const REMOTE_BRANCH := "Remote Branch:"

  /** With `re.M`, `^` matches at the start and right after each newline. */
  predicate LineStart(s: string, p: nat) {
    p == 0 || (0 < p <= |s| && s[p - 1] == '\n')
  }

  /** `.+` followed by `$` from the start of `r`: the rest of the line, when
      it is not empty. */
  function RestOfLine(r: string): (v: Option<string>)
    ensures v.Some? ==> v.value != [] && v.value <= r && '\n' !in v.value
    ensures v.Some? ==> |v.value| == |r| || r[|v.value|] == '\n'
  {
    var e := IndexFrom(r, '\n', 0);
    if e == 0 then None else Some(r[..e])
  }

  /** The end of the run of whitespace at the front of `w` (`\s*` taking
      all it can; `\s` includes the newline). */
  function SpaceEnd(w: string, i: nat): (k: nat)
    requires i <= |w|
    ensures i <= k <= |w| && AllSpace(w[i..k])
    ensures k < |w| ==> !IsSpace(w[k])
    decreases |w| - i
  {
    if i < |w| && IsSpace(w[i]) then
      var k := SpaceEnd(w, i + 1);
      assert w[i..k] == [w[i]] + w[i + 1..k];
      k
    else i
  }

  /** Backtracking `\s*`: the latest start at or before `k` from which `.+`
      can take a character. */
  function GroupStart(w: string, k: nat): (g: Option<nat>)
    requires k <= |w|
    ensures g.Some? ==> g.value <= k && g.value < |w| && w[g.value] != '\n'
    ensures g.Some? ==> forall j :: g.value < j <= k && j < |w| ==> w[j] == '\n'
    ensures g.None? ==> forall j :: 0 <= j <= k && j < |w| ==> w[j] == '\n'
  {
    if k < |w| && w[k] != '\n' then Some(k)
    else if k == 0 then None
    else GroupStart(w, k - 1)
  }

  /** The match of the pattern at the front of `r`, if any. */
  function MatchLine(pat: LinePattern, r: string): Option<string> {
    match pat
    case Field(key) =>
      var head := key + ": ";
      if head <= r then RestOfLine(r[|head|..]) else None
    case RemoteBranchLine =>
      if REMOTE_BRANCH <= r then
        var w := r[|REMOTE_BRANCH|..];
        match GroupStart(w, SpaceEnd(w, 0))
        case Some(g) => RestOfLine(w[g..])
        case None => None
      else None
  }

  /** The match starting at position `p`, if `p` starts a line. */
  function MatchAt(s: string, pat: LinePattern, p: nat): Option<string>
    requires p <= |s|
  {
    if LineStart(s, p) then MatchLine(pat, s[p..]) else None
  }

  /** `re.search`: the leftmost position from `p` on that matches. */
  function Search(s: string, pat: LinePattern, p: nat): Option<string>
    requires p <= |s|
    decreases |s| - p
  {
    match MatchAt(s, pat, p)
    case Some(v) => Some(v)
    case None => if p == |s| then None else Search(s, pat, p + 1)
  }

  /** The search result is the match at some line start, and no line
      start before it matches; nothing is found only when no line matches. */
  lemma {:induction false} SearchLeftmost(s: string, pat: LinePattern, p: nat) returns (q: nat)
    requires p <= |s|
    ensures var r := Search(s, pat, p);
      r.Some? ==> p <= q <= |s| && MatchAt(s, pat, q) == r
    ensures var r := Search(s, pat, p);
      r.Some? ==> forall j :: p <= j < q ==> MatchAt(s, pat, j).None?
    ensures var r := Search(s, pat, p);
      r.None? ==> forall j :: p <= j <= |s| ==> MatchAt(s, pat, j).None?
    decreases |s| - p
  {
    if MatchAt(s, pat, p).Some? {
      q := p;
    } else if p < |s| {
      q := SearchLeftmost(s, pat, p + 1);
    } else {
      q := p;
    }
  }

  /** What a search finds is a non-empty piece of one line. */
  lemma SearchFound(s: string, pat: LinePattern)
    requires Search(s, pat, 0).Some?
    ensures Search(s, pat, 0).value != [] && '\n' !in Search(s, pat, 0).value
  {
    var q := SearchLeftmost(s, pat, 0);
    var r := s[q..];
    match pat
    case Field(key) =>
      assert RestOfLine(r[|key + ": "|..]).Some?;
    case RemoteBranchLine =>
      var w := r[|REMOTE_BRANCH|..];
      var g := GroupStart(w, SpaceEnd(w, 0));
      assert RestOfLine(w[g.value..]).Some?;
  }

  /** A line `Key: value` at the start of the text gives `value`, the whole
      rest of the line. */
  lemma FieldOfFirstLine(key: string, value: string, rest: string)
    requires value != [] && '\n' !in value && (rest == [] || rest[0] == '\n')
    ensures Search(key + ": " + value + rest, Field(key), 0) == Some(value)
  {
    var s := key + ": " + value + rest;
    var head := key + ": ";
    assert s[0..] == s;
    assert head <= s;
    assert s[|head|..] == value + rest;
    LineThenRest(value, rest);
  }

  /** The rest of a line is what comes before its newline. */
  lemma LineThenRest(value: string, rest: string)
    requires value != [] && '\n' !in value && (rest == [] || rest[0] == '\n')
    ensures RestOfLine(value + rest) == Some(value)
  {
    var r := value + rest;
    forall j | 0 <= j < |value| ensures r[j] != '\n' {
      assert r[j] == value[j];
    }
    if rest != [] {
      assert r[|value|] == rest[0];
    }
    assert r[..|value|] == value;
  }

  /** `Remote Branch:` followed by whitespace (newlines included) and a
      branch that starts with no whitespace gives that branch. */
  lemma RemoteBranchAfterSpace(ws: string, branch: string, rest: string)
    requires AllSpace(ws)
    requires branch != [] && !IsSpace(branch[0]) && '\n' !in branch
    requires rest == [] || rest[0] == '\n'
    ensures Search(REMOTE_BRANCH + (ws + (branch + rest)), RemoteBranchLine, 0) == Some(branch)
  {
    var w := ws + (branch + rest);
    var s := REMOTE_BRANCH + w;
    assert s[0..] == s;
    assert s[|REMOTE_BRANCH|..] == w;
    BranchAfterSpace(w, ws, branch, rest);
  }

  lemma BranchAfterSpace(w: string, ws: string, branch: string, rest: string)
    requires w == ws + (branch + rest) && AllSpace(ws)
    requires branch != [] && !IsSpace(branch[0]) && '\n' !in branch
    requires rest == [] || rest[0] == '\n'
    ensures GroupStart(w, SpaceEnd(w, 0)) == Some(|ws|)
    ensures RestOfLine(w[|ws|..]) == Some(branch)
  {
    SpaceRun(ws, branch + rest);
    assert w[|ws|] == branch[0];
    assert w[|ws|..] == branch + rest;
    LineThenRest(branch, rest);
  }

  /** Whitespace followed by a non-space: the run ends at the non-space. */
  lemma {:induction false} SpaceRun(ws: string, t: string)
    requires AllSpace(ws) && t != [] && !IsSpace(t[0])
    ensures SpaceEnd(ws + t, 0) == |ws|
  {
    SpaceRunFrom(ws + t, 0, |ws|);
  }

  lemma {:induction false} SpaceRunFrom(s: string, i: nat, k: nat)
    requires i <= k < |s| && AllSpace(s[..k]) && !IsSpace(s[k])
    ensures SpaceEnd(s, i) == k
    decreases k - i
  {
    if i < k {
      assert s[i] == s[..k][i];
      SpaceRunFrom(s, i + 1, k);
    }
  }

  /** The `git svn info` fields `get_repository_info` needs: the repository
      root, the base path below it, and the UUID; `None` when one is missing. */
  function SvnInfoFields(data: string): Option<(string, string, string)> {
    match Search(data, Field("Repository Root"), 0)
    case None => None
    case Some(root) =>
      match Search(data, Field("URL"), 0)
      case None => None
      case Some(url) =>
        match Search(data, Field("Repository UUID"), 0)
        case None => None
        case Some(uuid) => Some((root, BasePath(url, root), uuid))
  }

  /** Every field found is a whole non-empty line remainder, and the base
      path is the URL below the root, or `/`. */
  lemma SvnInfoFieldsFound(data: string)
    requires SvnInfoFields(data).Some?
    ensures var (root, basePath, uuid) := SvnInfoFields(data).value;
      root != [] && '\n' !in root && uuid != [] && '\n' !in uuid && basePath != []
  {
    SearchFound(data, Field("Repository Root"));
    SearchFound(data, Field("Repository UUID"));
  }
}
