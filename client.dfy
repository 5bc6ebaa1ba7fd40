// `GitClient`: the object post-review drives. `get_repository_info` settles
// what kind of repository this is and which branch is upstream; `diff` and
// `diff_between_revisions` choose the ranges and remember them;
// `update_commits_with_reviewer_info` annotates the commits of that range.
// Every git command is an answer of the environment `Env`.

module Client {
  import opened Wrappers
  import opened PyText
  import SvnDiff
  import GithubUrls
  import Versions
  import Upstream
  import Revisions
  import Annotator

  /** The command-line options the client reads. */
  datatype Options = Options(repositoryUrl: string, parentBranch: string, tracking: string,
                             guessSummary: bool, guessDescription: bool)

  /** What the outside world answers, one field per question the client asks. */
  datatype Env = Env(
    gitInstalled: bool,                       // `git --help` (or `git.cmd --help`) runs
    gitDirOutput: string,                     // git rev-parse --git-dir
    isDir: string -> bool,                    // os.path.isdir
    coreBare: string,                         // git config core.bare
    symbolicRef: string,                      // git symbolic-ref -q HEAD
    svnDirPopulated: string -> bool,          // <git dir>/svn is a directory with entries
    svnInfo: string,                          // git svn info
    svnRebaseDryRun: string,                  // git svn rebase -n
    svnVersion: string,                       // git svn --version
    svnRemoteUrl: string,                     // git config --get svn-remote.svn.url
    config: string -> string,                 // git config --get KEY
    absPath: string -> string,                // os.path.abspath
    mergeBase: (string, string) -> string,    // git merge-base UPSTREAM HEAD
    remoteContains: string -> string,         // git branch -r --contains REV
    findRev: string -> string,                // git svn find-rev REV
    svnStyleDiff: string -> seq<string>,      // git diff --no-prefix -r -u RANGE, as lines
    gitDiff: string -> string,                // git diff --full-index RANGE
    revList: string -> Option<seq<string>>,   // git rev-list --reverse RANGE (None on error)
    notesShow: string -> Option<string>,      // git notes show COMMIT (None on error)
    notesEdit: (string, string) -> bool,      // git notes edit COMMIT with the attribution gave output
    firstChildLine: (string, string) -> string, // git rev-list --reverse --parents ^START HEAD
    subjectOf: string -> string,              // git log --no-merges --pretty=format:%s C ^C^
    messagesIn: string -> string)             // git log --reverse --pretty=format:%s%n%n%b RANGE

  /** `make_svn_diff` can translate the diff of `r`: when the ancestor has
      an svn revision, every `diff ` line git prints for the range has the
      three fields the translation indexes. Without a revision no line is
      read. */
  predicate Translatable(env: Env, r: Revisions.Range) {
    Strip(env.findRev(r.ancestor)) != "" ==> SvnDiff.AllIndexable(env.svnStyleDiff(Revisions.RevRangeArg(r)))
  }

  /** The diffs a plan asks for can be made: only an svn repository reads
      the lines. */
  predicate PlanTranslatable(kind: RepoKind, env: Env, plan: Revisions.Plan) {
    kind == Svn ==> Translatable(env, plan.primary) && (plan.parent.Some? ==> Translatable(env, plan.parent.value))
  }

  /** `self.type`: not yet known, a git-svn checkout, or plain git. */
  datatype RepoKind = Unset | Svn | Git

  /** The repository description handed back to post-review. */
  datatype RepoInfo =
    | SvnRepository(path: string, basePath: string, uuid: string)
    | GitRepository(paths: GithubUrls.Paths)

  /** `None`, the upgrade message of `die`, or a repository. */
  datatype InfoResult = NoRepository | UpgradeRequired | Found(info: RepoInfo)

  // ---------------------------------------------------------------------
  // get_repository_info, as a function of the options and the environment

  /** The git directory, without the newline `rev-parse` ends it with. */
  function GitDir(env: Env): string {
    RStripChar(env.gitDirOutput, '\n')
  }

  /** git runs and names an existing git directory. */
  predicate HasGitDir(env: Env) {
    env.gitInstalled && !("fatal:" <= GitDir(env)) && env.isDir(GitDir(env))
  }

  /** The svn tracking branch: the parent branch option, else the `Remote
      Branch:` of a dry-run rebase, else `master`. */
  function SvnUpstream(parentBranch: string, rebaseOutput: string): string {
    if parentBranch != "" then parentBranch
    else match Upstream.Search(rebaseOutput, Upstream.RemoteBranchLine, 0)
      case Some(branch) => branch
      case None => "master"
  }

  /** The svn branch is never empty and is a single line. */
  lemma SvnUpstreamShape(parentBranch: string, rebaseOutput: string)
    ensures var b := SvnUpstream(parentBranch, rebaseOutput);
      b != "" && (parentBranch != "" ==> b == parentBranch)
      && (parentBranch == "" ==> '\n' !in b)
  {
    if parentBranch == "" && Upstream.Search(rebaseOutput, Upstream.RemoteBranchLine, 0).Some? {
      Upstream.SearchFound(rebaseOutput, Upstream.RemoteBranchLine);
    }
  }

  datatype SvnOutcome = SvnFound(info: RepoInfo, upstream: string) | TooOld | NotSvn

  /** The git-svn detection: only without a repository URL and with a
      populated `svn` directory; a missing `Repository Root` consults the
      version gate, a missing `URL` or UUID falls through to git. */
  function ProbeSvn(opts: Options, env: Env): SvnOutcome {
    if opts.repositoryUrl != "" || !env.svnDirPopulated(GitDir(env)) then NotSvn
    else if Upstream.Search(env.svnInfo, Upstream.Field("Repository Root"), 0).None? then
      if Versions.NeedsUpgrade(env.svnVersion, env.svnRemoteUrl) then TooOld else NotSvn
    else
      match Upstream.SvnInfoFields(env.svnInfo)
      case Some((root, basePath, uuid)) =>
        SvnFound(SvnRepository(root, basePath, uuid), SvnUpstream(opts.parentBranch, env.svnRebaseDryRun))
      case None => NotSvn
  }

  /** `get_origin` for the chosen branch, and again for the default branch
      when the first remote has no URL or git failed. */
  function OriginWithFallback(opts: Options, env: Env, tracked: string): (string, string) {
    var first := Upstream.GetOrigin(opts.tracking, tracked, env.config);
    if first.1 == "" || "fatal:" <= first.1 then Upstream.GetOrigin(opts.tracking, "", env.config) else first
  }

  /** The origin URL without trailing slashes; a repository without one
      (a central bare repository) stands for itself, and the branch keeps
      only its last component. */
  function BareFallback(origin: (string, string), gitDirPath: string): (string, string) {
    var url := RStripChar(origin.1, '/');
    if url == "" then (Upstream.BareBranch(origin.0), gitDirPath) else (origin.0, url)
  }

  /** Either the URL has no trailing slash, or it is the git directory and
      the branch has no `/`. */
  lemma BareFallbackShape(origin: (string, string), gitDirPath: string)
    ensures var (branch, url) := BareFallback(origin, gitDirPath);
      (url == gitDirPath && '/' !in branch && branch == Upstream.BareBranch(origin.0)
       && forall k :: 0 <= k < |origin.1| ==> origin.1[k] == '/')
      || (url != "" && url[|url| - 1] != '/' && url <= origin.1 && branch == origin.0
          && forall k :: |url| <= k < |origin.1| ==> origin.1[k] == '/')
  {
    Upstream.BareBranchIsSuffix(origin.0);
  }

  /** The git branch of `upstream_branch` and the repository URL: the given
      repository URL, else the origin with its fallbacks. */
  function GitRemote(opts: Options, env: Env, headRef: string): (string, string) {
    var tracked := Upstream.TrackingBranch(headRef, env.config);
    if opts.repositoryUrl != "" then (Upstream.GetOrigin(opts.tracking, tracked, env.config).0, opts.repositoryUrl)
    else BareFallback(OriginWithFallback(opts, env, tracked), env.absPath(GitDir(env)))
  }

  /** The attributes `get_repository_info` sets: `kind` and `upstream` are
      `None` where it leaves them as they were. */
  datatype Settled = Settled(bare: bool, headRef: string, kind: Option<RepoKind>, upstream: Option<string>)

  /** The answer and the settled attributes; `state` is `None` when it
      returns before touching any. */
  datatype Probe = Probe(result: InfoResult, state: Option<Settled>)

  function ProbeRepository(opts: Options, env: Env): Probe {
    if !HasGitDir(env) then Probe(NoRepository, None)
    else
      var bare := Strip(env.coreBare) == "true";
      var headRef := Strip(env.symbolicRef);
      match ProbeSvn(opts, env)
      case SvnFound(info, upstream) => Probe(Found(info), Some(Settled(bare, headRef, Some(Svn), Some(upstream))))
      case TooOld => Probe(UpgradeRequired, Some(Settled(bare, headRef, None, None)))
      case NotSvn =>
        var (upstream, url) := GitRemote(opts, env, headRef);
        if url != "" then
          Probe(Found(GitRepository(GithubUrls.GithubPathsAsWritten(url))), Some(Settled(bare, headRef, Some(Git), Some(upstream))))
        else Probe(NoRepository, Some(Settled(bare, headRef, None, Some(upstream))))
  }

  /** Without git or a git directory nothing is found and nothing is set. */
  lemma ProbeWithoutGitDir(opts: Options, env: Env)
    ensures !HasGitDir(env) <==> ProbeRepository(opts, env).state.None?
    ensures !HasGitDir(env) ==> ProbeRepository(opts, env).result == NoRepository
  {
  }

  /** The upgrade message appears exactly when the svn detection runs, finds
      no repository root, and the version gate fires. */
  lemma ProbeUpgrade(opts: Options, env: Env)
    ensures ProbeRepository(opts, env).result == UpgradeRequired <==>
      HasGitDir(env) && opts.repositoryUrl == "" && env.svnDirPopulated(GitDir(env))
      && Upstream.Search(env.svnInfo, Upstream.Field("Repository Root"), 0).None?
      && Versions.NeedsUpgrade(env.svnVersion, env.svnRemoteUrl)
  {
  }

  /** An svn repository is reported exactly when the detection runs and
      `git svn info` has all three fields; then the type is svn, the fields
      are single non-empty lines, and the upstream branch is not empty. */
  lemma ProbeSvnRepository(opts: Options, env: Env)
    ensures var p := ProbeRepository(opts, env);
      (p.result.Found? && p.result.info.SvnRepository?) <==>
      (HasGitDir(env) && opts.repositoryUrl == "" && env.svnDirPopulated(GitDir(env))
       && Upstream.SvnInfoFields(env.svnInfo).Some?)
    ensures var p := ProbeRepository(opts, env);
      p.result.Found? && p.result.info.SvnRepository? ==>
        var (root, basePath, uuid) := Upstream.SvnInfoFields(env.svnInfo).value;
        p.result.info == SvnRepository(root, basePath, uuid)
        && root != "" && '\n' !in root && uuid != "" && '\n' !in uuid && basePath != ""
        && p.state.Some? && p.state.value.kind == Some(Svn)
        && p.state.value.upstream.Some? && p.state.value.upstream.value != ""
        && (opts.parentBranch != "" ==> p.state.value.upstream == Some(opts.parentBranch))
  {
    if HasGitDir(env) && opts.repositoryUrl == "" && env.svnDirPopulated(GitDir(env))
       && Upstream.SvnInfoFields(env.svnInfo).Some? {
      Upstream.SvnInfoFieldsFound(env.svnInfo);
      SvnUpstreamShape(opts.parentBranch, env.svnRebaseDryRun);
    }
  }

  /** A git repository is reported with the type set to git and the paths
      of its URL; a repository URL given on the command line is that URL. */
  lemma ProbeGitRepository(opts: Options, env: Env)
    ensures var p := ProbeRepository(opts, env);
      p.result.Found? && p.result.info.GitRepository? ==>
        var (upstream, url) := GitRemote(opts, env, Strip(env.symbolicRef));
        url != "" && p.result.info.paths == GithubUrls.GithubPathsAsWritten(url)
        && p.state == Some(Settled(Strip(env.coreBare) == "true", Strip(env.symbolicRef), Some(Git), Some(upstream)))
    ensures HasGitDir(env) && opts.repositoryUrl != "" ==>
      ProbeRepository(opts, env).result == Found(GitRepository(GithubUrls.GithubPathsAsWritten(opts.repositoryUrl)))
  {
  }

  /** The remote rules: a given repository URL is used as it is with the
      chosen branch; otherwise the URL has no trailing slash, or it is the
      git directory and the branch has no `/`. */
  lemma GitRemoteShape(opts: Options, env: Env, headRef: string)
    ensures var (branch, url) := GitRemote(opts, env, headRef);
      var chosen := Upstream.ChooseUpstream(opts.tracking, Upstream.TrackingBranch(headRef, env.config));
      (opts.repositoryUrl != "" ==> url == opts.repositoryUrl && branch == chosen)
      && (opts.repositoryUrl == "" ==>
            (url == env.absPath(GitDir(env)) && '/' !in branch)
            || (url != "" && url[|url| - 1] != '/'))
  {
    if opts.repositoryUrl == "" {
      var tracked := Upstream.TrackingBranch(headRef, env.config);
      BareFallbackShape(OriginWithFallback(opts, env, tracked), env.absPath(GitDir(env)));
    }
  }

  /** The `--tracking-branch` option always names the upstream branch, or,
      for a repository without remotes, its last component. */
  lemma TrackingOptionWins(opts: Options, env: Env, headRef: string)
    requires opts.tracking != ""
    ensures var branch := GitRemote(opts, env, headRef).0;
      branch == opts.tracking || branch == Upstream.BareBranch(opts.tracking)
  {
  }

  // ---------------------------------------------------------------------
  // make_diff

  /** What `make_diff` returns for a range, by repository type. */
  function DiffOf(kind: RepoKind, env: Env, r: Revisions.Range): Option<string> {
    match kind
    case Svn => SvnDiff.SvnDiffOf(env.findRev(r.ancestor), env.svnStyleDiff(Revisions.RevRangeArg(r)))
    case Git => Some(env.gitDiff(Revisions.RevRangeArg(r)))
    case Unset => None
  }

  /** A diff of an optional range; no range is no diff. */
  function DiffOfOptional(kind: RepoKind, env: Env, r: Option<Revisions.Range>): Option<string> {
    match r
    case None => None
    case Some(range) => DiffOf(kind, env, range)
  }

  /** In a git-svn checkout, the diff of a range that modifies one file is
      that file's section in svn's dialect (the `Index:` banner, the old path
      at the ancestor's svn revision, the new path in the working copy),
      followed by the hunk lines exactly as git printed them. */
  lemma SvnDiffOfModifiedFile(env: Env, r: Revisions.Range, header: string, index: string,
                              oldPath: string, newPath: string, hunks: seq<string>)
    requires Strip(env.findRev(r.ancestor)) != ""
    requires env.svnStyleDiff(Revisions.RevRangeArg(r)) ==
      [header, index, "--- " + oldPath + "\n", "+++ " + newPath + "\n"] + hunks
    requires "diff " <= header && |SplitOn(header, ' ')| >= 3 && "index " <= index
    requires SvnDiff.Trimmed(oldPath) && oldPath != "/dev/null" && SvnDiff.Trimmed(newPath)
    requires forall i :: 0 <= i < |hunks| ==> SvnDiff.Unmatched(hunks[i])
    ensures var rev := Strip(env.findRev(r.ancestor));
      DiffOf(Svn, env, r) == Some(SvnDiff.Banner(SplitOn(header, ' ')[2]) + SvnDiff.OldHeader(oldPath, rev)
                                  + SvnDiff.WorkingCopyHeader(newPath) + SvnDiff.Concat(hunks))
  {
    var rev := Strip(env.findRev(r.ancestor));
    var section := [header, index, "--- " + oldPath + "\n", "+++ " + newPath + "\n"];
    SvnDiff.TranslateAppend(rev, false, section, hunks);
    SvnDiff.ModifiedFileSection(rev, false, header, index, oldPath, newPath);
    SvnDiff.UnmatchedLinesCopied(rev, false, hunks);
  }

  /** In a git-svn checkout, the diff of a range that adds one file is its
      banner and both headers at revision 0, followed by the hunk lines. */
  lemma SvnDiffOfNewFile(env: Env, r: Revisions.Range, header: string, mode: string, index: string,
                         path: string, hunks: seq<string>)
    requires Strip(env.findRev(r.ancestor)) != ""
    requires env.svnStyleDiff(Revisions.RevRangeArg(r)) ==
      [header, mode, index, "--- /dev/null\n", "+++ " + path + "\n"] + hunks
    requires "diff " <= header && |SplitOn(header, ' ')| >= 3
    requires "new file mode" <= mode && "index " <= index && SvnDiff.Trimmed(path)
    requires forall i :: 0 <= i < |hunks| ==> SvnDiff.Unmatched(hunks[i])
    ensures DiffOf(Svn, env, r) == Some(SvnDiff.Banner(SplitOn(header, ' ')[2]) + SvnDiff.NewFileHeaders(path)
                                        + SvnDiff.Concat(hunks))
  {
    var rev := Strip(env.findRev(r.ancestor));
    var section := [header, mode, index, "--- /dev/null\n", "+++ " + path + "\n"];
    SvnDiff.TranslateAppend(rev, false, section, hunks);
    SvnDiff.NewFileSection(rev, false, header, mode, index, path);
    SvnDiff.UnmatchedLinesCopied(rev, true, hunks);
  }

  // ---------------------------------------------------------------------
  // _set_guesses

  /** A one-line summary: newlines become spaces, then the ends are trimmed. */
  function SummaryOf(log: string): string {
    Strip(ReplaceChar(log, '\n', ' '))
  }

  /** The summary is a single line whose ends are not blank. */
  lemma SummaryOneLine(log: string)
    ensures var r := SummaryOf(log);
      '\n' !in r && (r != [] ==> !IsSpace(r[0]) && !IsSpace(r[|r| - 1]))
  {
    var flat := ReplaceChar(log, '\n', ' ');
    var i := StripIsMiddle(flat);
    var r := Strip(flat);
    forall k | 0 <= k < |r| ensures r[k] != '\n' {
      assert r[k] == flat[i + k];
    }
  }

  /** The guessed summary: kept when already set or not asked for; else the
      subject of the first commit after `start`, the first word of the
      `rev-list --parents` output. */
  function GuessedSummary(guess: bool, current: string, env: Env, start: string, headRef: string): string {
    if guess && current == "" then SummaryOf(env.subjectOf(FirstPiece(env.firstChildLine(start, headRef), ' ')))
    else current
  }

  /** The guessed description: the messages of the range, trimmed. */
  function GuessedDescription(guess: bool, current: string, env: Env, range: (string, string)): string {
    if guess && current == "" then Strip(env.messagesIn(Revisions.RevListArg(range))) else current
  }

  /** A guess only fills an empty field, and guessing again changes nothing. */
  lemma GuessesSettle(guess: bool, current: string, env: Env, range: (string, string), headRef: string)
    ensures current != "" ==> GuessedSummary(guess, current, env, range.0, headRef) == current
    ensures current != "" ==> GuessedDescription(guess, current, env, range) == current
    ensures var s := GuessedSummary(guess, current, env, range.0, headRef);
      GuessedSummary(guess, s, env, range.0, headRef) == s
    ensures var d := GuessedDescription(guess, current, env, range);
      GuessedDescription(guess, d, env, range) == d
  {
  }

  // ---------------------------------------------------------------------
  // The client object

  class GitClient {
    const options: Options
    var kind: RepoKind
    var bare: bool
    var headRef: string
    var upstreamBranch: string
    var mergeBase: string
    var revRangeForDiff: Option<(string, string)>
    var summary: string
    var description: string

    constructor (options: Options, summary: string, description: string)
      ensures this.options == options && kind == Unset && revRangeForDiff == None
      ensures bare == false && headRef == "" && upstreamBranch == "" && mergeBase == ""
      ensures this.summary == summary && this.description == description
    {
      this.options := options;
      kind := Unset;
      bare := false;
      headRef := "";
      upstreamBranch := "";
      mergeBase := "";
      revRangeForDiff := None;
      this.summary := summary;
      this.description := description;
    }

    /** `get_repository_info`, step by step; its answer and the attributes
        it sets are those of `ProbeRepository`. */
    method GetRepositoryInfo(env: Env) returns (result: InfoResult)
      modifies this
      ensures var p := ProbeRepository(options, env);
        result == p.result
        && (p.state.None? ==>
              bare == old(bare) && headRef == old(headRef)
              && kind == old(kind) && upstreamBranch == old(upstreamBranch))
        && (p.state.Some? ==>
              bare == p.state.value.bare && headRef == p.state.value.headRef
              && kind == (if p.state.value.kind.Some? then p.state.value.kind.value else old(kind))
              && upstreamBranch == (if p.state.value.upstream.Some? then p.state.value.upstream.value
                                    else old(upstreamBranch)))
      ensures mergeBase == old(mergeBase) && revRangeForDiff == old(revRangeForDiff)
      ensures summary == old(summary) && description == old(description)
    {
      if !env.gitInstalled {
        return NoRepository;
      }
      var gitDir := RStripChar(env.gitDirOutput, '\n');
      if "fatal:" <= gitDir || !env.isDir(gitDir) {
        return NoRepository;
      }
      bare := Strip(env.coreBare) == "true";
      headRef := Strip(env.symbolicRef);

      assert HasGitDir(env) && gitDir == GitDir(env);
      var svn := DetectSvn(env);
      match svn
      case SvnFound(info, upstream) =>
        kind := Svn;
        upstreamBranch := upstream;
        return Found(info);
      case TooOld =>
        return UpgradeRequired;
      case NotSvn =>
        var url := SettleGitRemote(env, gitDir);
        assert (upstreamBranch, url) == GitRemote(options, env, headRef);
        if url != "" {
          kind := Git;
          return Found(GitRepository(GithubUrls.GithubPathsAsWritten(url)));
        }
        return NoRepository;
    }

    /** The git-svn part of `get_repository_info`: the `svn info` searches,
        the svn tracking branch and the version gate. */
    method DetectSvn(env: Env) returns (outcome: SvnOutcome)
      ensures outcome == ProbeSvn(options, env)
    {
      outcome := NotSvn;
      if options.repositoryUrl == "" && env.svnDirPopulated(GitDir(env)) {
        var data := env.svnInfo;
        var root := Upstream.Search(data, Upstream.Field("Repository Root"), 0);
        if root.Some? {
          var url := Upstream.Search(data, Upstream.Field("URL"), 0);
          if url.Some? {
            var basePath := Upstream.BasePath(url.value, root.value);
            var uuid := Upstream.Search(data, Upstream.Field("Repository UUID"), 0);
            if uuid.Some? {
              var upstream: string;
              if options.parentBranch != "" {
                upstream := options.parentBranch;
              } else {
                var m := Upstream.Search(env.svnRebaseDryRun, Upstream.RemoteBranchLine, 0);
                if m.Some? {
                  upstream := m.value;
                } else {
                  upstream := "master";
                }
              }
              outcome := SvnFound(SvnRepository(root.value, basePath, uuid.value), upstream);
            }
          }
        } else if Versions.NeedsUpgrade(env.svnVersion, env.svnRemoteUrl) {
          outcome := TooOld;
        }
      }
    }

    /** The git part of `get_repository_info`: the tracking branch of the
        head, then the origin URL with its fallbacks. */
    method SettleGitRemote(env: Env, gitDir: string) returns (url: string)
      requires gitDir == GitDir(env)
      modifies this
      ensures (upstreamBranch, url) == GitRemote(options, env, headRef)
      ensures kind == old(kind) && bare == old(bare) && headRef == old(headRef)
      ensures mergeBase == old(mergeBase) && revRangeForDiff == old(revRangeForDiff)
      ensures summary == old(summary) && description == old(description)
    {
      upstreamBranch := "";
      if headRef != "" {
        var shortHead := Upstream.StripHeadsPrefix(headRef);
        var merge := Strip(env.config(Upstream.MergeKey(shortHead)));
        var remote := Strip(env.config(Upstream.RemoteKey(shortHead)));
        merge := Upstream.StripHeadsPrefix(merge);
        if remote != "" && remote != "." && merge != "" {
          upstreamBranch := remote + "/" + merge;
        }
      }
      assert upstreamBranch == Upstream.TrackingBranch(headRef, env.config);

      if options.repositoryUrl != "" {
        url := options.repositoryUrl;
        upstreamBranch := Upstream.GetOrigin(options.tracking, upstreamBranch, env.config).0;
      } else {
        var origin := Upstream.GetOrigin(options.tracking, upstreamBranch, env.config);
        if origin.1 == "" || "fatal:" <= origin.1 {
          origin := Upstream.GetOrigin(options.tracking, "", env.config);
        }
        assert origin == OriginWithFallback(options, env, Upstream.TrackingBranch(headRef, env.config));
        upstreamBranch := origin.0;
        url := RStripChar(origin.1, '/');
        if url == "" {
          url := env.absPath(gitDir);
          upstreamBranch := Upstream.BareBranch(upstreamBranch);
        }
      }
    }

    /** `make_diff(ancestor, commit)`. */
    method MakeDiff(env: Env, ancestor: string, commit: string) returns (r: Option<string>)
      requires kind == Svn ==> Translatable(env, Revisions.Range(ancestor, commit))
      ensures r == DiffOf(kind, env, Revisions.Range(ancestor, commit))
    {
      var revRange := if commit != "" then ancestor + ".." + commit else ancestor;
      if kind == Svn {
        var diffLines := env.svnStyleDiff(revRange);
        r := SvnDiff.MakeSvnDiff(env.findRev(ancestor), diffLines);
      } else if kind == Git {
        r := Some(env.gitDiff(revRange));
      } else {
        r := None;
      }
    }

    /** `_set_guesses(rev_range)`: fills the summary and the description
        when asked to and when they are still empty. */
    method SetGuesses(env: Env, range: (string, string))
      modifies this
      ensures summary == GuessedSummary(options.guessSummary, old(summary), env, range.0, headRef)
      ensures description == GuessedDescription(options.guessDescription, old(description), env, range)
      ensures kind == old(kind) && bare == old(bare) && headRef == old(headRef)
      ensures upstreamBranch == old(upstreamBranch) && mergeBase == old(mergeBase)
      ensures revRangeForDiff == old(revRangeForDiff)
    {
      if options.guessSummary && summary == "" {
        var firstCommit := FirstPiece(env.firstChildLine(range.0, headRef), ' ');
        var log := env.subjectOf(firstCommit);
        summary := SummaryOf(log);
      }
      if options.guessDescription && description == "" {
        description := Strip(env.messagesIn(range.0 + ".." + range.1));
      }
    }

    /** `diff`: the ranges are those of `PlanDiff` for the merge base of the
        upstream branch and the head, and the diffs are `make_diff`'s. */
    method Diff(env: Env) returns (diff: Option<string>, parentDiff: Option<string>)
      requires PlanTranslatable(kind, env, Revisions.PlanDiff(options.parentBranch,
        Strip(env.mergeBase(upstreamBranch, Revisions.HeadOrDefault(headRef))), Revisions.HeadOrDefault(headRef)))
      modifies this
      ensures mergeBase == Strip(env.mergeBase(upstreamBranch, Revisions.HeadOrDefault(headRef)))
      ensures var plan := Revisions.PlanDiff(options.parentBranch, mergeBase, Revisions.HeadOrDefault(headRef));
        diff == DiffOf(kind, env, plan.primary)
        && parentDiff == DiffOfOptional(kind, env, plan.parent)
        && revRangeForDiff == Some(plan.revRange)
        && summary == GuessedSummary(options.guessSummary, old(summary), env, plan.revRange.0, headRef)
        && description == GuessedDescription(options.guessDescription, old(description), env, plan.revRange)
      ensures kind == old(kind) && bare == old(bare) && headRef == old(headRef)
      ensures upstreamBranch == old(upstreamBranch)
    {
      var parentBranch := options.parentBranch;
      var head := "HEAD";
      if headRef != "" {
        head := headRef;
      }
      mergeBase := Strip(env.mergeBase(upstreamBranch, head));
      if parentBranch != "" {
        diff := MakeDiff(env, parentBranch, "");
        parentDiff := MakeDiff(env, mergeBase, parentBranch);
      } else {
        diff := MakeDiff(env, mergeBase, head);
        parentDiff := None;
      }
      revRangeForDiff := Some((if parentBranch != "" then parentBranch else mergeBase, "HEAD"));
      SetGuesses(env, revRangeForDiff.value);
    }

    /** `diff_between_revisions(revision_range)`: the ranges are those of
        `PlanBetween`, the parent diff depending on whether a remote branch
        contains the first revision. */
    method DiffBetweenRevisions(env: Env, revisionRange: string) returns (diff: Option<string>, parentDiff: Option<string>)
      requires Revisions.WellFormedRange(revisionRange)
      requires PlanTranslatable(kind, env, Revisions.PlanBetween(revisionRange,
        Strip(env.mergeBase(upstreamBranch, Revisions.HeadOrDefault(headRef))),
        env.remoteContains(Revisions.FirstRevision(revisionRange))))
      modifies this
      ensures mergeBase == Strip(env.mergeBase(upstreamBranch, Revisions.HeadOrDefault(headRef)))
      ensures var plan := Revisions.PlanBetween(revisionRange, mergeBase,
                                                 env.remoteContains(Revisions.FirstRevision(revisionRange)));
        diff == DiffOf(kind, env, plan.primary)
        && parentDiff == DiffOfOptional(kind, env, plan.parent)
        && revRangeForDiff == Some(plan.revRange)
        && summary == GuessedSummary(options.guessSummary, old(summary), env, plan.revRange.0, headRef)
        && description == GuessedDescription(options.guessDescription, old(description), env, plan.revRange)
      ensures kind == old(kind) && bare == old(bare) && headRef == old(headRef)
      ensures upstreamBranch == old(upstreamBranch)
    {
      var head := "HEAD";
      if headRef != "" {
        head := headRef;
      }
      mergeBase := Strip(env.mergeBase(upstreamBranch, head));
      ghost var plan := Revisions.PlanBetween(revisionRange, mergeBase,
                                              env.remoteContains(Revisions.FirstRevision(revisionRange)));
      if ':' !in revisionRange {
        SplitOnFree(revisionRange, ':');
        var pdiffRequired := env.remoteContains(revisionRange);
        assert plan.primary == Revisions.Range(revisionRange, "");
        assert plan.parent == if pdiffRequired == "" then Some(Revisions.Range(mergeBase, revisionRange)) else None;
        parentDiff := None;
        if pdiffRequired == "" {
          parentDiff := MakeDiff(env, mergeBase, revisionRange);
        }
        revRangeForDiff := Some((revisionRange, "HEAD"));
        SetGuesses(env, revRangeForDiff.value);
        diff := MakeDiff(env, revisionRange, "");
      } else {
        var parts := SplitOn(revisionRange, ':');
        var r1, r2 := parts[0], parts[1];
        var pdiffRequired := env.remoteContains(r1);
        assert plan.primary == Revisions.Range(r1, r2);
        assert plan.parent == if pdiffRequired == "" then Some(Revisions.Range(mergeBase, r1)) else None;
        parentDiff := None;
        if pdiffRequired == "" {
          parentDiff := MakeDiff(env, mergeBase, r1);
        }
        revRangeForDiff := Some((r1, r2));
        SetGuesses(env, revRangeForDiff.value);
        diff := MakeDiff(env, r1, r2);
      }
    }

    /** `update_commits_with_reviewer_info`: nothing without a remembered
        range, otherwise the count of `UpdateCount`. */
    method UpdateCommitsWithReviewerInfo(env: Env, targetPeople: string, targetGroups: string, reviewUrl: string)
      returns (n: nat)
      ensures revRangeForDiff.None? ==> n == 0
      ensures revRangeForDiff.Some? ==>
        n == Annotator.UpdateCount(env.revList(Revisions.RevListArg(revRangeForDiff.value)),
                                   env.notesShow, env.notesEdit, targetPeople, targetGroups, reviewUrl)
    {
      n := 0;
      if revRangeForDiff.None? {
        return 0;
      }
      var listed := env.revList(revRangeForDiff.value.0 + ".." + revRangeForDiff.value.1);
      if listed.None? || listed.value == [] {
        return 0;
      }
      var commits := Annotator.StripAll(listed.value);
      var reviewedBy := Annotator.BuildAttribution(targetPeople, targetGroups, reviewUrl);
      var prior := Annotator.FindPrior(env.notesShow(commits[0]), reviewUrl);
      if prior.Some? {
        reviewedBy := prior.value;
        commits := commits[1..];
        n := n + 1;
      }
      var edited := Annotator.CountEdits(commits, reviewedBy, env.notesEdit);
      n := n + edited;
    }
  }
}
