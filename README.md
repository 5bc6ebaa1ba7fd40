# GitClient of rbtools, modelled in Dafny

This project models the git client of rbtools (`rbtools/clients/git.py`). `post-review` uses it to:
- find out whether a checkout is plain git or git-svn;
- pick the upstream branch;
- produce a diff in the dialect Review Board expects;
- write a `Reviewed-By:` attribution into the git notes of the reviewed commits.

Every git command, filesystem probe and process exit is an answer of one value, `Client.Env`. The client's decisions are functions of those answers, and the properties are proved about those functions.

The modules follow the parts of the client:

- `Wrappers` and `PyText` (`text.dfy`): `Option`, and the Python 2 string operations the client relies on.
  - `strip()` with Python's ASCII whitespace.
  - `rstrip(c)`.
  - `split(c)`, keeping empty pieces.
  - `splitlines()`, breaking at `\n`, `\r` and `\r\n`.
  - `in` on strings.
  - `replace` of one character.
- `SvnDiff` (`svn_diff.dfy`): `make_svn_diff`, the line-by-line translation of `git diff` output into `svn diff` headers.
  - It is a left fold of a two-part state: the output so far and the `newfile` flag.
  - The method runs the source's loop and is proved equal to the fold.
- `GithubUrls` (`github_urls.dfy`): `_github_paths`.
  - The anchored regular expression is written out as a scan that follows the regex engine's backtracking order.
  - It covers the lazy `repos` group, the optional `(.git)?`, and `$` matching before a final newline.
  - It is given twice: once with the dots as written (any character but a newline) and once with the literal dots evidently intended.
- `Versions` (`versions.dfy`): `is_valid_version`, the `re.search` for `version X.Y.Z`, and the git-svn upgrade gate against 1.5.4.
- `Upstream` (`upstream.dfy`): the rules that settle the upstream branch.
  - `_strip_heads_prefix`, the tracking branch, `get_origin`'s default chain, and the bare-repository fallback.
  - The base path below the svn root.
  - The `re.M` line searches over `git svn info` and `git svn rebase -n`.
- `Revisions` (`revisions.dfy`): which ranges `diff` and `diff_between_revisions` hand to `make_diff`, whether a parent diff is made, and what `rev_range_for_diff` becomes.
- `Annotator` (`annotator.dfy`): the attribution text, the reuse of an attribution already in the first commit's notes, and the count of successful updates.
- `Client` (`client.dfy`): the object itself.
  - `GitClient` has the fields the source assigns: `type` (`kind`), `bare`, `head_ref`, `upstream_branch`, `merge_base`, `rev_range_for_diff`, and the summary and description options filled by `_set_guesses`.
  - Its methods follow the source's statements. Each is proved to settle the state its specification function describes.

## Model

| member | source | states |
|---|---|---|
| PyText.Strip | rbtools/clients/git.py:391 | the result is no longer than the input and neither begins nor ends with whitespace |
| PyText.StripIsMiddle | rbtools/clients/git.py:413 | the stripped text is a slice of the input framed by whitespace on both sides |
| PyText.StripExact | rbtools/clients/git.py:419 | stripping whitespace around a text with non-blank ends gives back that text |
| PyText.RStripChar | rbtools/clients/git.py:147-148 | `rstrip(c)` keeps a prefix, removes only `c`s, and leaves no trailing `c` |
| PyText.SplitOnSound | rbtools/clients/git.py:406 | the pieces of `split(c)` hold no `c` and joined with `c` give the input back |
| PyText.SplitOnJoin | rbtools/clients/git.py:472 | splitting the join of separator-free pieces gives those pieces |
| PyText.SplitOnFree | rbtools/clients/git.py:454 | a text without the separator splits into itself alone |
| PyText.FirstPieceIsPrefix | rbtools/clients/git.py:296 | `split(c)[0]` is the prefix up to the first `c` |
| PyText.LastPieceIsSuffix | rbtools/clients/git.py:278 | `split(c)[-1]` is the suffix after the last `c` |
| PyText.ContainsMiddle | rbtools/clients/git.py:91 | a text occurs in any text that has it in the middle |
| PyText.SplitLinesJoin | rbtools/clients/git.py:90 | `splitlines()` of newline-terminated lines without line breaks gives those lines |
| SvnDiff.MakeSvnDiff | rbtools/clients/git.py:385-439 | `None` exactly when `find-rev` prints only whitespace, whatever the lines; otherwise the loop's output equals the fold `Translate` of the lines from `newfile = False` |
| SvnDiff.AppendLine | rbtools/clients/git.py:400-437 | one pass of the loop appends what `Step` emits for the line and sets the flag `Step` gives |
| SvnDiff.Repeat | rbtools/clients/git.py:408 | `"=" * 67` is 67 `=` characters |
| SvnDiff.TranslateAppend | rbtools/clients/git.py:400-439 | translating `xs + ys` is translating `xs` and then `ys` from the flag left by `xs`: output order follows input order |
| SvnDiff.FoldAppend | rbtools/clients/git.py:400 | a left fold over a concatenation is the fold of the second part from the state left by the first |
| SvnDiff.LineInContext | rbtools/clients/git.py:400-439 | a line in context contributes exactly its own `Step` output, between the outputs before and after it |
| SvnDiff.DiffHeaderEmitsBanner | rbtools/clients/git.py:401-409 | a `diff ` line emits `Index: ` and its third field, then 67 `=` and a newline, and leaves the flag as it was |
| SvnDiff.MetadataDropped | rbtools/clients/git.py:410-412 | removing an `index ` or `new file mode` line from any input leaves the translation unchanged |
| SvnDiff.SilentStep | rbtools/clients/git.py:428-430 | `index ` and `new file mode` lines emit nothing and keep the flag |
| SvnDiff.DevNullMarksNewFile | rbtools/clients/git.py:413-415 | a line that strips to `--- /dev/null` emits nothing and sets `newfile` for what follows |
| SvnDiff.OldPathStampedWithRevision | rbtools/clients/git.py:416-419 | any other `--- p` emits `--- p\t(revision N)` with `p = line[4:].strip()` and clears `newfile` |
| SvnDiff.NewPathHeaders | rbtools/clients/git.py:420-427 | `+++ f` emits both revision-0 headers after `/dev/null`, and only the working-copy header otherwise |
| SvnDiff.BinaryMarkerReplaced | rbtools/clients/git.py:431-435 | a `Binary files ` line becomes exactly the two fixed notice lines |
| SvnDiff.UnmatchedCopied | rbtools/clients/git.py:436-437 | a line no rule claims is copied verbatim |
| SvnDiff.UnmatchedLinesCopied | rbtools/clients/git.py:436-437 | input made only of unmatched lines is reproduced exactly, flag kept |
| SvnDiff.NewFileSection | rbtools/clients/git.py:401-427 | a complete new-file header block becomes the banner and the two revision-0 headers, leaving `newfile` set |
| SvnDiff.ModifiedFileSection | rbtools/clients/git.py:401-427 | a complete modified-file header block becomes the banner, `--- p (revision N)` and `+++ f (working copy)` |
| SvnDiff.NewFileTail | rbtools/clients/git.py:413-424 | `/dev/null` followed by `+++ f` emits the two revision-0 headers of `f` |
| SvnDiff.ModifiedFileTail | rbtools/clients/git.py:416-427 | `--- p` followed by `+++ f` emits the revision header of `p` and the working-copy header of `f` |
| SvnDiff.IndexLineKind | rbtools/clients/git.py:410 | the `elif` chain puts an `index ` line in the metadata branch |
| SvnDiff.NewFileModeKind | rbtools/clients/git.py:428 | a `new file mode` line reaches the metadata branch |
| SvnDiff.NewPathKind | rbtools/clients/git.py:420 | a `+++ ` line reaches the new-path branch |
| SvnDiff.BinaryMarkerKind | rbtools/clients/git.py:431 | a `Binary files ` line reaches the binary branch |
| SvnDiff.OldPathKind | rbtools/clients/git.py:416 | a `--- ` line that is not `/dev/null` reaches the old-path branch |
| SvnDiff.DevNullLine | rbtools/clients/git.py:413 | the line `--- /dev/null` with its newline strips to the compared text |
| SvnDiff.PathOfHeader | rbtools/clients/git.py:419-421 | `line[4:].strip()` of a header line recovers its path |
| GithubUrls.GithubPathsWith | rbtools/clients/git.py:113-134 | the result is the URL unchanged, or the eight expansions of one `repos` part |
| GithubUrls.ExpansionsShape | rbtools/clients/git.py:126-133 | there are eight URLs: each canonical prefix with `repos`, then the same with `.git`, in the source's order |
| GithubUrls.UnrecognisedUnchanged | rbtools/clients/git.py:115-124 | a URL that no alternative of the prefix group can start is returned unchanged: not `git://github.com/` or `git@github.com:` at the front, and no `github.com/` anywhere after an `http(s)://` scheme |
| GithubUrls.NoSchemeUnchanged | rbtools/clients/git.py:122-124 | a URL with none of the four schemes is returned unchanged |
| GithubUrls.OtherHostUnchanged | rbtools/clients/git.py:115-124 | `https://gitlab.com/x`, a known scheme on another host, is returned unchanged, read as written or escaped |
| GithubUrls.UserStarts | rbtools/clients/git.py:116-117 | after `http(s)://u@`, the first place the prefix group can end is right after the `github.com/` that follows the user |
| GithubUrls.UserPartStripped | rbtools/clients/git.py:116-133 | `http(s)://u@github.com/` and a plain name (with or without `.git`) expands to the eight spellings of the name, the user part dropped |
| GithubUrls.CanonicalRoundTrip | rbtools/clients/git.py:113-134 | each of the eight spellings of a plain name expands back to the same eight spellings |
| GithubUrls.TailOfName | rbtools/clients/git.py:121 | after the prefix, `repos` is the whole name, with a trailing `.git` removed |
| GithubUrls.CanonicalStarts | rbtools/clients/git.py:115-120 | on a canonical spelling, the prefix group can end only right after the canonical prefix |
| GithubUrls.StartsHttp | rbtools/clients/git.py:116 | the `http://` branch matches `http://github.com/` without a user part |
| GithubUrls.StartsHttps | rbtools/clients/git.py:117 | the `https://` branch matches `https://github.com/` without a user part |
| GithubUrls.StartsGit | rbtools/clients/git.py:118 | only the `git://` alternative matches a `git://github.com/` URL |
| GithubUrls.StartsSsh | rbtools/clients/git.py:119 | only the `git@` alternative matches a `git@github.com:` URL |
| GithubUrls.FirstMatch | rbtools/clients/git.py:122 | the candidate chosen lets the rest of the pattern match and every candidate before it, in the engine's order, fails; none means every candidate fails |
| GithubUrls.AsWrittenDropsGitEnding | rbtools/clients/git.py:121 | with the dot unescaped, a name ending in some character and `git` loses those four characters; with it escaped it is kept |
| GithubUrls.LegitMangled | rbtools/clients/git.py:121 | `git@github.com:user/legit` gives the repos `user/l` as written and `user/legit` as intended |
| GithubUrls.LookalikeHostAccepted | rbtools/clients/git.py:118 | as written, `git://githubXcom/foo` counts as a GitHub URL |
| GithubUrls.LookalikeHostRejected | rbtools/clients/git.py:118 | with the dots escaped, the look-alike host is returned unchanged |
| GithubUrls.StrictStartsLiteral | rbtools/clients/git.py:115-120 | with the dots escaped, every place the prefix group can end follows a literal GitHub host |
| GithubUrls.StrictHostLiteral | rbtools/clients/git.py:115-134 | with the dots escaped, a URL is expanded only when it names `github.com` literally, and the name expanded is what follows that host |
| Versions.IsValidVersionIsLexGe | rbtools/clients/git.py:302-312 | `is_valid_version(a, e)` holds exactly when `(a0, a1, a2) >= (e0, e1, e2)` lexicographically |
| Versions.IsValidVersionReflexive | rbtools/clients/git.py:309-312 | every version is valid against itself |
| Versions.IsValidVersionTotal | rbtools/clients/git.py:309-312 | for any two versions, one is valid against the other |
| Versions.IsValidVersionTransitive | rbtools/clients/git.py:309-312 | validity is transitive |
| Versions.IsValidVersionAntisymmetric | rbtools/clients/git.py:309-312 | two versions valid against each other are equal |
| Versions.LexGeTotal | rbtools/clients/git.py:309-312 | lexicographic `>=` on equal-length integer sequences is total |
| Versions.LexGeTransitive | rbtools/clients/git.py:309-312 | lexicographic `>=` is transitive |
| Versions.LexGeAntisymmetric | rbtools/clients/git.py:309-312 | lexicographic `>=` in both directions means equality |
| Versions.LexGeReflexive | rbtools/clients/git.py:309-312 | lexicographic `>=` is reflexive |
| Versions.Run | rbtools/clients/git.py:224 | a `\d+` run splits the text into all its leading digits and a rest that does not start with a digit |
| Versions.RunOf | rbtools/clients/git.py:224 | digits followed by a non-digit split at exactly that point |
| Versions.Decimal | rbtools/clients/git.py:235-236 | a number's decimal spelling is a non-empty run of digits |
| Versions.ValueOfDecimal | rbtools/clients/git.py:235-236 | `int()` of a number's decimal spelling is that number |
| Versions.FindVersionLeftmost | rbtools/clients/git.py:224-225 | `re.search` finds a match, no match starts earlier, and nothing is found only when no position matches |
| Versions.ParseShown | rbtools/clients/git.py:222-236 | the version printed as `version X.Y.Z`, followed by anything but a digit, is read back as `(X, Y, Z)` |
| Versions.VersionPrefixOf | rbtools/clients/git.py:224 | `version d1.d2.d3` at the front matches with the values of the three digit runs |
| Versions.UpgradeGate | rbtools/clients/git.py:230-237 | the upgrade failure fires exactly when a version is found, is below 1.5.4 in lexicographic order, and an svn remote is configured |
| Versions.NumericComponents | rbtools/clients/git.py:230-237 | 1.10.0 passes the gate, and 1.5.3 fails it whenever an svn remote is set: components compare as numbers |
| Upstream.StripHeadsPrefix | rbtools/clients/git.py:26-28 | exactly one leading `refs/heads/` is removed, and a ref without it is returned unchanged |
| Upstream.StripHeadsPrefixInverse | rbtools/clients/git.py:26-28 | adding the prefix and stripping it gives back any branch name |
| Upstream.RemoteOfIsPrefix | rbtools/clients/git.py:296 | the remote name is the branch up to its first `/` |
| Upstream.RemoteOfTracking | rbtools/clients/git.py:257 | a composed `remote/merge` branch names its remote again, when the remote has no `/` |
| Upstream.BareBranchIsSuffix | rbtools/clients/git.py:278 | the fallback keeps what follows the last `/` |
| Upstream.BasePath | rbtools/clients/git.py:189 | the base path is never empty |
| Upstream.BasePathUnderRoot | rbtools/clients/git.py:189 | a URL below the root gives the rest of the URL, and the root itself gives `/` |
| Upstream.SearchLeftmost | rbtools/clients/git.py:182-207 | the multi-line search finds the match at the first line start where one exists, and finds nothing only when no line matches |
| Upstream.SearchFound | rbtools/clients/git.py:182-207 | a found group is a non-empty part of one line |
| Upstream.FieldOfFirstLine | rbtools/clients/git.py:182-193 | `Key: value` on the first line gives `value` |
| Upstream.LineThenRest | rbtools/clients/git.py:182 | `(.+)$` on a non-empty, newline-free value followed by a newline or the end takes exactly that value |
| Upstream.RemoteBranchAfterSpace | rbtools/clients/git.py:202-206 | `Remote Branch:` followed by whitespace and a branch name gives that name |
| Upstream.RestOfLine | rbtools/clients/git.py:182 | `(.+)$` takes the whole non-empty rest of the line |
| Upstream.SpaceEnd | rbtools/clients/git.py:202 | the greedy `\s*` covers only whitespace |
| Upstream.GroupStart | rbtools/clients/git.py:202 | backtracking `\s*` gives the group a start that is not a newline |
| Upstream.SvnInfoFieldsFound | rbtools/clients/git.py:182-193 | the root and UUID are non-empty single lines, and the base path is not empty |
| Revisions.RevRangeArgParts | rbtools/clients/git.py:368-371 | `a..c` with a commit, `a` alone without; the rev-list spelling agrees with it exactly when the commit is not empty |
| Revisions.PlanDiffChain | rbtools/clients/git.py:343-359 | with a parent branch, the main diff is the working tree against the parent and the parent diff runs from the merge base to the parent; without one, the main diff runs from the merge base to the head; the range remembered runs from the start to `HEAD` |
| Revisions.PlanBetweenGate | rbtools/clients/git.py:454-485 | a parent diff is made exactly when the contains output is empty, it runs from the merge base to the first revision, and the main diff and remembered range start there |
| Revisions.PlanBetweenSingle | rbtools/clients/git.py:454-470 | one revision `R` that no remote branch contains plans exactly what `diff` plans with parent branch `R`; once a remote has it, the same without the parent diff |
| Revisions.PlanBetweenPair | rbtools/clients/git.py:471-485 | `R1:R2` gives the diff from `R1` to `R2`, remembered as such |
| Annotator.BuildAttribution | rbtools/clients/git.py:69-76 | the `+=` construction yields the attribution written out case by case |
| Annotator.AttributionShape | rbtools/clients/git.py:69-76 | the attribution starts with `Reviewed-By: `, ends with ` <url>` after a space, and is itself recognized as an attribution of that review |
| Annotator.Framed | rbtools/clients/git.py:76 | a head followed by ` <url>` ends with exactly that, and is recognized when the head starts with the marker |
| Annotator.FramedBare | rbtools/clients/git.py:69-76 | with neither reviewers nor groups, the marker's own space stands before `<url>` |
| Annotator.AttributionJoin | rbtools/clients/git.py:72-73 | reviewers and groups are joined by ` and groups:` exactly when both are given |
| Annotator.FirstRecognized | rbtools/clients/git.py:90-94 | the line chosen is recognized and no line before it is; none means no line is recognized |
| Annotator.FindPrior | rbtools/clients/git.py:86-97 | the loop over the notes' lines returns the first attribution of this review, and none for missing or empty notes |
| Annotator.RerunFindsAttribution | rbtools/clients/git.py:86-110 | notes rewritten with the attribution at the end are recognized on the next run |
| Annotator.FirstRecognizedAfter | rbtools/clients/git.py:90-92 | after lines that are not attributions, the appended attribution is the first one found |
| Annotator.CountEdits | rbtools/clients/git.py:104-110 | the loop counts exactly the commits whose edit gave output |
| Annotator.SuccessesBound | rbtools/clients/git.py:104-110 | at most one success per commit, and every commit counts exactly when every edit succeeds |
| Annotator.SuccessesAppend | rbtools/clients/git.py:104-110 | one more commit adds one exactly when its edit succeeds |
| Annotator.UpdateCountBounds | rbtools/clients/git.py:56-111 | no range or no commits gives 0, and the count never exceeds the number of commits |
| Annotator.UpdateCountAllSucceed | rbtools/clients/git.py:86-111 | when every edit succeeds, every commit is counted, whether or not the first is skipped |
| Client.SvnUpstreamShape | rbtools/clients/git.py:197-211 | the svn upstream branch is never empty: the parent branch option, or a one-line remote branch, or `master` |
| Client.ProbeWithoutGitDir | rbtools/clients/git.py:136-151 | without git or a git directory, nothing is returned and no attribute is set |
| Client.ProbeUpgrade | rbtools/clients/git.py:178-237 | the upgrade failure happens exactly when svn detection runs, finds no repository root, and the version gate fires |
| Client.ProbeSvnRepository | rbtools/clients/git.py:178-216 | an svn repository is reported exactly when detection runs and all three fields are found; then the type is svn, the fields are single lines and the upstream is not empty |
| Client.ProbeGitRepository | rbtools/clients/git.py:259-286 | a git repository carries `_github_paths` of its URL, read as written, and sets the type to git; a repository URL option is used as given |
| Client.GitRemoteShape | rbtools/clients/git.py:259-278 | a given repository URL goes with the chosen branch; otherwise the URL has no trailing `/`, or it is the git directory and the branch has lost its remote part |
| Client.BareFallbackShape | rbtools/clients/git.py:270-278 | only trailing slashes are removed from the origin URL; without one the git directory stands in and the branch keeps its last component |
| Client.TrackingOptionWins | rbtools/clients/git.py:293-295 | the tracking-branch option names the upstream branch, or its last component for a repository without remotes |
| Client.SvnDiffOfModifiedFile | rbtools/clients/git.py:373-378 | in a git-svn checkout, git's diff of one modified file becomes its svn banner, `--- p (revision N)` and `+++ f (working copy)`, followed by its hunks unchanged |
| Client.SvnDiffOfNewFile | rbtools/clients/git.py:373-378 | in a git-svn checkout, git's diff of one added file becomes its svn banner and both revision-0 headers, followed by its hunks unchanged |
| Client.SummaryOneLine | rbtools/clients/git.py:45 | the guessed summary is one line with non-blank ends |
| Client.GuessesSettle | rbtools/clients/git.py:33-52 | a guess only fills an empty field, and a second guess changes nothing |
| Client.GitClient.constructor | rbtools/clients/git.py:17-24 | a new client has no type and no remembered range |
| Client.GitClient.GetRepositoryInfo | rbtools/clients/git.py:136-286 | the answer and the attributes set are those of `ProbeRepository`; attributes it does not reach keep their values |
| Client.GitClient.DetectSvn | rbtools/clients/git.py:178-237 | the svn searches and the version gate give `ProbeSvn` |
| Client.GitClient.SettleGitRemote | rbtools/clients/git.py:243-278 | the tracking branch and origin steps leave `upstream_branch` and the URL `GitRemote` gives |
| Client.GitClient.MakeDiff | rbtools/clients/git.py:364-383 | the diff of `DiffOf` for the type and the range; the lines are only read for svn with a revision |
| Client.GitClient.SetGuesses | rbtools/clients/git.py:30-52 | the summary and description become their guessed values, and nothing else changes |
| Client.GitClient.Diff | rbtools/clients/git.py:338-362 | the merge base of upstream and head, the two diffs of `PlanDiff`, its remembered range, and the guesses for that range |
| Client.GitClient.DiffBetweenRevisions | rbtools/clients/git.py:441-485 | the merge base, the two diffs of `PlanBetween` gated on the contains output for the first revision, its remembered range, and the guesses |
| Client.GitClient.UpdateCommitsWithReviewerInfo | rbtools/clients/git.py:54-111 | 0 without a remembered range; otherwise the count `UpdateCount` gives for the rev-list output, the first commit's notes and the edit outcomes |

## Left out

- Running git and the other process calls (`execute`, `check_install`, `die`) are replaced by the fields of `Client.Env`. `die` becomes the `UpgradeRequired` answer.
- `os.chdir` to the top of the work tree, and the `--show-toplevel` query feeding it, are left out: they change only the process's directory. `os.path.isdir`, `os.listdir` and `os.path.abspath` are answers of `Env`.
- The perl one-liner run as `GIT_EDITOR` is left out. It is an external interpreter. Whether `git notes edit` gave output for a commit is an answer of `Env`.
- `scan_for_server` is left out. It calls the superclass and `SVNClient`, which are not part of this model.
- The Windows `git.cmd` fallback is left out. `Env.gitInstalled` stands for "either command runs", and the choice of executable name has no other effect in the model.
- Attributes the source reads before ever assigning them start as `""`, `false` and `Unset` in the constructor. In Python reading them would raise.
- `SvnDiff.MakeSvnDiff`: when `find-rev` gives a revision, `diff ` lines with fewer than three space-separated fields are excluded by a precondition. The source raises an `IndexError` on them. Without a revision no line is read and nothing is required. `Client.Translatable` carries the same condition to `make_diff`, `diff` and `diff_between_revisions`.
- `Revisions.PlanBetween` and `Client.GitClient.DiffBetweenRevisions`: a revision range with two or more `:` is excluded by a precondition. The source fails to unpack it.
- `Annotator.AttributionJoin` is weaker than "contains ` and` exactly when both are given". A reviewer named `andy` puts ` and` into any attribution. The lemma states the exact join ` and groups:` after the reviewers instead.
- `get_origin` takes the remote name as the text before the first `/`. A remote whose name contains `/` therefore has its URL looked up under the wrong key. The model does the same (`Upstream.RemoteOfTracking` needs a remote without `/`).
- `URL[len(root):]` does not check that the root is a prefix of the URL. The model keeps that (`Upstream.BasePath`).
- `\s*` in `^Remote Branch:\s*(.+)$` can cross line ends. The model follows the engine, including backtracking to leave the group a non-newline start.
- The notes loop skips only the first commit when it already carries an attribution. That is what the code does, as opposed to skipping "the first commits" as its comment says.
- `make_diff` with an empty commit diffs against the working tree: the range is the ancestor alone.
- The constant entries of the returned `RepositoryInfo` are left out of `Client.RepoInfo`: `supports_parent_diffs=True`, `supports_updating_commits=True`, and the git repository's `base_path=''`. They do not depend on the environment.

## Findings

| source | as written | input that shows it | evidently intended | confidence | as-written member | corrected member |
|---|---|---|---|---|---|---|
| rbtools/clients/git.py:121 | `(.git)?$` has an unescaped dot, so any character followed by `git` at the end is dropped from `repos` | `git@github.com:user/legit` gives the repos `user/l` | only a literal `.git` suffix is removed, giving `user/legit` | high; not executed | GithubUrls.AsWrittenDropsGitEnding | GithubUrls.CanonicalRoundTrip |
| rbtools/clients/git.py:116-119 | `github.com` has unescaped dots, so any character stands in for each | `git://githubXcom/foo` is expanded into eight github.com URLs | only the host `github.com` is recognised | high; not executed | GithubUrls.LookalikeHostAccepted | GithubUrls.StrictHostLiteral |

`GithubUrls.GithubPathsAsWritten` is the expression as written, and `Client` uses it, as `get_repository_info` does. `GithubUrls.GithubPaths` is the corrected one, with the dots escaped. The corrected half of each finding is proved about it: `CanonicalRoundTrip` for every plain name, and `StrictHostLiteral` for every URL, with `LookalikeHostRejected` as the instance. `GithubUrls.LegitMangled` instantiates the first finding on its example URL.
