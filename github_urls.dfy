/**
 * `_github_paths`: recognise a GitHub remote URL and list the eight spellings
 * of the same repository. The regular expression
 *
 *   (http://([^@]+@)?github.com/|https://([^@]+@)?github.com/|
 *    git://github.com/|git@github.com:)(?P<repos>.*?)(.git)?$
 *
 * applied with `re.match` is written out as an explicit scan that follows the
 * backtracking order of the regex engine. The parameter `strict` selects the
 * expression as written (`false`: every `.` is "any character but a newline")
 * or the one evidently intended (`true`: `github\.com` and `(\.git)?$`).
 */
module GithubUrls {
  import opened Wrappers
  import opened PyText

  /** What `_github_paths` returns: the URL itself when it is not a GitHub
      URL, and the list of eight URLs otherwise. */
  datatype Paths = Unchanged(url: string) | Expanded(urls: seq<string>)

  /** One pattern character against one text character. In a pattern, `.`
      stands for the regex dot: any character but a newline, or a literal dot
      when the dots are escaped. */
  predicate PatternChar(p: char, c: char, strict: bool) {
    if p == '.' && !strict then c != '\n' else c == p
  }

  /** The pattern `pat` matches `url` at position `i`. */
  predicate MatchesAt(url: string, i: nat, pat: string, strict: bool) {
    i + |pat| <= |url| && forall k :: 0 <= k < |pat| ==> PatternChar(pat[k], url[i + k], strict)
  }

  /** The literal pieces of the prefix group. */
  const HTTP: string := "http://"
  const HTTPS: string := "https://"
  const GIT: string := "git://"
  const SSH: string := "git@"
  const HOST: string := "github.com/"
  const SSH_HOST: string := "github.com:"

  /** Where `repos` may start for the `http://` or `https://` branch whose
      scheme ends at `s`, in the order the engine tries them: first with the
      greedy optional `[^@]+@` (which can only end at the first `@`), then
      without it. */
  function UserVariants(url: string, s: nat, strict: bool): seq<nat>
    requires s <= |url|
  {
    var a := IndexFrom(url, '@', s);
    (if s < a < |url| && MatchesAt(url, a + 1, HOST, strict) then [a + 1 + |HOST|] else []) +
    (if MatchesAt(url, s, HOST, strict) then [s + |HOST|] else [])
  }

  /** Every position where the prefix group can end, alternative by alternative. */
  function Starts(url: string, strict: bool): seq<nat> {
    (if HTTP <= url then UserVariants(url, |HTTP|, strict) else []) +
    (if HTTPS <= url then UserVariants(url, |HTTPS|, strict) else []) +
    (if MatchesAt(url, 0, GIT + HOST, strict) then [|GIT + HOST|] else []) +
    (if MatchesAt(url, 0, SSH + SSH_HOST, strict) then [|SSH + SSH_HOST|] else [])
  }

  /** A pattern matches the text it spells. */
  lemma SelfMatch(url: string, i: nat, pat: string, strict: bool)
    requires i + |pat| <= |url| && url[i..i + |pat|] == pat
    ensures MatchesAt(url, i, pat, strict)
  {
    assert forall k :: 0 <= k < |pat| ==> url[i + k] == pat[k];
  }

  /** One character the pattern refuses is enough for no match. */
  lemma Mismatch(url: string, i: nat, pat: string, strict: bool, k: nat)
    requires k < |pat| && i + k < |url| && !PatternChar(pat[k], url[i + k], strict)
    ensures !MatchesAt(url, i, pat, strict)
  {
  }

  /** Where `$` can match in the rest `r` of the URL: at its end, or before a
      final newline. */
  function TailEnd(r: string): nat {
    if r != [] && r[|r| - 1] == '\n' then |r| - 1 else |r|
  }

  /** `(?P<repos>.*?)(.git)?$` can match all of `r`: nothing up to `$` is a newline. */
  predicate TailOk(r: string) {
    forall k :: 0 <= k < TailEnd(r) ==> r[k] != '\n'
  }

  /** The `(.git)?` group can take the four characters that end at `e`. */
  predicate GitSuffixAt(r: string, e: nat, strict: bool)
    requires e <= |r|
  {
    4 <= e && MatchesAt(r, e - 4, ".git", strict)
  }

  /** The `repos` group: the lazy `.*?` stops as early as it can, so the
      optional group takes the last four characters whenever it can. */
  function Repos(r: string, strict: bool): string {
    var e := TailEnd(r);
    if GitSuffixAt(r, e, strict) then r[..e - 4] else r[..e]
  }

  /** None of the first `k` candidates lets the rest of the pattern match. */
  predicate NoneBefore(url: string, ps: seq<nat>, k: nat)
    requires k <= |ps|
  {
    forall j :: 0 <= j < k ==> !(ps[j] <= |url| && TailOk(url[ps[j]..]))
  }

  /** The first candidate from which the rest of the pattern matches: it
      matches, and every candidate the engine tries before it fails. */
  function FirstMatch(url: string, ps: seq<nat>): (m: Option<nat>)
    ensures m.Some? ==> m.value in ps && m.value <= |url| && TailOk(url[m.value..])
    ensures m.Some? ==> exists k :: 0 <= k < |ps| && ps[k] == m.value && NoneBefore(url, ps, k)
    ensures m.None? ==> NoneBefore(url, ps, |ps|)
    decreases |ps|
  {
    if ps == [] then None
    else if ps[0] <= |url| && TailOk(url[ps[0]..]) then
      assert NoneBefore(url, ps, 0);
      Some(ps[0])
    else
      var m := FirstMatch(url, ps[1..]);
      NoneBeforeShift(url, ps);
      m
  }

  /** A failing first candidate adds one to every count of failures. */
  lemma NoneBeforeShift(url: string, ps: seq<nat>)
    requires ps != [] && !(ps[0] <= |url| && TailOk(url[ps[0]..]))
    ensures forall k :: 0 <= k < |ps| ==> NoneBefore(url, ps[1..], k) ==> NoneBefore(url, ps, k + 1)
  {
    forall k | 0 <= k < |ps| && NoneBefore(url, ps[1..], k) ensures NoneBefore(url, ps, k + 1) {
      forall j | 0 < j < k + 1 ensures !(ps[j] <= |url| && TailOk(url[ps[j]..])) {
        assert ps[j] == ps[1..][j - 1];
      }
    }
  }

  /** The eight spellings, each plain form followed by its `.git` form. */
  function Expansions(repos: string): seq<string> {
    [HTTP + HOST + repos, HTTP + HOST + repos + ".git",
     HTTPS + HOST + repos, HTTPS + HOST + repos + ".git",
     GIT + HOST + repos, GIT + HOST + repos + ".git",
     SSH + SSH_HOST + repos, SSH + SSH_HOST + repos + ".git"]
  }

  /** The four canonical prefixes, in the order of the expansion. */
  const FORMS: seq<string> := [HTTP + HOST, HTTPS + HOST, GIT + HOST, SSH + SSH_HOST]

  /** Eight URLs, in pairs: each canonical prefix with the name, then the same
      with `.git` after it. */
  lemma ExpansionsShape(repos: string)
    ensures |Expansions(repos)| == 8
    ensures forall i :: 0 <= i < 8 ==>
      Expansions(repos)[i] == FORMS[i / 2] + repos + (if i % 2 == 1 then ".git" else "")
  {
  }

  /** `_github_paths` with the dots read as written (`strict == false`) or escaped. */
  function GithubPathsWith(url: string, strict: bool): (r: Paths)
    ensures r.Unchanged? ==> r.url == url
    ensures r.Expanded? ==> exists repos :: r.urls == Expansions(repos)
  {
    match FirstMatch(url, Starts(url, strict))
    case None => Unchanged(url)
    case Some(p) => Expanded(Expansions(Repos(url[p..], strict)))
  }

  /** The expression as the source writes it. */
  function GithubPathsAsWritten(url: string): Paths {
    GithubPathsWith(url, false)
  }

  /** The expression with its dots escaped, as evidently intended. */
  function GithubPaths(url: string): Paths {
    GithubPathsWith(url, true)
  }

  /** When the first place the prefix group can end lets the rest match, the
      name is read from there. */
  lemma MatchFromFirstStart(url: string, strict: bool, p: nat)
    requires Starts(url, strict) != [] && Starts(url, strict)[0] == p
    requires p <= |url| && TailOk(url[p..])
    ensures GithubPathsWith(url, strict) == Expanded(Expansions(Repos(url[p..], strict)))
  {
  }

  /** Where a pattern has no dot, what it matched is its own text. */
  lemma MatchedLiteral(url: string, i: nat, pat: string, strict: bool, lo: nat, hi: nat)
    requires MatchesAt(url, i, pat, strict) && lo <= hi <= |pat|
    requires strict || '.' !in pat[lo..hi]
    ensures url[i + lo..i + hi] == pat[lo..hi]
  {
    forall j | lo <= j < hi ensures url[i + j] == pat[j] {
      assert pat[j] == pat[lo..hi][j - lo];
      assert PatternChar(pat[j], url[i + j], strict);
    }
    assert forall j :: 0 <= j < hi - lo ==> url[i + lo..i + hi][j] == pat[lo..hi][j];
  }

  /** A match of a scheme without dots and a host starts with that scheme. */
  lemma SchemeOfMatch(url: string, scheme: string, host: string, strict: bool)
    requires MatchesAt(url, 0, scheme + host, strict) && '.' !in scheme
    ensures scheme <= url
  {
    assert (scheme + host)[0..|scheme|] == scheme;
    MatchedLiteral(url, 0, scheme + host, strict, 0, |scheme|);
  }

  /** A URL that no alternative of the prefix group can start is handed back
      as it is: it does not begin with `git://github.com/` or
      `git@github.com:`, and, if it begins with `http://` or `https://`,
      `github.com/` occurs nowhere in it. */
  lemma UnrecognisedUnchanged(url: string, strict: bool)
    requires !MatchesAt(url, 0, GIT + HOST, strict) && !MatchesAt(url, 0, SSH + SSH_HOST, strict)
    requires HTTP <= url || HTTPS <= url ==> forall i :: 0 <= i <= |url| ==> !MatchesAt(url, i, HOST, strict)
    ensures GithubPathsWith(url, strict) == Unchanged(url)
  {
    if HTTP <= url {
      assert UserVariants(url, |HTTP|, strict) == [];
    }
    if HTTPS <= url {
      assert UserVariants(url, |HTTPS|, strict) == [];
    }
    assert Starts(url, strict) == [];
  }

  /** A URL with none of the four schemes meets that condition. */
  lemma NoSchemeUnchanged(url: string, strict: bool)
    requires !(HTTP <= url) && !(HTTPS <= url) && !(GIT <= url) && !(SSH <= url)
    ensures GithubPathsWith(url, strict) == Unchanged(url)
  {
    if MatchesAt(url, 0, GIT + HOST, strict) { SchemeOfMatch(url, GIT, HOST, strict); assert false; }
    if MatchesAt(url, 0, SSH + SSH_HOST, strict) { SchemeOfMatch(url, SSH, SSH_HOST, strict); assert false; }
    UnrecognisedUnchanged(url, strict);
  }

  /** A URL on another host, such as GitLab, is not a GitHub URL either way. */
  lemma OtherHostUnchanged(strict: bool)
    ensures GithubPathsWith("https://gitlab.com/x", strict) == Unchanged("https://gitlab.com/x")
  {
    var url := "https://gitlab.com/x";
    forall i | 0 <= i <= |url| ensures !MatchesAt(url, i, HOST, strict) {
      if i == 8 {
        Mismatch(url, 8, HOST, strict, 3);
      } else if i + |HOST| <= |url| {
        Mismatch(url, i, HOST, strict, 0);
      }
    }
    Mismatch(url, 0, GIT + HOST, strict, 0);
    Mismatch(url, 0, SSH + SSH_HOST, strict, 0);
    UnrecognisedUnchanged(url, strict);
  }

  /** A repository name the expansion can carry: one line, no `@` (which the
      optional user part would look for) and no `.git` of its own at the end. */
  predicate PlainName(n: string) {
    '\n' !in n && '@' !in n && !(|n| >= 4 && n[|n| - 4..] == ".git")
  }

  /** The same name as far as the expression as written is concerned: it
      also may not end in any character followed by `git`. */
  predicate PlainForAsWritten(n: string) {
    PlainName(n) && !(|n| >= 3 && n[|n| - 3..] == "git")
  }

  /** No `c` at or after `i` sends the search to the end. */
  lemma {:induction false} IndexFromAbsent(s: string, c: char, i: nat)
    requires i <= |s| && forall j :: i <= j < |s| ==> s[j] != c
    ensures IndexFrom(s, c, i) == |s|
    decreases |s| - i
  {
    if i < |s| {
      IndexFromAbsent(s, c, i + 1);
    }
  }

  /** The prefix group of each canonical form ends right after the prefix. */
  lemma StartsHttp(rest: string, strict: bool)
    requires '@' !in rest
    ensures Starts(HTTP + HOST + rest, strict) == [|HTTP + HOST|]
  {
    var url := HTTP + HOST + rest;
    assert url[..|HTTP|] == HTTP;
    forall j | |HTTP| <= j < |url| ensures url[j] != '@' {
      if j < |HTTP + HOST| { assert url[j] == HOST[j - |HTTP|]; } else { assert url[j] == rest[j - |HTTP + HOST|]; }
    }
    IndexFromAbsent(url, '@', |HTTP|);
    assert url[|HTTP|..|HTTP| + |HOST|] == HOST;
    SelfMatch(url, |HTTP|, HOST, strict);
    assert !(HTTPS <= url) by { assert url[4] != HTTPS[4]; }
    Mismatch(url, 0, GIT + HOST, strict, 0);
    Mismatch(url, 0, SSH + SSH_HOST, strict, 0);
  }

  lemma StartsHttps(rest: string, strict: bool)
    requires '@' !in rest
    ensures Starts(HTTPS + HOST + rest, strict) == [|HTTPS + HOST|]
  {
    var url := HTTPS + HOST + rest;
    assert url[..|HTTPS|] == HTTPS;
    forall j | |HTTPS| <= j < |url| ensures url[j] != '@' {
      if j < |HTTPS + HOST| { assert url[j] == HOST[j - |HTTPS|]; } else { assert url[j] == rest[j - |HTTPS + HOST|]; }
    }
    IndexFromAbsent(url, '@', |HTTPS|);
    assert url[|HTTPS|..|HTTPS| + |HOST|] == HOST;
    SelfMatch(url, |HTTPS|, HOST, strict);
    assert !(HTTP <= url) by { assert url[4] != HTTP[4]; }
    Mismatch(url, 0, GIT + HOST, strict, 0);
    Mismatch(url, 0, SSH + SSH_HOST, strict, 0);
  }

  lemma StartsGit(rest: string, strict: bool)
    ensures Starts(GIT + HOST + rest, strict) == [|GIT + HOST|]
  {
    var url := GIT + HOST + rest;
    assert url[..|GIT + HOST|] == GIT + HOST;
    SelfMatch(url, 0, GIT + HOST, strict);
    assert !(HTTP <= url) && !(HTTPS <= url) by { assert url[0] == 'g'; }
    Mismatch(url, 0, SSH + SSH_HOST, strict, 3);
  }

  lemma StartsSsh(rest: string, strict: bool)
    ensures Starts(SSH + SSH_HOST + rest, strict) == [|SSH + SSH_HOST|]
  {
    var url := SSH + SSH_HOST + rest;
    assert url[..|SSH + SSH_HOST|] == SSH + SSH_HOST;
    SelfMatch(url, 0, SSH + SSH_HOST, strict);
    assert !(HTTP <= url) && !(HTTPS <= url) by { assert url[0] == 'g'; }
    Mismatch(url, 0, GIT + HOST, strict, 3);
  }

  lemma CanonicalStarts(k: nat, rest: string, strict: bool)
    requires k < 4 && '@' !in rest
    ensures Starts(FORMS[k] + rest, strict) == [|FORMS[k]|]
  {
    if k == 0 { StartsHttp(rest, strict); }
    else if k == 1 { StartsHttps(rest, strict); }
    else if k == 2 { StartsGit(rest, strict); }
    else { StartsSsh(rest, strict); }
  }

  /** With the dots as written, a `(.git)?` match at the end only shows
      that the text ends in `git`. */
  lemma GitSuffixSpellsGit(r: string, strict: bool)
    ensures GitSuffixAt(r, |r|, strict) ==> r[|r| - 3..] == "git"
  {
    if GitSuffixAt(r, |r|, strict) {
      assert ".git"[1..4] == "git";
      MatchedLiteral(r, |r| - 4, ".git", strict, 1, 4);
    }
  }

  /** The rest after the prefix: the name is kept whole, and a `.git` after it
      is taken off. */
  lemma TailOfName(n: string, suffix: string, strict: bool)
    requires PlainName(n) && (suffix == "" || suffix == ".git")
    requires strict || PlainForAsWritten(n)
    ensures TailOk(n + suffix) && Repos(n + suffix, strict) == n
  {
    var r := n + suffix;
    forall k | 0 <= k < |r| ensures r[k] != '\n' {
      if k >= |n| { assert r[k] == suffix[k - |n|]; } else { assert r[k] == n[k]; }
    }
    assert TailEnd(r) == |r|;
    if suffix == "" {
      assert r == n;
      GitSuffixSpellsGit(r, strict);
      if !strict && GitSuffixAt(r, |r|, strict) {
        assert false;
      }
      assert r[..|r|] == n;
    } else {
      assert r[|r| - 4..] == ".git";
      SelfMatch(r, |r| - 4, ".git", strict);
      assert r[..|r| - 4] == n;
    }
  }

  /** Each of the eight spellings of a plain name expands back to the same
      eight spellings. With the dots read as written this takes the stronger
      `PlainForAsWritten`; `AsWrittenDropsGitEnding` shows why. */
  lemma CanonicalRoundTrip(n: string, i: nat, strict: bool)
    requires PlainName(n) && i < 8
    requires strict || PlainForAsWritten(n)
    ensures GithubPathsWith(Expansions(n)[i], strict) == Expanded(Expansions(n))
  {
    var k := i / 2;
    var suffix := if i % 2 == 1 then ".git" else "";
    var rest := n + suffix;
    var url := FORMS[k] + rest;
    assert Expansions(n)[i] == url;
    forall j | 0 <= j < |rest| ensures rest[j] != '@' {
      if j >= |n| { assert rest[j] == suffix[j - |n|]; } else { assert rest[j] == n[j]; }
    }
    CanonicalStarts(k, rest, strict);
    TailOfName(n, suffix, strict);
    assert url[|FORMS[k]|..] == rest;
    MatchFromFirstStart(url, strict, |FORMS[k]|);
  }

  /** The two schemes that may carry a user part. */
  const WEB: seq<string> := [HTTP, HTTPS]

  /** The greedy user part ends at the first `@`; when `github.com/` follows
      it, that is the first place the group can end. */
  lemma UserVariantFirst(url: string, s: nat, a: nat, strict: bool)
    requires s < a < |url| && url[a] == '@' && MatchesAt(url, a + 1, HOST, strict)
    requires forall j :: s <= j < a ==> url[j] != '@'
    ensures UserVariants(url, s, strict) != [] && UserVariants(url, s, strict)[0] == a + 1 + |HOST|
  {
    assert IndexFrom(url, '@', s) == a;
  }

  /** A scheme, a user part `u@` and `github.com/`, then `rest`. */
  lemma UserPartAt(scheme: string, u: string, rest: string, strict: bool)
    requires u != "" && '@' !in u
    ensures var url := scheme + u + "@" + HOST + rest;
      var p := |scheme| + |u| + 1 + |HOST|;
      UserVariants(url, |scheme|, strict) != [] && UserVariants(url, |scheme|, strict)[0] == p
      && url[p..] == rest && url[..|scheme|] == scheme
  {
    var url := scheme + u + "@" + HOST + rest;
    var s := |scheme|;
    var a := s + |u|;
    var p := a + 1 + |HOST|;
    assert url[s..] == u + "@" + HOST + rest;
    assert url[a] == '@';
    forall j | s <= j < a ensures url[j] != '@' {
      assert url[j] == url[s..][j - s] == u[j - s];
    }
    assert url[a + 1..p] == HOST;
    SelfMatch(url, a + 1, HOST, strict);
    UserVariantFirst(url, s, a, strict);
  }

  /** After `http://u@` or `https://u@`, the first place the prefix group
      can end is right after the `github.com/` that follows the user. */
  lemma UserStarts(k: nat, u: string, rest: string, strict: bool)
    requires k < 2 && u != "" && '@' !in u
    ensures var url := WEB[k] + u + "@" + HOST + rest;
      var p := |WEB[k]| + |u| + 1 + |HOST|;
      Starts(url, strict) != [] && Starts(url, strict)[0] == p && url[p..] == rest
  {
    var url := WEB[k] + u + "@" + HOST + rest;
    UserPartAt(WEB[k], u, rest, strict);
    if k == 0 {
      assert !(HTTPS <= url) by { assert url[4] != HTTPS[4]; }
    } else {
      assert !(HTTP <= url) by { assert url[4] != HTTP[4]; }
    }
    Mismatch(url, 0, GIT + HOST, strict, 0);
    Mismatch(url, 0, SSH + SSH_HOST, strict, 0);
  }

  /** A user part `u@` after `http://` or `https://` is passed over: the
      eight spellings are those of the name alone, without the user. */
  lemma UserPartStripped(k: nat, u: string, n: string, suffix: string, strict: bool)
    requires k < 2 && u != "" && '@' !in u
    requires PlainName(n) && (suffix == "" || suffix == ".git")
    requires strict || PlainForAsWritten(n)
    ensures GithubPathsWith(WEB[k] + u + "@" + HOST + n + suffix, strict) == Expanded(Expansions(n))
  {
    var url := WEB[k] + u + "@" + HOST + (n + suffix);
    assert url == WEB[k] + u + "@" + HOST + n + suffix;
    UserStarts(k, u, n + suffix, strict);
    TailOfName(n, suffix, strict);
    MatchFromFirstStart(url, strict, |WEB[k]| + |u| + 1 + |HOST|);
  }

  /** A literal GitHub host ends at `p`: the URL starts with
      `git://github.com/` or `git@github.com:` up to `p`, or it starts with
      `http://` or `https://` and `github.com/` ends at `p`. */
  predicate LiteralHostAt(url: string, p: nat) {
    p <= |url| &&
    (url[..p] == GIT + HOST || url[..p] == SSH + SSH_HOST
     || ((HTTP <= url || HTTPS <= url) && |HOST| <= p && url[p - |HOST|..p] == HOST))
  }

  /** With the dots escaped, the `http(s)` alternatives end after a literal `github.com/`. */
  lemma UserVariantLiteral(url: string, s: nat, p: nat)
    requires s <= |url| && p in UserVariants(url, s, true)
    ensures |HOST| <= p <= |url| && url[p - |HOST|..p] == HOST
  {
    var a := IndexFrom(url, '@', s);
    if s < a < |url| && MatchesAt(url, a + 1, HOST, true) && p == a + 1 + |HOST| {
      MatchedLiteral(url, a + 1, HOST, true, 0, |HOST|);
    } else {
      MatchedLiteral(url, s, HOST, true, 0, |HOST|);
    }
  }

  /** With the dots escaped, every place the prefix group can end follows a literal host. */
  lemma StrictStartsLiteral(url: string)
    ensures forall p :: p in Starts(url, true) ==> LiteralHostAt(url, p)
  {
    forall p | p in Starts(url, true) ensures LiteralHostAt(url, p) {
      if HTTP <= url && p in UserVariants(url, |HTTP|, true) {
        UserVariantLiteral(url, |HTTP|, p);
      } else if HTTPS <= url && p in UserVariants(url, |HTTPS|, true) {
        UserVariantLiteral(url, |HTTPS|, p);
      } else if MatchesAt(url, 0, GIT + HOST, true) && p == |GIT + HOST| {
        MatchedLiteral(url, 0, GIT + HOST, true, 0, |GIT + HOST|);
      } else {
        MatchedLiteral(url, 0, SSH + SSH_HOST, true, 0, |SSH + SSH_HOST|);
      }
    }
  }

  /** With the dots escaped, a URL is expanded only when it names the GitHub
      host literally, and the name is what follows that host. */
  lemma StrictHostLiteral(url: string)
    ensures GithubPaths(url).Expanded? ==>
      exists p: nat :: LiteralHostAt(url, p) && GithubPaths(url) == Expanded(Expansions(Repos(url[p..], true)))
  {
    var m := FirstMatch(url, Starts(url, true));
    if m.Some? {
      StrictStartsLiteral(url);
      assert LiteralHostAt(url, m.value);
    }
  }

  /** A name `m`, one character that is not a dot, and `git`. */
  lemma GitEndingName(m: string, c: char)
    requires '\n' !in m && '@' !in m && c != '\n' && c != '@' && c != '.'
    ensures var n := m + [c] + "git";
      PlainName(n) && n[|n| - 3..] == "git" && n[|n| - 4] == c
  {
    var n := m + [c] + "git";
    forall j | 0 <= j < |n| ensures n[j] != '@' && n[j] != '\n' {
      if j < |m| { assert n[j] == m[j]; } else if j == |m| { assert n[j] == c; } else { assert n[j] == "git"[j - |m| - 1]; }
    }
    assert n[|n| - 4] == c;
    assert n[|n| - 3..] == "git";
  }

  /** As written, the optional group takes a `git` ending with whatever is before it. */
  lemma GitEndingReposAsWritten(m: string, c: char)
    requires '\n' !in m && '@' !in m && c != '\n' && c != '@' && c != '.'
    ensures TailOk(m + [c] + "git") && Repos(m + [c] + "git", false) == m
  {
    var n := m + [c] + "git";
    GitEndingName(m, c);
    TailOfName(n, "", true);
    assert n + "" == n;
    assert TailEnd(n) == |n|;
    assert MatchesAt(n, |n| - 4, ".git", false);
    assert n[..|n| - 4] == m;
  }

  /** As written, a name that ends in any character but a newline followed by
      `git` loses those four characters in every spelling; escaped, it is kept. */
  lemma AsWrittenDropsGitEnding(k: nat, m: string, c: char)
    requires k < 4 && '\n' !in m && '@' !in m && c != '\n' && c != '@' && c != '.'
    ensures GithubPathsAsWritten(FORMS[k] + (m + [c] + "git")) == Expanded(Expansions(m))
    ensures GithubPaths(FORMS[k] + (m + [c] + "git")) == Expanded(Expansions(m + [c] + "git"))
  {
    var n := m + [c] + "git";
    GitEndingName(m, c);
    CanonicalStarts(k, n, false);
    CanonicalStarts(k, n, true);
    assert (FORMS[k] + n)[|FORMS[k]|..] == n;
    TailOfName(n, "", true);
    assert n + "" == n;
    GitEndingReposAsWritten(m, c);
  }

  /** The instance `git@github.com:user/legit`: `user/l` as written, `user/legit` escaped. */
  lemma LegitMangled()
    ensures GithubPathsAsWritten("git@github.com:user/legit") == Expanded(Expansions("user/l"))
    ensures GithubPaths("git@github.com:user/legit") == Expanded(Expansions("user/legit"))
  {
    assert "user/l" + ['e'] + "git" == "user/legit";
    assert FORMS[3] + "user/legit" == "git@github.com:user/legit";
    AsWrittenDropsGitEnding(3, "user/l", 'e');
  }

  /** As written, any character can stand for the dot of `github.com`. */
  lemma LookalikeHostAccepted()
    ensures GithubPathsAsWritten("git://githubXcom/foo") == Expanded(Expansions("foo"))
  {
    var url := "git://githubXcom/foo";
    assert forall k :: 0 <= k < |GIT + HOST| ==> PatternChar((GIT + HOST)[k], url[k], false);
    assert !(HTTP <= url) && !(HTTPS <= url) by { assert url[0] == 'g'; }
    Mismatch(url, 0, SSH + SSH_HOST, false, 3);
    assert Starts(url, false) == [17];
    assert url[17..] == "foo";
    assert TailOk("foo");
    assert !GitSuffixAt("foo", 3, false);
    assert "foo"[..3] == "foo";
  }

  /** With the dots escaped, that host is not GitHub. */
  lemma LookalikeHostRejected()
    ensures GithubPaths("git://githubXcom/foo") == Unchanged("git://githubXcom/foo")
  {
    var url := "git://githubXcom/foo";
    Mismatch(url, 0, GIT + HOST, true, 12);
    Mismatch(url, 0, SSH + SSH_HOST, true, 3);
    assert !(HTTP <= url) && !(HTTPS <= url) by { assert url[0] == 'g'; }
    assert Starts(url, true) == [];
  }
}
