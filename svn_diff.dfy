/**
 * The git-to-Subversion diff translator (`make_svn_diff`): a single pass over
 * the lines of `git diff` that rewrites file headers into the dialect of
 * `svn diff` and copies everything else. `Step` is one transition of the line
 * state machine, `Translate` the left fold over the lines (the specification),
 * and `MakeSvnDiff` the loop the source runs, proved equal to it.
 */
module SvnDiff {
  import opened Wrappers
  import opened PyText

  /** The fixed-width separator under every `Index:` banner: 67 `=`. */
  const SEPARATOR: string := Repeat('=', 67)

  /** Python's `c * n` for one character. */
  function Repeat(c: char, n: nat): (r: string)
    ensures |r| == n && forall k :: 0 <= k < n ==> r[k] == c
  {
    if n == 0 then "" else Repeat(c, n - 1) + [c]
  }


  /** The two lines a `Binary files ...` line becomes. */
  const BINARY_LINE: string := "Cannot display: file marked as a binary type.\n"
  const MIME_LINE: string := "svn:mime-type = application/octet-stream\n"
  const BINARY_NOTICE: string := BINARY_LINE + MIME_LINE

  /** A line the translator can handle: a `diff ` header must have a third
      space-separated field, since the source indexes `line.split(" ")[2]`. */
  predicate Indexable(line: string) {
    "diff " <= line ==> |SplitOn(line, ' ')| >= 3
  }

  predicate AllIndexable(lines: seq<string>) {
    forall i :: 0 <= i < |lines| ==> Indexable(lines[i])
  }

  /** Output text together with the `newfile` flag after it. */
  datatype Emitted = Emitted(text: string, newFile: bool)

  /** The path of a `diff ` header: its third space-separated field. A header
      with fewer fields makes the source fail; `MakeSvnDiff` excludes it, and
      the empty path here only keeps `Step` total. */
  function HeaderPath(line: string): string
  {
    var fields := SplitOn(line, ' ');
    if |fields| >= 3 then fields[2] else ""
  }

  /** The strings the translator appends, one per append of the source. */
  function IndexHeader(path: string): string {
    "Index: " + path + "\n"
  }

  function OldHeader(path: string, rev: string): string {
    "--- " + path + "\t(revision " + rev + ")\n"
  }

  function ZeroRevisionOld(path: string): string {
    "--- " + path + "\t(revision 0)\n"
  }

  function ZeroRevisionNew(path: string): string {
    "+++ " + path + "\t(revision 0)\n"
  }

  function WorkingCopyHeader(path: string): string {
    "+++ " + path + "\t(working copy)\n"
  }

  /** The `Index:` banner a `diff ` header becomes: the path, then the separator line. */
  function Banner(path: string): string {
    IndexHeader(path) + SEPARATOR + "\n"
  }

  /** A new file gets both of its headers at revision 0. */
  function NewFileHeaders(path: string): string {
    ZeroRevisionOld(path) + ZeroRevisionNew(path)
  }

  /** Appending piece by piece is appending the joined pieces. */
  lemma AppendAssoc(a: string, b: string, c: string)
    ensures a + b + c == a + (b + c)
  {
  }

  /** Which rule of the `elif` chain, tried in order, claims a line. */
  datatype LineKind = DiffHeader | IndexLine | DevNull | OldPath | NewPath | NewFileMode | BinaryMarker | Other

  function Classify(line: string): LineKind {
    if "diff " <= line then DiffHeader
    else if "index " <= line then IndexLine
    else if Strip(line) == "--- /dev/null" then DevNull
    else if "--- " <= line then OldPath
    else if "+++ " <= line then NewPath
    else if "new file mode" <= line then NewFileMode
    else if "Binary files " <= line then BinaryMarker
    else Other
  }

  /** A line that none of the header rules claims. */
  predicate Unmatched(line: string) {
    Classify(line) == Other
  }

  /** One transition of the line state machine: what the line emits and the
      `newfile` flag after it. */
  function Step(rev: string, newFile: bool, line: string): Emitted {
    match Classify(line)
    case DiffHeader => Emitted(Banner(HeaderPath(line)), newFile)
    case IndexLine => Emitted("", newFile)
    case DevNull => Emitted("", true)
    case OldPath => Emitted(OldHeader(Strip(line[4..]), rev), false)
    case NewPath =>
      var f := Strip(line[4..]);
      Emitted(if newFile then NewFileHeaders(f) else WorkingCopyHeader(f), newFile)
    case NewFileMode => Emitted("", newFile)
    case BinaryMarker => Emitted(BINARY_NOTICE, newFile)
    case Other => Emitted(line, newFile)
  }

  /** A line-at-a-time transducer, threaded from the first line to the last:
      each line adds its text and sets the flag the next line sees. */
  function Fold(step: (bool, string) -> Emitted, newFile: bool, lines: seq<string>): Emitted
    decreases |lines|
  {
    if lines == [] then Emitted("", newFile)
    else
      var first := step(newFile, lines[0]);
      var rest := Fold(step, first.newFile, lines[1..]);
      Emitted(first.text + rest.text, rest.newFile)
  }

  /** The state machine for one revision, as a transducer. */
  function Machine(rev: string): (bool, string) -> Emitted {
    (f: bool, line: string) => Step(rev, f, line)
  }

  /** The translation of `lines`, started with the given `newfile` flag. */
  function Translate(rev: string, newFile: bool, lines: seq<string>): Emitted
  {
    Fold(Machine(rev), newFile, lines)
  }

  /** What `make_svn_diff` returns for the `git svn find-rev` output and the diff lines. */
  function SvnDiffOf(findRevOutput: string, lines: seq<string>): Option<string>
  {
    var rev := Strip(findRevOutput);
    if rev == "" then None else Some(Translate(rev, false, lines).text)
  }

  /** Translating `xs + ys` is translating `xs` and then `ys` from the flag `xs`
      left behind. */
  lemma {:induction false} FoldAppend(step: (bool, string) -> Emitted, newFile: bool, xs: seq<string>, ys: seq<string>)
    ensures var a := Fold(step, newFile, xs);
      var b := Fold(step, a.newFile, ys);
      Fold(step, newFile, xs + ys) == Emitted(a.text + b.text, b.newFile)
    decreases |xs|
  {
    if xs == [] {
      assert xs + ys == ys;
    } else {
      var s := step(newFile, xs[0]);
      assert (xs + ys)[0] == xs[0];
      assert (xs + ys)[1..] == xs[1..] + ys;
      FoldAppend(step, s.newFile, xs[1..], ys);
    }
  }

  /** A line that emits nothing and keeps the flag can be dropped. */
  lemma FoldSkip(step: (bool, string) -> Emitted, newFile: bool, xs: seq<string>, line: string, ys: seq<string>)
    requires var f := Fold(step, newFile, xs).newFile; step(f, line) == Emitted("", f)
    ensures Fold(step, newFile, xs + [line] + ys) == Fold(step, newFile, xs + ys)
  {
    var a := Fold(step, newFile, xs);
    var rest := [line] + ys;
    assert xs + [line] + ys == xs + rest;
    FoldCons(step, a.newFile, line, ys);
    assert Fold(step, a.newFile, rest) == Fold(step, a.newFile, ys);
    FoldAppend(step, newFile, xs, rest);
    FoldAppend(step, newFile, xs, ys);
  }

  /** Unfolding the first line. */
  lemma FoldCons(step: (bool, string) -> Emitted, newFile: bool, line: string, rest: seq<string>)
    ensures var s := step(newFile, line);
      var t := Fold(step, s.newFile, rest);
      Fold(step, newFile, [line] + rest) == Emitted(s.text + t.text, t.newFile)
  {
    assert ([line] + rest)[0] == line;
    assert ([line] + rest)[1..] == rest;
  }

  lemma TranslateAppend(rev: string, newFile: bool, xs: seq<string>, ys: seq<string>)
    ensures var a := Translate(rev, newFile, xs);
      var b := Translate(rev, a.newFile, ys);
      Translate(rev, newFile, xs + ys) == Emitted(a.text + b.text, b.newFile)
  {
    FoldAppend(Machine(rev), newFile, xs, ys);
  }

  /** The first line emits its `Step` text ahead of the rest, which starts from
      the flag that line set. */
  lemma TranslateCons(rev: string, newFile: bool, line: string, rest: seq<string>)
    ensures var s := Step(rev, newFile, line);
      var t := Translate(rev, s.newFile, rest);
      Translate(rev, newFile, [line] + rest) == Emitted(s.text + t.text, t.newFile)
  {
    assert ([line] + rest)[0] == line;
    assert ([line] + rest)[1..] == rest;
  }

  /** A one-line input emits what `Step` emits. */
  lemma TranslateOne(rev: string, newFile: bool, line: string)
    ensures Translate(rev, newFile, [line]) == Step(rev, newFile, line)
  {
    TranslateCons(rev, newFile, line, []);
    assert [line] + [] == [line];
  }

  /** A line in the middle of a diff contributes exactly its `Step` text, at its
      place, and hands its flag on to the lines after it. */
  lemma LineInContext(rev: string, newFile: bool, xs: seq<string>, line: string, ys: seq<string>)
    ensures var a := Translate(rev, newFile, xs);
      var s := Step(rev, a.newFile, line);
      var b := Translate(rev, s.newFile, ys);
      Translate(rev, newFile, xs + [line] + ys) == Emitted(a.text + s.text + b.text, b.newFile)
  {
    TranslateOne(rev, Translate(rev, newFile, xs).newFile, line);
    TranslateAppend(rev, newFile, xs, [line]);
    TranslateAppend(rev, newFile, xs + [line], ys);
  }

  /** A `diff ` header emits the `Index:` banner for its third field and the
      separator, and leaves the `newfile` flag as it was. */
  lemma DiffHeaderEmitsBanner(rev: string, newFile: bool, xs: seq<string>, line: string, ys: seq<string>)
    requires "diff " <= line && |SplitOn(line, ' ')| >= 3
    ensures var a := Translate(rev, newFile, xs);
      Translate(rev, newFile, xs + [line] + ys).text ==
        a.text + Banner(SplitOn(line, ' ')[2]) + Translate(rev, a.newFile, ys).text
  {
    LineInContext(rev, newFile, xs, line, ys);
  }

  /** `index ` and `new file mode` lines emit nothing and keep the flag. */
  lemma MetadataDropped(rev: string, newFile: bool, xs: seq<string>, line: string, ys: seq<string>)
    requires "index " <= line || "new file mode" <= line
    ensures Translate(rev, newFile, xs + [line] + ys) == Translate(rev, newFile, xs + ys)
  {
    if "index " <= line { IndexLineKind(line); } else { NewFileModeKind(line); }
    FoldSkip(Machine(rev), newFile, xs, line, ys);
  }

  /** The rule each kind of header line falls under; a line's first character
      already rules out the rules tried before its own. */
  lemma IndexLineKind(line: string)
    requires "index " <= line
    ensures Classify(line) == IndexLine
  {
    assert line[0] == 'i';
  }

  lemma NewFileModeKind(line: string)
    requires "new file mode" <= line
    ensures Classify(line) == NewFileMode
  {
    assert line[0] == 'n';
    StripKeepsFirst(line);
  }

  lemma NewPathKind(line: string)
    requires "+++ " <= line
    ensures Classify(line) == NewPath
  {
    assert line[0] == '+';
    StripKeepsFirst(line);
  }

  lemma BinaryMarkerKind(line: string)
    requires "Binary files " <= line
    ensures Classify(line) == BinaryMarker
  {
    assert line[0] == 'B';
    StripKeepsFirst(line);
  }

  lemma OldPathKind(line: string)
    requires "--- " <= line && Strip(line) != "--- /dev/null"
    ensures Classify(line) == OldPath
  {
    assert line[0] == '-';
  }

  /** A line that strips to `--- /dev/null` emits nothing and marks the file as new. */
  lemma DevNullMarksNewFile(rev: string, newFile: bool, xs: seq<string>, line: string, ys: seq<string>)
    requires !("diff " <= line) && !("index " <= line) && Strip(line) == "--- /dev/null"
    ensures Translate(rev, newFile, xs + [line] + ys).text ==
      Translate(rev, newFile, xs).text + Translate(rev, true, ys).text
  {
    LineInContext(rev, newFile, xs, line, ys);
  }

  /** Any other `--- p` emits `--- p\t(revision N)` and clears the flag. */
  lemma OldPathStampedWithRevision(rev: string, newFile: bool, xs: seq<string>, line: string, ys: seq<string>)
    requires "--- " <= line && Strip(line) != "--- /dev/null"
    ensures Translate(rev, newFile, xs + [line] + ys).text ==
      Translate(rev, newFile, xs).text + OldHeader(Strip(line[4..]), rev) + Translate(rev, false, ys).text
  {
    OldPathKind(line);
    LineInContext(rev, newFile, xs, line, ys);
  }

  /** `+++ f` emits both `(revision 0)` headers when the flag is set, and only
      `+++ f\t(working copy)` otherwise; the flag is left as it was. */
  lemma NewPathHeaders(rev: string, newFile: bool, xs: seq<string>, line: string, ys: seq<string>)
    requires "+++ " <= line
    ensures var a := Translate(rev, newFile, xs);
      var f := Strip(line[4..]);
      Translate(rev, newFile, xs + [line] + ys).text ==
        a.text + (if a.newFile then NewFileHeaders(f) else WorkingCopyHeader(f)) +
        Translate(rev, a.newFile, ys).text
  {
    NewPathKind(line);
    LineInContext(rev, newFile, xs, line, ys);
  }

  /** `Binary files ...` becomes the two fixed Subversion lines. */
  lemma BinaryMarkerReplaced(rev: string, newFile: bool, xs: seq<string>, line: string, ys: seq<string>)
    requires "Binary files " <= line
    ensures var a := Translate(rev, newFile, xs);
      Translate(rev, newFile, xs + [line] + ys).text == a.text + BINARY_NOTICE + Translate(rev, a.newFile, ys).text
  {
    BinaryMarkerKind(line);
    LineInContext(rev, newFile, xs, line, ys);
  }

  /** Every line no rule claims is copied verbatim, in place. */
  lemma UnmatchedCopied(rev: string, newFile: bool, xs: seq<string>, line: string, ys: seq<string>)
    requires Unmatched(line)
    ensures var a := Translate(rev, newFile, xs);
      Translate(rev, newFile, xs + [line] + ys).text == a.text + line + Translate(rev, a.newFile, ys).text
  {
    LineInContext(rev, newFile, xs, line, ys);
  }

  /** The concatenation of a list of lines, as `"".join(lines)`. */
  function Concat(lines: seq<string>): string
    decreases |lines|
  {
    if lines == [] then "" else lines[0] + Concat(lines[1..])
  }

  /** A diff made only of unmatched lines (hunk bodies, say) comes out unchanged. */
  lemma {:induction false} UnmatchedLinesCopied(rev: string, newFile: bool, lines: seq<string>)
    requires forall i :: 0 <= i < |lines| ==> Unmatched(lines[i])
    ensures Translate(rev, newFile, lines) == Emitted(Concat(lines), newFile)
    decreases |lines|
  {
    if lines != [] {
      assert forall i :: 0 <= i < |lines| - 1 ==> lines[1..][i] == lines[i + 1];
      UnmatchedLinesCopied(rev, newFile, lines[1..]);
    }
  }

  /** `--- /dev/null` written with its newline strips to the marker. */
  lemma DevNullLine()
    ensures Strip("--- /dev/null\n") == "--- /dev/null"
  {
    StripExact("", "--- /dev/null", "\n");
    assert "" + "--- /dev/null" + "\n" == "--- /dev/null\n";
  }

  /** A path with no surrounding whitespace, written after a four-character
      marker and ended by a newline, is what `line[4:].strip()` recovers. */
  lemma PathOfHeader(marker: string, path: string)
    requires |marker| == 4 && path != [] && !IsSpace(path[0]) && !IsSpace(path[|path| - 1])
    ensures (marker + path + "\n")[4..] == path + "\n"
    ensures Strip((marker + path + "\n")[4..]) == path
  {
    assert (marker + path + "\n")[4..] == "" + path + "\n";
    StripExact("", path, "\n");
  }

  /** A path with no surrounding whitespace. */
  predicate Trimmed(path: string) {
    path != [] && !IsSpace(path[0]) && !IsSpace(path[|path| - 1])
  }

  lemma PrefixCancels(p: string, a: string, b: string)
    requires p + a == p + b
    ensures a == b
  {
    assert a == (p + a)[|p|..];
    assert b == (p + b)[|p|..];
  }

  /** The `Step` of each line of a file section, one rule at a time. */
  lemma HeaderStep(rev: string, newFile: bool, header: string)
    requires "diff " <= header && |SplitOn(header, ' ')| >= 3
    ensures Step(rev, newFile, header) == Emitted(Banner(SplitOn(header, ' ')[2]), newFile)
  {
  }

  lemma SilentStep(rev: string, newFile: bool, line: string)
    requires "index " <= line || "new file mode" <= line
    ensures Step(rev, newFile, line) == Emitted("", newFile)
  {
    if "index " <= line { IndexLineKind(line); } else { NewFileModeKind(line); }
  }

  lemma DevNullStep(rev: string, newFile: bool)
    ensures Step(rev, newFile, "--- /dev/null\n") == Emitted("", true)
  {
    DevNullLine();
  }

  lemma OldPathStep(rev: string, newFile: bool, path: string)
    requires Trimmed(path) && path != "/dev/null"
    ensures Step(rev, newFile, "--- " + path + "\n") == Emitted(OldHeader(path, rev), false)
  {
    var minus := "--- " + path + "\n";
    assert minus == "" + ("--- " + path) + "\n";
    StripExact("", "--- " + path, "\n");
    assert "--- /dev/null" == "--- " + "/dev/null";
    if "--- " + path == "--- " + "/dev/null" {
      PrefixCancels("--- ", path, "/dev/null");
    }
    OldPathKind(minus);
    PathOfHeader("--- ", path);
  }

  lemma NewPathStep(rev: string, newFile: bool, path: string)
    requires Trimmed(path)
    ensures Step(rev, newFile, "+++ " + path + "\n") ==
      Emitted(if newFile then NewFileHeaders(path) else WorkingCopyHeader(path), newFile)
  {
    NewPathKind("+++ " + path + "\n");
    PathOfHeader("+++ ", path);
  }

  /** The `--- /dev/null` and `+++ f` pair of a new file. */
  lemma NewFileTail(rev: string, newFile: bool, path: string)
    requires Trimmed(path)
    ensures Translate(rev, newFile, ["--- /dev/null\n", "+++ " + path + "\n"]) == Emitted(NewFileHeaders(path), true)
  {
    var devNull := "--- /dev/null\n";
    var plus := "+++ " + path + "\n";
    NewPathStep(rev, true, path);
    TranslateOne(rev, true, plus);
    DevNullStep(rev, newFile);
    TranslateCons(rev, newFile, devNull, [plus]);
    assert [devNull] + [plus] == [devNull, plus];
    assert "" + NewFileHeaders(path) == NewFileHeaders(path);
  }

  /** The `--- p` and `+++ q` pair of a modified file. */
  lemma ModifiedFileTail(rev: string, newFile: bool, oldPath: string, newPath: string)
    requires Trimmed(oldPath) && oldPath != "/dev/null" && Trimmed(newPath)
    ensures Translate(rev, newFile, ["--- " + oldPath + "\n", "+++ " + newPath + "\n"]) ==
      Emitted(OldHeader(oldPath, rev) + WorkingCopyHeader(newPath), false)
  {
    var minus := "--- " + oldPath + "\n";
    var plus := "+++ " + newPath + "\n";
    NewPathStep(rev, false, newPath);
    TranslateOne(rev, false, plus);
    OldPathStep(rev, newFile, oldPath);
    TranslateCons(rev, newFile, minus, [plus]);
    assert [minus] + [plus] == [minus, plus];
  }

  /** A metadata line in front of a diff adds nothing to it. */
  lemma SilentPrefix(rev: string, newFile: bool, line: string, rest: seq<string>)
    requires "index " <= line || "new file mode" <= line
    ensures Translate(rev, newFile, [line] + rest) == Translate(rev, newFile, rest)
  {
    SilentStep(rev, newFile, line);
    TranslateCons(rev, newFile, line, rest);
    assert "" + Translate(rev, newFile, rest).text == Translate(rev, newFile, rest).text;
  }

  /** A `diff ` header in front of a diff puts its banner in front of it. */
  lemma HeaderPrefix(rev: string, newFile: bool, header: string, rest: seq<string>)
    requires "diff " <= header && |SplitOn(header, ' ')| >= 3
    ensures var t := Translate(rev, newFile, rest);
      Translate(rev, newFile, [header] + rest) == Emitted(Banner(SplitOn(header, ' ')[2]) + t.text, t.newFile)
  {
    HeaderStep(rev, newFile, header);
    TranslateCons(rev, newFile, header, rest);
  }

  /** A new file: the banner, then exactly two headers, both at `(revision 0)`. */
  lemma NewFileSection(rev: string, newFile: bool, header: string, mode: string, index: string, path: string)
    requires "diff " <= header && |SplitOn(header, ' ')| >= 3
    requires "new file mode" <= mode && "index " <= index && Trimmed(path)
    ensures Translate(rev, newFile, [header, mode, index, "--- /dev/null\n", "+++ " + path + "\n"]) ==
      Emitted(Banner(SplitOn(header, ' ')[2]) + NewFileHeaders(path), true)
  {
    var tail := ["--- /dev/null\n", "+++ " + path + "\n"];
    NewFileTail(rev, newFile, path);
    SilentPrefix(rev, newFile, index, tail);
    SilentPrefix(rev, newFile, mode, [index] + tail);
    HeaderPrefix(rev, newFile, header, [mode] + ([index] + tail));
    assert [header] + ([mode] + ([index] + tail)) == [header, mode, index, "--- /dev/null\n", "+++ " + path + "\n"];
  }

  /** A modified file: the banner, `--- p\t(revision N)`, then `+++ q\t(working copy)`. */
  lemma ModifiedFileSection(rev: string, newFile: bool, header: string, index: string, oldPath: string, newPath: string)
    requires "diff " <= header && |SplitOn(header, ' ')| >= 3 && "index " <= index
    requires Trimmed(oldPath) && oldPath != "/dev/null" && Trimmed(newPath)
    ensures Translate(rev, newFile, [header, index, "--- " + oldPath + "\n", "+++ " + newPath + "\n"]) ==
      Emitted(Banner(SplitOn(header, ' ')[2]) + OldHeader(oldPath, rev) + WorkingCopyHeader(newPath), false)
  {
    var tail := ["--- " + oldPath + "\n", "+++ " + newPath + "\n"];
    var banner := Banner(SplitOn(header, ' ')[2]);
    ModifiedFileTail(rev, newFile, oldPath, newPath);
    SilentPrefix(rev, newFile, index, tail);
    HeaderPrefix(rev, newFile, header, [index] + tail);
    assert [header] + ([index] + tail) == [header, index, "--- " + oldPath + "\n", "+++ " + newPath + "\n"];
    assert banner + (OldHeader(oldPath, rev) + WorkingCopyHeader(newPath)) ==
      banner + OldHeader(oldPath, rev) + WorkingCopyHeader(newPath);
  }

  /** After the first `i` lines the loop has emitted `text`, and the flag is
      `newFile`: together with the translation of the remaining lines, that
      is the translation of all of them. */
  predicate Progress(rev: string, lines: seq<string>, i: nat, text: string, newFile: bool)
    requires i <= |lines|
  {
    var rest := Translate(rev, newFile, lines[i..]);
    Translate(rev, false, lines) == Emitted(text + rest.text, rest.newFile)
  }

  lemma ProgressStep(rev: string, lines: seq<string>, i: nat, text: string, newFile: bool)
    requires i < |lines| && Progress(rev, lines, i, text, newFile)
    ensures var s := Step(rev, newFile, lines[i]);
      Progress(rev, lines, i + 1, text + s.text, s.newFile)
  {
    var s := Step(rev, newFile, lines[i]);
    var tail := Translate(rev, s.newFile, lines[i + 1..]);
    assert lines[i..] == [lines[i]] + lines[i + 1..];
    TranslateCons(rev, newFile, lines[i], lines[i + 1..]);
    assert Translate(rev, newFile, lines[i..]) == Emitted(s.text + tail.text, tail.newFile);
    assert Translate(rev, false, lines) == Emitted(text + (s.text + tail.text), tail.newFile);
    assert text + (s.text + tail.text) == (text + s.text) + tail.text;
  }

  /** One pass of the loop body of `make_svn_diff`: append what `line` becomes
      to `diffData` and update the `newfile` flag. */
  method AppendLine(rev: string, diffData: string, newFile: bool, line: string)
    returns (data': string, newFile': bool)
    requires Indexable(line)
    ensures var s := Step(rev, newFile, line); data' == diffData + s.text && newFile' == s.newFile
  {
    data', newFile' := diffData, newFile;
    ghost var step := Step(rev, newFile, line);
    if "diff " <= line {
      var info := SplitOn(line, ' ');
      data' := data' + IndexHeader(info[2]);
      data' := data' + SEPARATOR;
      data' := data' + "\n";
      AppendAssoc(diffData, IndexHeader(info[2]), SEPARATOR);
      AppendAssoc(diffData, IndexHeader(info[2]) + SEPARATOR, "\n");
      assert step == Emitted(Banner(info[2]), newFile);
    } else if "index " <= line {
      assert step == Emitted("", newFile);
    } else if Strip(line) == "--- /dev/null" {
      newFile' := true;
      assert step == Emitted("", true);
    } else if "--- " <= line {
      newFile' := false;
      data' := data' + OldHeader(Strip(line[4..]), rev);
      assert step == Emitted(OldHeader(Strip(line[4..]), rev), false);
    } else if "+++ " <= line {
      var filename := Strip(line[4..]);
      if newFile {
        data' := data' + ZeroRevisionOld(filename);
        data' := data' + ZeroRevisionNew(filename);
        AppendAssoc(diffData, ZeroRevisionOld(filename), ZeroRevisionNew(filename));
        assert step == Emitted(NewFileHeaders(filename), true);
      } else {
        data' := data' + WorkingCopyHeader(filename);
        assert step == Emitted(WorkingCopyHeader(filename), false);
      }
    } else if "new file mode" <= line {
      assert step == Emitted("", newFile);
    } else if "Binary files " <= line {
      data' := data' + BINARY_LINE;
      data' := data' + MIME_LINE;
      AppendAssoc(diffData, BINARY_LINE, MIME_LINE);
      assert step == Emitted(BINARY_NOTICE, newFile);
    } else {
      data' := data' + line;
      assert step == Emitted(line, newFile);
    }
  }

  /** `make_svn_diff`: `None` when `git svn find-rev` prints nothing, and
      otherwise the translation of the lines, accumulated line by line. */
  method MakeSvnDiff(findRevOutput: string, diffLines: seq<string>) returns (r: Option<string>)
    requires Strip(findRevOutput) != "" ==> AllIndexable(diffLines)
    ensures r == SvnDiffOf(findRevOutput, diffLines)
    ensures r.None? <==> Strip(findRevOutput) == ""
  {
    var rev := Strip(findRevOutput);
    if rev == "" {
      return None;
    }
    var diffData := "";
    var newFile := false;
    var i := 0;
    assert diffLines[0..] == diffLines;
    assert "" + Translate(rev, false, diffLines).text == Translate(rev, false, diffLines).text;
    while i < |diffLines|
      invariant 0 <= i <= |diffLines|
      invariant Progress(rev, diffLines, i, diffData, newFile)
    {
      ProgressStep(rev, diffLines, i, diffData, newFile);
      diffData, newFile := AppendLine(rev, diffData, newFile, diffLines[i]);
      i := i + 1;
    }
    assert Translate(rev, newFile, diffLines[i..]) == Emitted("", newFile);
    assert diffData + "" == diffData;
    r := Some(diffData);
  }
}
