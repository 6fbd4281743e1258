/** The yamllint wrapper of `scripts/ci/lint_yaml.py`: the command it runs, the
    conversion of yamllint's parsable output into GitLab Code Quality issues,
    and the exit-code policy of `run_yamllint`.

    The line pattern `file:line:col: [severity] message (rule)` is a backtracking
    regular expression in the script; here it is an explicit parser (`ParseLine`)
    proved equal to the regex's choice: among all ways to read a line as
    `Render(f)`, the one with the shortest file and then the shortest message. */
module LintYaml {
  import opened Wrappers
  import opened Text

  datatype OutputFormat = Standard | Parsable | Gitlab

  const BaseCommand: seq<string> := ["yamllint", ".", "--strict"]
  const ParsableFlags: seq<string> := ["--format", "parsable"]

  /** `_build_command`: the fixed prefix, plus `--format parsable` for the two
      formats that need machine-readable output. */
  method BuildCommand(format: OutputFormat) returns (cmd: seq<string>)
    ensures |cmd| >= 3 && cmd[..3] == BaseCommand
    ensures format == Standard ==> cmd == BaseCommand
    ensures format != Standard ==> cmd[3..] == ParsableFlags
  {
    cmd := BaseCommand;
    if format == Gitlab {
      cmd := cmd + ParsableFlags;
    } else if format == Parsable {
      cmd := cmd + ParsableFlags;
    }
  }

  // ---------------------------------------------------------------------
  // The fields of one parsable line and how they are laid out.

  /** `\w` on ASCII: letters, digits and underscore. */
  predicate IsWordChar(c: char) {
    IsDigit(c) || 'a' <= c <= 'z' || 'A' <= c <= 'Z' || c == '_'
  }

  predicate AllWord(s: string) {
    forall i :: 0 <= i < |s| ==> IsWordChar(s[i])
  }

  datatype Fields = Fields(file: string, line: string, column: string,
                           severity: string, message: string, rule: string)

  const LineSep: string := ":"
  const LevelOpen: string := ": ["
  const LevelClose: string := "] "
  const RuleOpen: string := " ("
  const RuleClose: string := ")"

  /** Every group is non-empty; line and column are `\d+`, severity is `\w+`. */
  predicate TailFormed(f: Fields) {
    |f.line| > 0 && AllDigits(f.line) && |f.column| > 0 && AllDigits(f.column)
    && |f.severity| > 0 && AllWord(f.severity) && |f.message| > 0 && |f.rule| > 0
  }

  predicate WellFormed(f: Fields) {
    |f.file| > 0 && TailFormed(f)
  }

  function MessageRule(message: string, rule: string): string {
    message + (RuleOpen + (rule + RuleClose))
  }

  /** Everything after the file name's colon, grouped as it is read. */
  function Tail(f: Fields): string {
    f.line + (LineSep + (f.column + (LevelOpen + (f.severity + (LevelClose + MessageRule(f.message, f.rule))))))
  }

  /** The line yamllint prints for these fields. */
  function Render(f: Fields): string {
    f.file + (LineSep + Tail(f))
  }

  // ---------------------------------------------------------------------
  // The parser.

  /** A non-empty greedy run of `p`-characters that `sep` follows directly:
      the run and the text after `sep`. */
  function ReadRun(s: string, p: char -> bool, sep: string): (r: Option<(string, string)>)
    ensures r.Some? ==> |r.value.0| > 0 && forall i :: 0 <= i < |r.value.0| ==> p(r.value.0[i])
  {
    var n := Run(s, p);
    if n > 0 && StartsWith(s[n..], sep) then Some((s[..n], s[n + |sep|..])) else None
  }

  lemma ReadRunSound(s: string, p: char -> bool, sep: string)
    requires ReadRun(s, p, sep).Some?
    ensures s == ReadRun(s, p, sep).value.0 + (sep + ReadRun(s, p, sep).value.1)
  {
    var n := Run(s, p);
    assert s == s[..n] + s[n..];
    assert s[n..] == sep + s[n + |sep|..];
  }

  /** The run cannot stop early or run on: a separator outside the class
      fixes where it ends. */
  lemma ReadRunComplete(a: string, sep: string, b: string, p: char -> bool)
    requires |a| > 0 && forall i :: 0 <= i < |a| ==> p(a[i])
    requires |sep| > 0 && !p(sep[0])
    ensures ReadRun(a + (sep + b), p, sep) == Some((a, b))
  {
    var s := a + (sep + b);
    assert s == a + [sep[0]] + (sep[1..] + b);
    RunStops(a, sep[0], sep[1..] + b, p);
    assert s[..|a|] == a;
    assert s[|a|..] == sep + b;
    assert s[|a| + |sep|..] == b;
  }

  predicate OpensRule(t: string, j: nat) {
    j + 1 < |t| && t[j] == ' ' && t[j + 1] == '('
  }

  /** The first ` (` at or after `j` that leaves room for a one-character rule
      and the closing parenthesis. */
  function FirstOpen(t: string, j: nat): (r: Option<nat>)
    ensures r.Some? ==> j <= r.value && r.value + 4 <= |t| && OpensRule(t, r.value)
    ensures forall i :: j <= i && i + 4 <= |t| && (r.None? || i < r.value) ==> !OpensRule(t, i)
    decreases |t| - j
  {
    if j + 4 > |t| then None
    else if OpensRule(t, j) then Some(j)
    else FirstOpen(t, j + 1)
  }

  /** `(.+?) \((.+?)\)$`: the lazy message ends at the first ` (` that still
      leaves a non-empty rule; the rule then runs to the final `)`. */
  function SplitMessage(t: string): (r: Option<(string, string)>)
    ensures r.Some? ==> |r.value.0| > 0 && |r.value.1| > 0
  {
    if |t| >= 4 && t[|t| - 1] == ')' then
      match FirstOpen(t, 1)
      case Some(j) => Some((t[..j], t[j + 2..|t| - 1]))
      case None => None
    else None
  }

  /** `(\d+):(\d+): \[(\w+)\] ` followed by the message and rule. The file
      field is left empty; `ParseLine` fills it in. */
  function ParseTail(s: string): (r: Option<Fields>)
    ensures r.Some? ==> r.value.file == "" && TailFormed(r.value)
  {
    var line := ReadRun(s, IsDigit, LineSep);
    if line.None? then None else
    var column := ReadRun(line.value.1, IsDigit, LevelOpen);
    if column.None? then None else
    var severity := ReadRun(column.value.1, IsWordChar, LevelClose);
    if severity.None? then None else
    var mu := SplitMessage(severity.value.1);
    if mu.None? then None else
    Some(Fields("", line.value.0, column.value.0, severity.value.0, mu.value.0, mu.value.1))
  }

  /** The file part may end at colon `q`: the rest of the pattern (`tail`)
      matches what follows it. */
  predicate FileEndsAt(line: string, q: nat, tail: string -> Option<Fields>) {
    q < |line| && line[q] == ':' && tail(line[q + 1..]).Some?
  }

  /** The lazy `(.+?):`: the first colon, after at least one character, at
      which the file part may end. */
  function FindFile(line: string, p: nat, tail: string -> Option<Fields>): (r: Option<nat>)
    ensures r.Some? ==> p <= r.value && FileEndsAt(line, r.value, tail)
    ensures forall q :: p <= q && (r.None? || q < r.value) ==> !FileEndsAt(line, q, tail)
    decreases |line| - p
  {
    if p >= |line| then None
    else if FileEndsAt(line, p, tail) then Some(p)
    else FindFile(line, p + 1, tail)
  }

  /** `re.match(pattern, line)` on a line without a newline character (every
      line the converter sees, since it splits on newlines). */
  function ParseLine(line: string): (r: Option<Fields>)
    ensures r.Some? ==> WellFormed(r.value)
  {
    match FindFile(line, 1, ParseTail)
    case None => None
    case Some(p) => Some(ParseTail(line[p + 1..]).value.(file := line[..p]))
  }

  // ---------------------------------------------------------------------
  // The parser agrees with the layout: soundness, completeness, and the
  // lazy choice.

  lemma SplitMessageSound(t: string)
    requires SplitMessage(t).Some?
    ensures MessageRule(SplitMessage(t).value.0, SplitMessage(t).value.1) == t
  {
    var j := FirstOpen(t, 1).value;
    var m, u := t[..j], t[j + 2..|t| - 1];
    assert t == m + [t[j], t[j + 1]] + u + [t[|t| - 1]];
  }

  /** Any reading `t == m + " (" + u + ")"` with non-empty parts is found, and
      the message found is no longer than `m`. */
  lemma SplitMessageLeast(t: string, m: string, u: string)
    requires |m| > 0 && |u| > 0 && t == MessageRule(m, u)
    ensures SplitMessage(t).Some? && |SplitMessage(t).value.0| <= |m|
  {
    assert t[|m|] == ' ' && t[|m| + 1] == '(';
    assert OpensRule(t, |m|);
    assert t[|t| - 1] == ')';
  }

  lemma ParseTailSound(s: string)
    requires ParseTail(s).Some?
    ensures Tail(ParseTail(s).value) == s
  {
    var r1 := ReadRun(s, IsDigit, LineSep).value;
    ReadRunSound(s, IsDigit, LineSep);
    var r2 := ReadRun(r1.1, IsDigit, LevelOpen).value;
    ReadRunSound(r1.1, IsDigit, LevelOpen);
    var r3 := ReadRun(r2.1, IsWordChar, LevelClose).value;
    ReadRunSound(r2.1, IsWordChar, LevelClose);
    SplitMessageSound(r3.1);
  }

  /** Given a tail laid out from `f`, the parser recovers `f`'s line, column and
      severity exactly (greedy runs cannot stop early) and a message no longer
      than `f`'s. */
  lemma ParseTailComplete(f: Fields)
    requires TailFormed(f)
    ensures ParseTail(Tail(f)).Some?
    ensures var g := ParseTail(Tail(f)).value;
      g.line == f.line && g.column == f.column && g.severity == f.severity
      && |g.message| <= |f.message|
  {
    var t := MessageRule(f.message, f.rule);
    var s3 := f.severity + (LevelClose + t);
    var s2 := f.column + (LevelOpen + s3);
    ReadRunComplete(f.line, LineSep, s2, IsDigit);
    ReadRunComplete(f.column, LevelOpen, s3, IsDigit);
    ReadRunComplete(f.severity, LevelClose, t, IsWordChar);
    SplitMessageLeast(t, f.message, f.rule);
    var mu := SplitMessage(t).value;
    assert Tail(f) == f.line + (LineSep + s2);
    assert ReadRun(Tail(f), IsDigit, LineSep) == Some((f.line, s2));
    assert ReadRun(s2, IsDigit, LevelOpen) == Some((f.column, s3));
    assert ReadRun(s3, IsWordChar, LevelClose) == Some((f.severity, t));
    assert ParseTail(Tail(f)) == Some(Fields("", f.line, f.column, f.severity, mu.0, mu.1));
  }

  /** Whatever `ParseLine` returns is a well-formed reading of the line. */
  lemma ParseLineSound(line: string)
    requires ParseLine(line).Some?
    ensures Render(ParseLine(line).value) == line
  {
    var p := FindFile(line, 1, ParseTail).value;
    var rest := line[p + 1..];
    assert FileEndsAt(line, p, ParseTail);
    assert ParseTail(rest).Some?;
    var h := ParseTail(rest).value;
    ParseTailSound(rest);
    var g := h.(file := line[..p]);
    assert ParseLine(line) == Some(g);
    assert Tail(g) == Tail(h) by {
      assert g.line == h.line && g.column == h.column && g.severity == h.severity;
      assert g.message == h.message && g.rule == h.rule;
    }
    SplitAround(line, p);
    assert [line[p]] == LineSep;
    AppendAssoc(line[..p], LineSep, rest);
    assert Render(g) == line[..p] + (LineSep + rest);
  }

  /** Every well-formed reading of a line is matched, and the match is the
      leftmost-lazy one: its file is no longer, and with the same file the
      line, column and severity agree and its message is no longer. */
  lemma ParseLineLeast(line: string, f: Fields)
    requires WellFormed(f) && Render(f) == line
    ensures ParseLine(line).Some?
    ensures var g := ParseLine(line).value;
      |g.file| <= |f.file|
      && (|g.file| == |f.file| ==>
            g.file == f.file && g.line == f.line && g.column == f.column
            && g.severity == f.severity && |g.message| <= |f.message|)
  {
    var p := |f.file|;
    assert line == f.file + [':'] + Tail(f);
    assert line[p] == ':' && line[p + 1..] == Tail(f) && line[..p] == f.file;
    ParseTailComplete(f);
    assert FileEndsAt(line, p, ParseTail);
    var q := FindFile(line, 1, ParseTail);
    assert q.Some? && q.value <= p;
  }

  /** A line with no `:` at all is not an issue. */
  lemma NoColonNoMatch(line: string)
    requires ':' !in line
    ensures ParseLine(line).None?
  {
    forall q | 0 <= q < |line|
      ensures line[q] != ':'
    {
      assert line[q] in line;
    }
  }

  // ---------------------------------------------------------------------
  // Code Quality issues.

  datatype Issue = Issue(description: string, checkName: string, fingerprint: string,
                         severity: string, path: string, beginLine: nat)

  /** The record `_convert_to_gitlab_format` appends for one matched line. */
  function IssueOf(f: Fields): (issue: Issue)
    requires WellFormed(f)
  {
    Issue(MessageRule(f.message, f.rule),
          "yamllint/" + f.rule,
          f.file + LineSep + f.line + LineSep + f.column + LineSep + f.rule,
          if f.severity == "error" then "major" else "minor",
          f.file,
          DecimalValue(f.line))
  }

  /** The issue of a line carries the line back: it starts with the path and a
      colon, and ends with the description; only `error` is major. */
  lemma IssueRecoversLine(f: Fields)
    requires WellFormed(f)
    ensures StartsWith(Render(f), IssueOf(f).path + LineSep)
    ensures EndsWith(Render(f), IssueOf(f).description)
    ensures IssueOf(f).severity == "major" <==> f.severity == "error"
    ensures IssueOf(f).beginLine == DecimalValue(f.line)
  {
    var d := MessageRule(f.message, f.rule);
    EndsWithConcat(LevelClose, d);
    EndsWithPrepend(f.severity, LevelClose + d, d);
    EndsWithPrepend(LevelOpen, f.severity + (LevelClose + d), d);
    EndsWithPrepend(f.column, LevelOpen + (f.severity + (LevelClose + d)), d);
    EndsWithPrepend(LineSep, f.column + (LevelOpen + (f.severity + (LevelClose + d))), d);
    EndsWithPrepend(f.line, LineSep + (f.column + (LevelOpen + (f.severity + (LevelClose + d)))), d);
    assert EndsWith(Tail(f), d);
    EndsWithPrepend(LineSep, Tail(f), d);
    EndsWithPrepend(f.file, LineSep + Tail(f), d);
    AppendAssoc(f.file, LineSep, Tail(f));
    StartsWithConcat(f.file + LineSep, Tail(f));
  }

  /** What a single output line contributes: nothing when blank or not
      matching, otherwise exactly its issue. */
  function IssuesOfLine(line: string): (r: seq<Issue>)
    ensures |r| <= 1
  {
    if line == "" then []
    else match ParseLine(line)
      case None => []
      case Some(f) => [IssueOf(f)]
  }

  /** The contributions of the lines, laid end to end in line order. */
  function ConcatMap(lines: seq<string>, per: string -> seq<Issue>): seq<Issue>
    decreases |lines|
  {
    if |lines| == 0 then [] else ConcatMap(lines[..|lines| - 1], per) + per(lines[|lines| - 1])
  }

  function IssuesOf(lines: seq<string>): seq<Issue> {
    ConcatMap(lines, IssuesOfLine)
  }

  lemma {:induction false} ConcatMapAppend(a: seq<string>, b: seq<string>, per: string -> seq<Issue>)
    ensures ConcatMap(a + b, per) == ConcatMap(a, per) + ConcatMap(b, per)
    decreases |b|
  {
    if |b| == 0 {
      assert a + b == a;
    } else {
      var n := |b| - 1;
      ConcatMapAppend(a, b[..n], per);
      assert (a + b)[..|a + b| - 1] == a + b[..n];
      assert (a + b)[|a + b| - 1] == b[n];
      AppendAssoc(ConcatMap(a, per), ConcatMap(b[..n], per), per(b[n]));
    }
  }

  /** One more line adds that line's contribution at the end. */
  lemma IssuesOfSnoc(lines: seq<string>, i: nat)
    requires i < |lines|
    ensures IssuesOf(lines[..i + 1]) == IssuesOf(lines[..i]) + IssuesOfLine(lines[i])
  {
    var pre := lines[..i + 1];
    assert pre[..|pre| - 1] == lines[..i];
    assert pre[|pre| - 1] == lines[i];
  }

  /** Issues come out in the order of their lines: converting two runs of lines
      is converting each and concatenating. */
  lemma IssuesOfAppend(a: seq<string>, b: seq<string>)
    ensures IssuesOf(a + b) == IssuesOf(a) + IssuesOf(b)
  {
    ConcatMapAppend(a, b, IssuesOfLine);
  }

  lemma {:induction false} ConcatMapBound(lines: seq<string>, per: string -> seq<Issue>)
    requires forall line :: |per(line)| <= 1
    ensures |ConcatMap(lines, per)| <= |lines|
    decreases |lines|
  {
    if |lines| > 0 {
      ConcatMapBound(lines[..|lines| - 1], per);
    }
  }

  /** At most one issue per line. */
  lemma IssuesOfBound(lines: seq<string>)
    ensures |IssuesOf(lines)| <= |lines|
  {
    ConcatMapBound(lines, IssuesOfLine);
  }

  lemma {:induction false} ConcatMapNone(lines: seq<string>, per: string -> seq<Issue>)
    requires forall i :: 0 <= i < |lines| ==> per(lines[i]) == []
    ensures ConcatMap(lines, per) == []
    decreases |lines|
  {
    if |lines| > 0 {
      var n := |lines| - 1;
      assert forall i :: 0 <= i < n ==> lines[..n][i] == lines[i];
      ConcatMapNone(lines[..n], per);
    }
  }

  /** Output in which no line matches yields an empty report. */
  lemma NoMatchNoIssues(lines: seq<string>)
    requires forall i :: 0 <= i < |lines| ==> ParseLine(lines[i]).None?
    ensures IssuesOf(lines) == []
  {
    ConcatMapNone(lines, IssuesOfLine);
  }

  /** `_convert_to_gitlab_format`, up to the JSON text: the issues of the
      stripped output's lines, in order. */
  method ConvertToGitlab(output: string) returns (issues: seq<Issue>)
    ensures issues == IssuesOf(Split(Strip(output), '\n'))
  {
    var lines := Split(Strip(output), '\n');
    issues := [];
    for i := 0 to |lines|
      invariant issues == IssuesOf(lines[..i])
    {
      IssuesOfSnoc(lines, i);
      var line := lines[i];
      if line == "" {
        continue;
      }
      var m := ParseLine(line);
      if m.Some? {
        issues := issues + [IssueOf(m.value)];
      }
    }
    TakeAll(lines);
  }

  // ---------------------------------------------------------------------
  // run_yamllint

  /** What running the built command produced: its exit code and standard
      output, a timeout, or any other exception. */
  datatype LintOutcome = Completed(returnCode: int, stdout: string) | TimedOut | Raised

  /** `run_yamllint`: exit 1 when yamllint is missing. Then `yamllint
      --version` runs; its failure or timeout only warns, but when it cannot
      start at all (`versionStarts` false) the `OSError` escapes, the script
      stops with exit status 1 and the lint command never runs. Otherwise run
      the built command (`yamllint` maps a command to what running it
      produced) and exit 1 when it times out or fails to run, with yamllint's
      own exit code otherwise. In `gitlab` format a completed run also yields
      the converted issue list. `ran` is the lint command run, if any. */
  method RunYamllint(format: OutputFormat, available: bool, versionStarts: bool, yamllint: seq<string> -> LintOutcome)
    returns (code: int, report: Option<seq<Issue>>, ran: Option<seq<string>>)
    ensures !(available && versionStarts) ==> code == 1 && report.None? && ran.None?
    ensures ran.Some? <==> available && versionStarts
    ensures ran.Some? ==> |ran.value| >= 3 && ran.value[..3] == BaseCommand
    ensures ran.Some? && format == Standard ==> ran.value == BaseCommand
    ensures ran.Some? && format != Standard ==> ran.value[3..] == ParsableFlags
    ensures ran.Some? && yamllint(ran.value).Completed? ==> code == yamllint(ran.value).returnCode
    ensures ran.Some? && !yamllint(ran.value).Completed? ==> code == 1
    ensures report.Some? <==> ran.Some? && format == Gitlab && yamllint(ran.value).Completed?
    ensures report.Some? ==> report.value == IssuesOf(Split(Strip(yamllint(ran.value).stdout), '\n'))
  {
    if !available || !versionStarts {
      return 1, None, None;
    }
    var cmd := BuildCommand(format);
    ran := Some(cmd);
    report := None;
    match yamllint(cmd)
    case Completed(rc, out) =>
      if format == Gitlab {
        var issues := ConvertToGitlab(out);
        report := Some(issues);
      }
      code := rc;
    case TimedOut =>
      code := 1;
    case Raised =>
      code := 1;
  }
}
