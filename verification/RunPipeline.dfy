/**
 The verdict of the allowlist engine on a whole `run:` text
 (ci/actionlint/release_guard.py), and what the V19 row guarantees about every command
 segment of a text it accepts.
 */
module RunPipeline {
  import opened Text
  import opened Folds
  import opened CommandLines
  import opened Assignments
  import opened Allowlist
  import opened RunText

  // ----- One logical line -----

  /** The line is exactly `NAME="$(inner)"`, with a name of length `n`. */
  ghost predicate IsWrapped(text: string, n: int, inner: string) {
    0 < n <= |text| && IsName(text[..n]) && text == text[..n] + ("=\"$(" + (inner + ")\""))
  }

  /** The inside of a line that is exactly `NAME="$(...)"`. */
  function Unwrap(text: string): Option<string> {
    var n := NameLength(text);
    if text != "" && IsNameStart(text[0]) && StartsWith(text[n..], "=\"$(") && EndsWith(text, ")\"") && n + 6 <= |text|
    then Some(text[n + 4..|text| - 2]) else None
  }

  lemma WrappedIsUnwrapped(text: string, n: int, inner: string)
    requires IsWrapped(text, n, inner)
    ensures Unwrap(text) == Some(inner)
  {
    var open, close := "=\"$(", ")\"";
    var tail := open + (inner + close);
    assert text[n] == tail[0] && text[n..] == tail;
    NameEnds(text, n);
    assert text[n..][..4] == open;
    assert text[|text| - 2..] == tail[|tail| - 2..] == close;
    assert text[n + 4..|text| - 2] == tail[4..|tail| - 2] == inner;
  }

  lemma InFour(s: string, a: nat, b: nat, c: nat)
    requires a <= b <= c <= |s|
    ensures s == s[..a] + (s[a..b] + (s[b..c] + s[c..]))
  {
    assert s[a..] == s[a..b] + s[b..];
    assert s[b..] == s[b..c] + s[c..];
  }

  lemma UnwrappedIsWrapped(text: string)
    requires Unwrap(text).Some?
    ensures IsWrapped(text, NameLength(text), Unwrap(text).value)
  {
    var n, m := NameLength(text), |text| - 2;
    assert text[n..][..4] == text[n..n + 4];
    assert text[n] == text[n..][..4][0] == '=';
    NameEnds(text, n);
    InFour(text, n, n + 4, m);
  }

  /** A line is unwrapped exactly when it is one wrapped substitution, and to its inside. */
  lemma UnwrapIsExact(text: string)
    ensures forall n, inner :: IsWrapped(text, n, inner) ==> Unwrap(text) == Some(inner)
    ensures Unwrap(text).Some? ==> exists n :: IsWrapped(text, n, Unwrap(text).value)
  {
    forall n, inner | IsWrapped(text, n, inner) ensures Unwrap(text) == Some(inner) {
      WrappedIsUnwrapped(text, n, inner);
    }
    if Unwrap(text).Some? {
      UnwrappedIsWrapped(text);
    }
  }

  /** A parenthesis outside quotes at or after `k`; `quote` is the quote open there, or a
      blank for none. */
  ghost predicate OpenParen(text: string, k: nat, quote: char)
    decreases |text| - k
  {
    k < |text|
    && (if quote != ' ' then OpenParen(text, k + 1, if text[k] == quote then ' ' else quote)
        else if text[k] == '\'' || text[k] == '"' then OpenParen(text, k + 1, text[k])
        else text[k] == '(' || text[k] == ')' || OpenParen(text, k + 1, ' '))
  }

  function CommandText(line: string): string {
    var text := Trim(line, IsBlank);
    match Unwrap(text)
    case None => text
    case Some(inner) => inner
  }

  /** A dollar sign directly in front of a quote. */
  ghost predicate HasDollarQuote(line: string) {
    exists i :: 0 <= i < |line| - 1 && line[i] == '$' && (line[i + 1] == '\'' || line[i + 1] == '"')
  }

  /** A backtick, or a parenthesis opened behind a dollar sign or an angle bracket. */
  ghost predicate HasSubstitution(text: string) {
    exists i :: 0 <= i < |text| && (text[i] == '`' || (text[i] == '(' && i > 0 && text[i - 1] in "$<>"))
  }

  lemma PairAt(s: string, i: int, a: char, b: char)
    ensures OccursAt(s, [a, b], i) <==> 0 <= i < |s| - 1 && s[i] == a && s[i + 1] == b
  {
    if 0 <= i < |s| - 1 {
      var two := s[i..i + 2];
      assert two[0] == s[i] && two[1] == s[i + 1];
    }
  }

  lemma PairOccurs(s: string, a: char, b: char)
    ensures Contains(s, [a, b]) <==> exists i :: 0 <= i < |s| - 1 && s[i] == a && s[i + 1] == b
  {
    if Contains(s, [a, b]) {
      var i :| 0 <= i <= |s| && OccursAt(s, [a, b], i);
      PairAt(s, i, a, b);
      assert s[i] == a && s[i + 1] == b;
    }
    if i :| 0 <= i < |s| - 1 && s[i] == a && s[i + 1] == b {
      PairAt(s, i, a, b);
      assert OccursAt(s, [a, b], i);
    }
  }

  lemma CharOccurs(s: string, a: char)
    ensures Contains(s, [a]) <==> a in s
  {
    if Contains(s, [a]) {
      var i :| 0 <= i <= |s| && OccursAt(s, [a], i);
      assert s[i..i + 1][0] == a;
    }
    if a in s {
      var i :| 0 <= i < |s| && s[i] == a;
      assert s[i..i + 1] == [a];
      assert OccursAt(s, [a], i);
    }
  }

  method FindDollarQuote(line: string) returns (found: bool)
    ensures found <==> HasDollarQuote(line)
  {
    PairOccurs(line, '$', '\'');
    PairOccurs(line, '$', '"');
    found := Contains(line, "$'") || Contains(line, "$\"");
  }

  lemma BeforeParen(s: string, a: char)
    ensures Contains(s, [a, '(']) <==> exists i :: 0 < i < |s| && s[i] == '(' && s[i - 1] == a
  {
    PairOccurs(s, a, '(');
    if i :| 0 <= i < |s| - 1 && s[i] == a && s[i + 1] == '(' {
      assert s[(i + 1) - 1] == a;
    }
    if i :| 0 < i < |s| && s[i] == '(' && s[i - 1] == a {
      assert s[(i - 1) + 1] == '(';
    }
  }

  method FindSubstitution(text: string) returns (found: bool)
    ensures found <==> HasSubstitution(text)
  {
    BeforeParen(text, '$');
    BeforeParen(text, '<');
    BeforeParen(text, '>');
    CharOccurs(text, '`');
    found := Contains(text, "$(") || Contains(text, "`") || Contains(text, "<(") || Contains(text, ">(");
  }

  ghost predicate WrapOk(text: string) {
    match Unwrap(text)
    case None => true
    case Some(inner) => '\\' !in inner && !OpenParen(inner, 0, ' ')
  }

  /** The line is one that V18 can read: it holds no quoting or substitution it does not
      parse, and no quote is left open. */
  ghost predicate LineReadable(line: string) {
    !HasDollarQuote(line) && WrapOk(Trim(line, IsBlank))
    && !HasSubstitution(CommandText(line)) && !Unterminated(CommandText(line))
  }

  ghost function LineCommands(line: string): seq<string> {
    NonBlank(Segments(CommandText(line), 0))
  }

  method FindOpenParen(text: string) returns (found: bool)
    ensures found <==> OpenParen(text, 0, ' ')
  {
    var quote := ' ';
    for k := 0 to |text|
      invariant OpenParen(text, 0, ' ') <==> OpenParen(text, k, quote)
    {
      var c := text[k];
      if quote != ' ' {
        if c == quote {
          quote := ' ';
        }
      } else if c == '\'' || c == '"' {
        quote := c;
      } else if c == '(' || c == ')' {
        return true;
      }
    }
    return false;
  }

  /** `v18_line_segments`. */
  method ReadLine(line: string) returns (r: SplitResult, seps: seq<string>)
    ensures r.Refused? <==> !LineReadable(line)
    ensures r.Commands? ==> r.segs == LineCommands(line) && seps == Separators(CommandText(line), 0)
  {
    var text := Trim(line, IsBlank);
    var quoting := FindDollarQuote(line);
    if quoting {
      return Refused, [];
    }
    var wrapped := Unwrap(text);
    if wrapped.Some? {
      text := wrapped.value;
      if '\\' in text {
        return Refused, [];
      }
      var open := FindOpenParen(text);
      if open {
        return Refused, [];
      }
    }
    var substitution := FindSubstitution(text);
    if substitution {
      return Refused, [];
    }
    r, seps := SplitLine(text);
  }

  // ----- The run text -----

  /** A wrapped substitution assigned to a GITHUB_* name. */
  ghost predicate WrapsGithub(line: string) {
    exists n, inner :: IsWrapped(Trim(line, IsBlank), n, inner) && StartsWith(Trim(line, IsBlank)[..n], "GITHUB_")
  }

  lemma PrefixInFront(text: string, prefix: string, n: nat)
    requires n < |text| && text[n] !in prefix
    ensures StartsWith(text, prefix) <==> StartsWith(text[..n], prefix)
  {
    if StartsWith(text, prefix) {
      assert forall i :: 0 <= i < |prefix| ==> text[i] == prefix[i];
      assert text[..n][..|prefix|] == text[..|prefix|];
    }
    if StartsWith(text[..n], prefix) {
      assert text[..|prefix|] == text[..n][..|prefix|];
    }
  }

  lemma WrappedName(text: string, n: int, inner: string)
    requires IsWrapped(text, n, inner)
    ensures n < |text| && text[n] == '='
    ensures StartsWith(text, "GITHUB_") <==> StartsWith(text[..n], "GITHUB_")
  {
    assert text[n..][0] == '=';
    PrefixInFront(text, "GITHUB_", n);
  }

  lemma WrapsGithubIs(line: string)
    ensures var text := Trim(line, IsBlank); WrapsGithub(line) <==> StartsWith(text, "GITHUB_") && Unwrap(text).Some?
  {
    var text := Trim(line, IsBlank);
    if n, inner :| IsWrapped(text, n, inner) && StartsWith(text[..n], "GITHUB_") {
      WrappedName(text, n, inner);
      WrappedIsUnwrapped(text, n, inner);
    }
    if StartsWith(text, "GITHUB_") && Unwrap(text).Some? {
      UnwrappedIsWrapped(text);
      WrappedName(text, NameLength(text), Unwrap(text).value);
    }
  }

  ghost predicate LineAccepted(line: string, row: Row) {
    && !(row.redirects.Some? && WrapsGithub(line))
    && LineReadable(line)
    && !(row.refuseBackground && "&" in Separators(CommandText(line), 0))
    && AllAccepted(LineCommands(line), row, |LineCommands(line)|)
  }

  /** The row accepts the first `n` commands. */
  ghost predicate AllAccepted(segs: seq<string>, row: Row, n: nat)
    requires n <= |segs|
  {
    forall i :: 0 <= i < n ==> Accepted(segs[i], row)
  }

  /** The row accepts the first `n` lines. */
  ghost predicate AcceptedUpTo(lines: seq<string>, row: Row, n: nat)
    requires n <= |lines|
  {
    AllUpTo((line: string) => LineAccepted(line, row), lines, n)
  }

  /** The row accepts the text. */
  ghost predicate RunAccepted(run: string, row: Row) {
    && (row.redirects.Some? ==> !Contains(run, "${{"))
    && Readable(run)
    && AcceptedUpTo(LogicalLines(run), row, |LogicalLines(run)|)
  }

  datatype Finding =
    | Expression
    | BadText
    | GithubWrap(line: string)
    | BadLine(line: string)
    | Background(line: string)
    | BadSegment(segment: string, why: Why)

  method JudgeSegments(segs: seq<string>, row: Row) returns (out: seq<Finding>)
    requires ValidRow(row)
    ensures out == [] <==> AllAccepted(segs, row, |segs|)
  {
    out := [];
    for i := 0 to |segs|
      invariant out == [] <==> AllAccepted(segs, row, i)
    {
      var why := SegmentVerdict(segs[i], row);
      if why.Some? {
        out := out + [BadSegment(segs[i], why.value)];
      }
    }
  }

  /** The findings on one line. */
  method FindingsOn(line: string, row: Row) returns (out: seq<Finding>)
    requires ValidRow(row)
    ensures out == [] <==> LineAccepted(line, row)
  {
    var text := Trim(line, IsBlank);
    WrapsGithubIs(line);
    if row.redirects.Some? && StartsWith(text, "GITHUB_") && Unwrap(text).Some? {
      return [GithubWrap(line)];
    }
    var r, seps := ReadLine(line);
    if r.Refused? {
      return [BadLine(line)];
    }
    out := [];
    if row.refuseBackground && "&" in seps {
      out := [Background(line)];
    }
    var more := JudgeSegments(r.segs, row);
    out := out + more;
  }

  /** `rule` is the row's verdict on one line. */
  ghost predicate IsLineRule(rule: string -> bool, row: Row) {
    forall line {:trigger LineAccepted(line, row)} :: rule(line) <==> LineAccepted(line, row)
  }

  method JudgeLine(line: string, row: Row, ghost rule: string -> bool) returns (out: seq<Finding>)
    requires ValidRow(row) && IsLineRule(rule, row)
    ensures out == [] <==> rule(line)
  {
    assert rule(line) <==> LineAccepted(line, row);
    out := FindingsOn(line, row);
  }

  method JudgeLines(lines: seq<string>, row: Row, ghost rule: string -> bool) returns (out: seq<Finding>)
    requires ValidRow(row) && IsLineRule(rule, row)
    ensures out == [] <==> AllUpTo(rule, lines, |lines|)
  {
    out := [];
    for i := 0 to |lines|
      invariant out == [] <==> AllUpTo(rule, lines, i)
    {
      var more := JudgeLine(lines[i], row, rule);
      out := out + more;
    }
  }

  /** The `run:` part of `allowlist_job_violations`: no finding exactly for an accepted text. */
  method JudgeRun(run: string, row: Row) returns (out: seq<Finding>)
    requires ValidRow(row)
    ensures out == [] <==> RunAccepted(run, row)
  {
    out := [];
    if row.redirects.Some? && Contains(run, "${{") {
      out := [Expression];
    }
    var logical := ReadLogicalLines(run);
    if logical.Rejected? {
      return out + [BadText];
    }
    ghost var rule := (line: string) => LineAccepted(line, row);
    var more := JudgeLines(logical.lines, row, rule);
    out := out + more;
  }

  // ----- What acceptance guarantees -----

  /** Every segment that a readable line leaves is a single command: it splits again to just
      itself, its quotes are closed and it is not blank. */
  lemma {:induction false} CommandsAreAtomic(line: string, seg: string)
    requires LineReadable(line) && seg in LineCommands(line)
    ensures Segments(seg, 0) == [seg] && !Unterminated(seg) && !IsBlankText(seg)
  {
    var text := CommandText(line);
    var i :| 0 <= i < |Segments(text, 0)| && Segments(text, 0)[i] == seg;
    SegmentsAreAtomic(text, 0, i);
  }

  /** Outside quotes and escapes nothing separates commands: no semicolon, no bar, and no ampersand
      but one that touches a redirection. */
  ghost predicate IsOneCommand(seg: string) {
    forall k :: 0 <= k < |seg| && ModeAt(seg, k).Code? ==> IsNoSeparator(seg, k)
  }

  ghost predicate IsNoSeparator(seg: string, k: int)
    requires 0 <= k < |seg|
  {
    && seg[k] != ';' && seg[k] != '|'
    && (seg[k] == '&' ==> (k > 0 && (seg[k - 1] == '<' || seg[k - 1] == '>')) || (k + 1 < |seg| && seg[k + 1] == '>'))
  }

  lemma OneSegmentNoCut(seg: string)
    ensures |Segments(seg, 0)| == 1 ==> NextCut(seg, 0) == |seg|
  {
  }

  lemma NoSeparatorIs(seg: string, k: int)
    requires 0 <= k < |seg|
    ensures Separates(seg, k) <==> !IsNoSeparator(seg, k)
  {
  }

  lemma AtomicIsOneCommand(seg: string)
    requires Segments(seg, 0) == [seg]
    ensures IsOneCommand(seg)
  {
    OneSegmentNoCut(seg);
    forall k | 0 <= k < |seg| && ModeAt(seg, k).Code? ensures IsNoSeparator(seg, k) {
      assert !CutAt(seg, k);
      NoSeparatorIs(seg, k);
    }
  }

  /** Allowlist soundness through the whole pipeline: in any `run:` text that the V19 row
      accepts, no line holds a comment, a substitution or a command sent to the background, and
      every segment left after joining, unwrapping and splitting is a single command; it consists
      of assignments only, none to a GITHUB_* name, or it is one of the row's commands with no
      assignment in front, redirected nowhere but to the step's output file; `release-plz` is
      `release-plz release`, in plain words, with `--no-verify` before any `--`; and `set` takes
      only listed words. */
  lemma {:induction false} V19Soundness(run: string, line: string, seg: string)
    requires RunAccepted(run, V19_ROW) && line in LogicalLines(run) && seg in LineCommands(line)
    ensures '#' !in line && !HasSubstitution(CommandText(line)) && "&" !in Separators(CommandText(line), 0)
    ensures IsOneCommand(seg) && IsV19Segment(seg)
  {
    AllMeans((line: string) => LineAccepted(line, V19_ROW), LogicalLines(run));
    assert LineAccepted(line, V19_ROW);
    CommandsAreAtomic(line, seg);
    AtomicIsOneCommand(seg);
    V19AcceptsOnly(seg);
    LinesHoldNoComment(Split(run, '\n'), "", false);
  }

  /** The same for the verify job: in any `run:` text that the V20 row accepts, no line holds a
      substitution or sends a command to the background, and every segment is a single command,
      either assignments only or the verify command. */
  lemma {:induction false} V20Soundness(run: string, line: string, seg: string)
    requires RunAccepted(run, V20_ROW) && line in LogicalLines(run) && seg in LineCommands(line)
    ensures '#' !in line && !HasSubstitution(CommandText(line)) && "&" !in Separators(CommandText(line), 0)
    ensures IsOneCommand(seg) && IsV20Segment(seg)
  {
    AllMeans((line: string) => LineAccepted(line, V20_ROW), LogicalLines(run));
    assert LineAccepted(line, V20_ROW);
    CommandsAreAtomic(line, seg);
    AtomicIsOneCommand(seg);
    V20AcceptsOnly(seg);
    LinesHoldNoComment(Split(run, '\n'), "", false);
  }
}
