/**
 A step's `run:` text on its way through the allowlist engine
 (ci/actionlint/release_guard.py): physical lines are joined to logical lines, a wrapped
 substitution is unwrapped, the line is split into segments, and every segment is judged.
 */
module RunText {
  import opened Text

  // ----- Logical lines -----

  /** A character that bash and Python read differently: white space to Python and not to bash, a
      control character, or the invisible U+FEFF. */
  ghost predicate IsBadChar(c: char) {
    c != ' ' && c != '\t' && c != '\n' && (IsSpace(c) || c < ' ' || c == '\U{7F}' || c == '\U{FEFF}')
  }

  /** The first character that is no blank is `#`. */
  ghost predicate IsCommentLine(raw: string) {
    exists k :: 0 <= k < |raw| && raw[k] == '#' && forall i :: 0 <= i < k ==> raw[i] == ' ' || raw[i] == '\t'
  }

  /** The last character that is no blank is a backslash. */
  ghost predicate EndsInBackslash(raw: string) {
    exists k :: 0 <= k < |raw| && raw[k] == '\\' && forall i :: k < i < |raw| ==> raw[i] == ' ' || raw[i] == '\t'
  }

  /** The line ends in an odd run of backslashes. */
  ghost predicate Continues(raw: string) {
    RunBefore(raw, |raw|) % 2 == 1
  }

  lemma CommentIsFirst(raw: string)
    ensures IsCommentLine(raw) <==> StartsWith(TrimLeft(raw, IsBlank), "#")
  {
    var left := TrimLeft(raw, IsBlank);
    var k := |raw| - |left|;
    if left != "" {
      assert left[0] == raw[k] && left[..1] == [left[0]];
    }
    if left != "" && left[0] == '#' {
      assert raw[k] == '#';
    }
  }

  lemma BackslashIsLast(raw: string)
    ensures EndsInBackslash(raw) <==> EndsWith(TrimRight(raw, IsBlank), "\\")
  {
    var right := TrimRight(raw, IsBlank);
    var k := |right| - 1;
    if right != "" {
      assert right[k] == raw[k] && right[k..] == [right[k]];
    }
    if right != "" && right[k] == '\\' {
      assert raw[k] == '\\';
    }
  }

  lemma {:induction false} RunIsStripped(raw: string)
    ensures RunBefore(raw, |raw|) == |raw| - |TrimRight(raw, c => c == '\\')|
  {
    if raw != "" && raw[|raw| - 1] == '\\' {
      var init := raw[..|raw| - 1];
      RunIsStripped(init);
      RunOfPrefix(raw, |init|, |init|);
    }
  }

  lemma {:induction false} RunOfPrefix(s: string, n: nat, i: nat)
    requires i <= n <= |s|
    ensures RunBefore(s[..n], i) == RunBefore(s, i)
  {
    if i > 0 && s[i - 1] == '\\' {
      RunOfPrefix(s, n, i - 1);
    }
  }

  /** The physical line has no `#` that V18 does not understand. */
  ghost predicate HashOk(raw: string, continued: bool) {
    if !continued && IsCommentLine(raw) then !EndsInBackslash(raw) else '#' !in raw
  }

  /** What one physical line contributes. */
  datatype Part = Dropped | Joined(text: string) | Ended(text: string)

  ghost function PartOf(raw: string, continued: bool): Part {
    if IsDropped(raw, continued) then Dropped
    else if Continues(raw) then Joined(raw[..|raw| - 1])
    else Ended(raw)
  }

  /** Some physical line is refused; `continued` says whether the first one continues the
      line before it. */
  ghost predicate Unreadable(phys: seq<string>, continued: bool) {
    phys != []
    && (!HashOk(phys[0], continued) || Unreadable(phys[1..], PartOf(phys[0], continued).Joined?))
  }

  ghost predicate IsDropped(raw: string, continued: bool) {
    !continued && IsCommentLine(raw)
  }

  /** The logical lines: a comment line is dropped, and a line that ends in an odd number of
      backslashes is joined, without the last one, to the line behind it. */
  ghost function JoinLines(phys: seq<string>, buf: string, continued: bool): seq<string>
    decreases |phys|
  {
    if phys == [] then (if buf == "" then [] else [buf])
    else
      match PartOf(phys[0], continued)
      case Dropped => JoinLines(phys[1..], buf, false)
      case Joined(text) => JoinLines(phys[1..], buf + text, true)
      case Ended(text) => [buf + text] + JoinLines(phys[1..], "", false)
  }

  datatype Logical = Rejected | Lines(lines: seq<string>)

  /** `_v18_bad_char`. */
  method BadChar(run: string) returns (bad: bool)
    ensures bad <==> exists i :: 0 <= i < |run| && IsBadChar(run[i])
  {
    for i := 0 to |run|
      invariant forall j :: 0 <= j < i ==> !IsBadChar(run[j])
    {
      var c := run[i];
      var control := c <= '\U{08}' || '\U{0B}' <= c <= '\U{1F}' || c == '\U{7F}' || c == '\U{85}' || c == '\U{A0}'
                     || c == '\U{2028}' || c == '\U{2029}' || c == '\U{FEFF}';
      if control || (IsSpace(c) && c !in " \t\n") {
        return true;
      }
    }
    return false;
  }

  ghost predicate Readable(run: string) {
    (forall i :: 0 <= i < |run| ==> !IsBadChar(run[i])) && !Unreadable(Split(run, '\n'), false)
  }

  ghost function LogicalLines(run: string): seq<string> {
    JoinLines(Split(run, '\n'), "", false)
  }

  method StartsComment(raw: string) returns (yes: bool)
    ensures yes <==> IsCommentLine(raw)
  {
    CommentIsFirst(raw);
    yes := StartsWith(TrimLeft(raw, IsBlank), "#");
  }

  method BackslashLast(raw: string) returns (yes: bool)
    ensures yes <==> EndsInBackslash(raw)
  {
    BackslashIsLast(raw);
    yes := EndsWith(TrimRight(raw, IsBlank), "\\");
  }

  method IsContinued(raw: string) returns (yes: bool)
    ensures yes <==> Continues(raw)
  {
    RunIsStripped(raw);
    var trailing := |raw| - |TrimRight(raw, c => c == '\\')|;
    yes := trailing % 2 == 1;
  }

  /** One turn of the joining loop. */
  method JoinOne(raw: string, continued: bool) returns (ok: bool, part: Part)
    ensures ok <==> HashOk(raw, continued)
    ensures ok ==> part == PartOf(raw, continued)
  {
    var comment := StartsComment(raw);
    if !continued && comment {
      var joins := BackslashLast(raw);
      return !joins, Dropped;
    }
    if '#' in raw {
      return false, Dropped;
    }
    var joins := IsContinued(raw);
    return true, if joins then Joined(raw[..|raw| - 1]) else Ended(raw);
  }

  /** `_v18_logical_lines`. */
  method ReadLogicalLines(run: string) returns (r: Logical)
    ensures r.Rejected? <==> !Readable(run)
    ensures r.Lines? ==> r.lines == LogicalLines(run)
  {
    var bad := BadChar(run);
    if bad {
      return Rejected;
    }
    r := JoinPhysical(Split(run, '\n'));
  }

  method JoinPhysical(phys: seq<string>) returns (r: Logical)
    ensures r.Rejected? <==> Unreadable(phys, false)
    ensures r.Lines? ==> r.lines == JoinLines(phys, "", false)
  {
    var out: seq<string> := [];
    var buf, continued := "", false;
    for i := 0 to |phys|
      invariant Unreadable(phys, false) <==> Unreadable(phys[i..], continued)
      invariant JoinLines(phys, "", false) == out + JoinLines(phys[i..], buf, continued)
    {
      assert phys[i..][0] == phys[i] && phys[i..][1..] == phys[i + 1..];
      var ok, part := JoinOne(phys[i], continued);
      if !ok {
        return Rejected;
      }
      continued := part.Joined?;
      match part {
        case Dropped =>
        case Joined(text) => buf := buf + text;
        case Ended(text) =>
          Assoc(out, [buf + text], JoinLines(phys[i + 1..], "", false));
          out := out + [buf + text];
          buf := "";
      }
    }
    if buf != "" {
      out := out + [buf];
    }
    return Lines(out);
  }

  // ----- Joining loses nothing but comments and continuation backslashes -----

  ghost function Concat(lines: seq<string>): string {
    if lines == [] then "" else lines[0] + Concat(lines[1..])
  }

  /** The text of the lines that are not comments, continuation backslashes removed. */
  ghost function KeptText(phys: seq<string>, continued: bool): string {
    if phys == [] then ""
    else
      match PartOf(phys[0], continued)
      case Dropped => KeptText(phys[1..], false)
      case Joined(text) => text + KeptText(phys[1..], true)
      case Ended(text) => text + KeptText(phys[1..], false)
  }

  lemma ConcatCons(line: string, rest: seq<string>)
    ensures Concat([line] + rest) == line + Concat(rest)
  {
    assert ([line] + rest)[1..] == rest;
  }

  lemma {:induction false} JoiningKeepsText(phys: seq<string>, buf: string, continued: bool)
    ensures Concat(JoinLines(phys, buf, continued)) == buf + KeptText(phys, continued)
    decreases |phys|
  {
    if phys == [] {
      ConcatCons(buf, []);
    } else {
      var rest := phys[1..];
      match PartOf(phys[0], continued)
      case Dropped => JoiningKeepsText(rest, buf, false);
      case Joined(text) =>
        JoiningKeepsText(rest, buf + text, true);
        Assoc(buf, text, KeptText(rest, true));
      case Ended(text) =>
        JoiningKeepsText(rest, "", false);
        ConcatCons(buf + text, JoinLines(rest, "", false));
        Assoc(buf, text, KeptText(rest, false));
    }
  }

  /** No logical line of a readable text holds a `#`: no comment is ever part of a command. */
  lemma {:induction false} LinesHoldNoComment(phys: seq<string>, buf: string, continued: bool)
    requires !Unreadable(phys, continued) && '#' !in buf
    ensures forall line :: line in JoinLines(phys, buf, continued) ==> '#' !in line
    decreases |phys|
  {
    if phys != [] {
      var rest := phys[1..];
      match PartOf(phys[0], continued)
      case Dropped => LinesHoldNoComment(rest, buf, false);
      case Joined(text) => LinesHoldNoComment(rest, buf + text, true);
      case Ended(text) => LinesHoldNoComment(rest, "", false);
    }
  }
}
