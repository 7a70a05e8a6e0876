/**
 The step-allowlist engine of the release guard (V18 to V20 in
 ci/actionlint/release_guard.py): which command segments a row of the table lets run.
 */
module Allowlist {
  import opened Text
  import opened ShellWords
  import opened Assignments

  datatype RequiredFlag = RequiredFlag(lead: seq<string>, flag: string)

  /** The parts of a row that decide on `run:` text. */
  datatype Row = Row(
    commands: set<string>,
    keywords: set<string>,
    prefixes: seq<seq<string>>,
    exact: seq<seq<string>>,
    requiredFlags: seq<RequiredFlag>,
    refuseBackground: bool,
    redirects: Option<seq<string>>)

  const V18_ROW := Row(
    {"set", "echo", "printf", "[", "exit", "jq", "git"},
    {"if", "then", "else", "elif", "fi", "!"},
    [["proto", "install", "release-plz"], ["moon", "setup"], ["release-plz", "release-pr"],
     ["bash", "ci/version-lockstep/run.sh", "--write"]],
    [], [], false, None)

  const OUTPUT_REDIRECT := ">> \"$GITHUB_OUTPUT\""

  const V19_ROW := Row(
    {"set", "echo"}, {}, [["release-plz", "release"]], [["proto", "install", "release-plz"]],
    [RequiredFlag(["release-plz", "release"], "--no-verify")], true, Some([OUTPUT_REDIRECT]))

  const VERIFY_COMMAND := ["bash", "ci/publish-metadata/run.sh", "--verify-publish-groups"]

  const V20_ROW := Row({}, {}, [], [VERIFY_COMMAND], [], true, Some([]))

  // ----- The rule of a row -----

  ghost predicate IsFreeOfAngles(s: string) {
    forall i :: 0 <= i < |s| ==> s[i] != '<' && s[i] != '>'
  }

  /** Redirection `k` of the row is the first that ends the text, and no angle bracket stands in front. */
  ghost predicate IsAllowedTail(s: string, redirects: seq<string>, k: int) {
    && 0 <= k < |redirects| && redirects[k] != "" && EndsWith(s, redirects[k])
    && (forall j :: 0 <= j < k ==> !EndsWith(s, redirects[j]))
    && IsFreeOfAngles(s[..|s| - |redirects[k]|])
  }

  ghost predicate RedirectRule(s: string, redirects: Option<seq<string>>) {
    redirects.None? || IsFreeOfAngles(s) || exists k :: IsAllowedTail(s, redirects.value, k)
  }

  /** Short flags from e, u, o, x and v, or a long name. */
  ghost predicate IsSetFlag(w: string) {
    || w in ["pipefail", "errexit", "nounset", "xtrace", "verbose"]
    || (|w| >= 2 && w[0] in "+-" && forall i :: 1 <= i < |w| ==> w[i] in "euoxv")
  }

  ghost predicate SetRule(ws: seq<string>) {
    ws != [] && ws[0] == "set" ==> forall i :: 1 <= i < |ws| ==> IsSetFlag(ws[i])
  }

  /** In plain words, the flag stands in front of every `--`, and nowhere there with a value. */
  ghost predicate FlagRule(text: string, tail: seq<string>, flag: string) {
    && (forall c :: c in text ==> c !in "'\"\\$")
    && (exists k :: StandsBeforeDashes(tail, k) && tail[k] == flag)
    && (forall k :: StandsBeforeDashes(tail, k) ==> !StartsWith(tail[k], flag + "="))
  }

  ghost predicate StandsBeforeDashes(tail: seq<string>, k: int) {
    0 <= k < |tail| && forall j :: 0 <= j <= k ==> tail[j] != "--"
  }

  ghost predicate FlagsRule(text: string, ws: seq<string>, flags: seq<RequiredFlag>) {
    forall i :: 0 <= i < |flags| && WordPrefix(ws, flags[i].lead) ==> FlagRule(text, ws[|flags[i].lead|..], flags[i].flag)
  }

  /** The words name an allowed command: an exact tuple, a listed prefix, or a listed word. */
  ghost predicate IsListed(ws: seq<string>, row: Row) {
    || (exists i :: 0 <= i < |row.exact| && row.exact[i] == ws)
    || (exists i :: 0 <= i < |row.prefixes| && WordPrefix(ws, row.prefixes[i]))
    || (ws != [] && ws[0] in row.commands)
  }

  ghost predicate CommandRule(text: string, ws: seq<string>, row: Row) {
    ws == [] || (SetRule(ws) && FlagsRule(text, ws, row.requiredFlags) && IsListed(ws, row))
  }

  /** `cmd` is what is left of the words behind the leading keywords. */
  ghost predicate IsBehindKeywords(ws: seq<string>, keywords: set<string>, cmd: seq<string>) {
    && |cmd| <= |ws| && cmd == ws[|ws| - |cmd|..]
    && (forall i :: 0 <= i < |ws| - |cmd| ==> ws[i] in keywords)
    && (cmd != [] ==> cmd[0] !in keywords)
  }

  /** What a row demands of a segment cut into its leading assignments and the rest. */
  ghost predicate MeetsRow(words: seq<string>, rest: string, row: Row) {
    && (row.redirects.Some? ==> !SetsGithub(words))
    && RedirectRule(rest, row.redirects)
    && (words != [] ==> rest == "")
    && forall cmd :: IsBehindKeywords(Words(rest), row.keywords, cmd) ==> CommandRule(rest, cmd, row)
  }

  /** The segment, without the blanks around it, is some assignments and a rest that the row allows. */
  ghost predicate Accepted(segment: string, row: Row) {
    exists words, gaps, rest :: IsCut(Trim(segment, IsBlank), words, gaps, rest) && MeetsRow(words, rest, row)
  }

  // ----- segment_verdict -----

  datatype Why =
    | GithubAssignment
    | Redirection
    | AssignmentBeforeCommand
    | SetFlag
    | MissingFlag
    | UnknownCommand

  predicate HasAngle(s: string) {
    '<' in s || '>' in s
  }

  lemma HasAngleIs(s: string)
    ensures HasAngle(s) <==> !IsFreeOfAngles(s)
  {
  }

  predicate IsSetWord(w: string) {
    || (|w| >= 2 && (w[0] == '-' || w[0] == '+')
        && forall i :: 1 <= i < |w| ==> w[i] == 'e' || w[i] == 'u' || w[i] == 'o' || w[i] == 'x' || w[i] == 'v')
    || w == "pipefail" || w == "errexit" || w == "nounset" || w == "xtrace" || w == "verbose"
  }

  lemma SetWordIs(w: string)
    ensures IsSetWord(w) <==> IsSetFlag(w)
  {
  }

  predicate IsPlain(s: string) {
    forall i :: 0 <= i < |s| ==> s[i] != '\'' && s[i] != '"' && s[i] != '\\' && s[i] != '$'
  }

  lemma PlainIs(s: string)
    ensures IsPlain(s) <==> forall c :: c in s ==> c !in "'\"\\$"
  {
    var special := "'\"\\$";
    assert special[0] == '\'' && special[1] == '"' && special[2] == '\\' && special[3] == '$';
    assert forall c :: c in special <==> c == '\'' || c == '"' || c == '\\' || c == '$';
    assert forall i :: 0 <= i < |s| ==> s[i] in s;
  }

  function BeforeDashes(ws: seq<string>): (r: seq<string>)
    ensures |r| <= |ws| && r == ws[..|r|] && "--" !in r && (|r| < |ws| ==> ws[|r|] == "--")
  {
    if ws == [] || ws[0] == "--" then [] else [ws[0]] + BeforeDashes(ws[1..])
  }

  /** `_required_flag_verdict` accepts. */
  predicate FlagOk(text: string, tail: seq<string>, flag: string) {
    IsPlain(text)
    && (forall w :: w in BeforeDashes(tail) ==> !StartsWith(w, flag + "="))
    && flag in BeforeDashes(tail)
  }

  lemma FrontIsBeforeDashes(tail: seq<string>, k: int)
    ensures StandsBeforeDashes(tail, k) <==> 0 <= k < |BeforeDashes(tail)|
  {
    var front := BeforeDashes(tail);
    assert forall j :: 0 <= j < |front| ==> tail[j] == front[j];
  }

  lemma FlagOkIs(text: string, tail: seq<string>, flag: string)
    ensures FlagOk(text, tail, flag) <==> FlagRule(text, tail, flag)
  {
    var front := BeforeDashes(tail);
    forall k ensures StandsBeforeDashes(tail, k) <==> 0 <= k < |front| {
      FrontIsBeforeDashes(tail, k);
    }
    assert forall k :: 0 <= k < |front| ==> front[k] == tail[k];
    PlainIs(text);
    if flag in front {
      var k :| 0 <= k < |front| && front[k] == flag;
      assert StandsBeforeDashes(tail, k) && tail[k] == flag;
    }
    if k :| StandsBeforeDashes(tail, k) && tail[k] == flag {
      assert front[k] == flag;
    }
    if forall k :: StandsBeforeDashes(tail, k) ==> !StartsWith(tail[k], flag + "=") {
      forall k | 0 <= k < |front| ensures !StartsWith(front[k], flag + "=") {
        assert StandsBeforeDashes(tail, k);
      }
    }
  }

  function DropKeywords(ws: seq<string>, keywords: set<string>): (r: seq<string>)
    ensures forall cmd :: IsBehindKeywords(ws, keywords, cmd) <==> cmd == r
  {
    if ws != [] && ws[0] in keywords then
      var r := DropKeywords(ws[1..], keywords);
      KeywordsOff(ws, keywords);
      r
    else
      NoKeyword(ws, keywords);
      ws
  }

  lemma KeywordsOff(ws: seq<string>, keywords: set<string>)
    requires ws != [] && ws[0] in keywords
    ensures forall cmd :: IsBehindKeywords(ws, keywords, cmd) <==> IsBehindKeywords(ws[1..], keywords, cmd)
  {
    forall cmd ensures IsBehindKeywords(ws, keywords, cmd) <==> IsBehindKeywords(ws[1..], keywords, cmd) {
      if |cmd| < |ws| {
        assert ws[1..][|ws| - 1 - |cmd|..] == ws[|ws| - |cmd|..];
        assert forall i :: 0 <= i < |ws| - 1 - |cmd| ==> ws[1..][i] == ws[i + 1];
        assert forall i :: 1 <= i < |ws| - |cmd| ==> ws[i] == ws[1..][i - 1];
      }
    }
  }

  lemma NoKeyword(ws: seq<string>, keywords: set<string>)
    requires ws == [] || ws[0] !in keywords
    ensures forall cmd :: IsBehindKeywords(ws, keywords, cmd) <==> cmd == ws
  {
  }

  /** A row whose prefixes are nonempty lists of words, as every row of the table is. */
  ghost predicate ValidRow(row: Row) {
    forall i :: 0 <= i < |row.prefixes| ==> row.prefixes[i] != [] && AllWords(row.prefixes[i])
  }

  lemma V18RowIsValid()
    ensures ValidRow(V18_ROW)
  {
    assert AllWords(["proto", "install", "release-plz"]);
    assert AllWords(["moon", "setup"]);
    assert AllWords(["release-plz", "release-pr"]);
    assert AllWords(["bash", "ci/version-lockstep/run.sh", "--write"]);
  }

  lemma V19RowIsValid()
    ensures ValidRow(V19_ROW)
  {
    assert AllWords(["release-plz", "release"]);
  }

  method StripAssignments(s0: string, row: Row) returns (s: string, github: bool)
    ensures github <==> row.redirects.Some? && AssignsGithub(s0)
    ensures !github ==> s == AfterAssignments(s0)
  {
    s := s0;
    while AssignEnd(s) >= 0
      invariant AfterAssignments(s) == AfterAssignments(s0)
      invariant row.redirects.Some? ==> (AssignsGithub(s) <==> AssignsGithub(s0))
      decreases |s|
    {
      if row.redirects.Some? && StartsWith(s, "GITHUB_") {
        return s, true;
      }
      s := TrimLeft(s[AssignEnd(s)..], IsBlank);
    }
    return s, false;
  }

  method StripKeywords(ws0: seq<string>, keywords: set<string>) returns (ws: seq<string>)
    ensures ws == DropKeywords(ws0, keywords)
  {
    ws := ws0;
    while ws != [] && ws[0] in keywords
      invariant DropKeywords(ws, keywords) == DropKeywords(ws0, keywords)
      decreases |ws|
    {
      ws := ws[1..];
    }
  }

  method SetVerdict(ws: seq<string>) returns (ok: bool)
    ensures ok <==> SetRule(ws)
  {
    if ws != [] && ws[0] == "set" {
      for i := 1 to |ws|
        invariant forall j :: 1 <= j < i ==> IsSetFlag(ws[j])
      {
        SetWordIs(ws[i]);
        if !IsSetWord(ws[i]) {
          return false;
        }
      }
    }
    return true;
  }

  method FlagVerdict(s: string, ws: seq<string>, flags: seq<RequiredFlag>) returns (ok: bool)
    ensures ok <==> FlagsRule(s, ws, flags)
  {
    for i := 0 to |flags|
      invariant forall j :: 0 <= j < i && WordPrefix(ws, flags[j].lead) ==> FlagRule(s, ws[|flags[j].lead|..], flags[j].flag)
    {
      if WordPrefix(ws, flags[i].lead) {
        FlagOkIs(s, ws[|flags[i].lead|..], flags[i].flag);
        if !FlagOk(s, ws[|flags[i].lead|..], flags[i].flag) {
          return false;
        }
      }
    }
    return true;
  }

  method ListVerdict(ws: seq<string>, row: Row) returns (ok: bool)
    requires ValidRow(row) && ws != [] && AllWords(ws)
    ensures ok <==> IsListed(ws, row)
  {
    if ws in row.exact {
      return true;
    }
    var rest := JoinWords(ws);
    for i := 0 to |row.prefixes|
      invariant forall j :: 0 <= j < i ==> !WordPrefix(ws, row.prefixes[j])
    {
      TextPrefixIsWordPrefix(ws, row.prefixes[i]);
      if TextPrefix(rest, JoinWords(row.prefixes[i])) {
        return true;
      }
    }
    return ws[0] in row.commands;
  }

  /** The first listed redirection the text ends in. */
  method FindTail(s: string, redirects: seq<string>) returns (tail: string)
    ensures |tail| <= |s|
    ensures tail != "" && IsFreeOfAngles(s[..|s| - |tail|]) <==> exists k :: IsAllowedTail(s, redirects, k)
  {
    for i := 0 to |redirects|
      invariant forall j :: 0 <= j < i ==> !EndsWith(s, redirects[j])
    {
      if EndsWith(s, redirects[i]) {
        tail := redirects[i];
        assert forall k :: IsAllowedTail(s, redirects, k) ==> k == i;
        assert IsAllowedTail(s, redirects, i) <==> tail != "" && IsFreeOfAngles(s[..|s| - |tail|]);
        return;
      }
    }
    return "";
  }

  method RedirectVerdict(s: string, redirects: Option<seq<string>>) returns (ok: bool)
    ensures ok <==> RedirectRule(s, redirects)
  {
    HasAngleIs(s);
    if redirects.Some? && HasAngle(s) {
      var tail := FindTail(s, redirects.value);
      HasAngleIs(s[..|s| - |tail|]);
      return tail != "" && !HasAngle(s[..|s| - |tail|]);
    }
    return true;
  }

  method CommandVerdict(s: string, ws: seq<string>, row: Row) returns (why: Option<Why>)
    requires ValidRow(row) && AllWords(ws)
    ensures why.None? <==> CommandRule(s, ws, row)
  {
    if ws == [] {
      return None;
    }
    var settings := SetVerdict(ws);
    if !settings {
      return Some(SetFlag);
    }
    var flagged := FlagVerdict(s, ws, row.requiredFlags);
    if !flagged {
      return Some(MissingFlag);
    }
    var listed := ListVerdict(ws, row);
    return if listed then None else Some(UnknownCommand);
  }

  /** The cut as the guard strips it decides. */
  lemma AcceptedAsStripped(segment: string, row: Row)
    ensures var s := Trim(segment, IsBlank); var rest := AfterAssignments(s);
      Accepted(segment, row) <==>
        && (row.redirects.Some? ==> !AssignsGithub(s))
        && RedirectRule(rest, row.redirects)
        && (AssignEnd(s) >= 0 ==> rest == "")
        && CommandRule(rest, DropKeywords(Words(rest), row.keywords), row)
  {
    var s := Trim(segment, IsBlank);
    TrimmedIsSolid(segment, IsBlank);
    var words, gaps := CutExists(s);
    CutIsExact(s, words, gaps, AfterAssignments(s));
    MeetsRowAsRead(words, AfterAssignments(s), row);
    if Accepted(segment, row) {
      var words', gaps', rest' :| IsCut(s, words', gaps', rest') && MeetsRow(words', rest', row);
      CutIsExact(s, words', gaps', rest');
      MeetsRowAsRead(words', rest', row);
    }
  }

  lemma MeetsRowAsRead(words: seq<string>, rest: string, row: Row)
    ensures MeetsRow(words, rest, row) <==>
      && (row.redirects.Some? ==> !SetsGithub(words))
      && RedirectRule(rest, row.redirects)
      && (words != [] ==> rest == "")
      && CommandRule(rest, DropKeywords(Words(rest), row.keywords), row)
  {
  }

  lemma SolidRestHasWords(rest: string)
    requires StartsSolid(rest)
    ensures Words(rest) == [] <==> rest == ""
  {
  }

  lemma RestIsSolid(segment: string)
    ensures StartsSolid(AfterAssignments(Trim(segment, IsBlank)))
  {
    var s := Trim(segment, IsBlank);
    TrimmedIsSolid(segment, IsBlank);
    var words, gaps := CutExists(s);
  }

  /** `segment_verdict` lets a segment through exactly when the rule of the row accepts it. */
  method SegmentVerdict(segment: string, row: Row) returns (why: Option<Why>)
    requires ValidRow(row)
    ensures why.None? <==> Accepted(segment, row)
  {
    AcceptedAsStripped(segment, row);
    RestIsSolid(segment);
    var s0 := Trim(segment, IsBlank);
    var s, github := StripAssignments(s0, row);
    if github {
      return Some(GithubAssignment);
    }
    var redirect := RedirectVerdict(s, row.redirects);
    if !redirect {
      return Some(Redirection);
    }
    var words := Words(s);
    SolidRestHasWords(s);
    if AssignEnd(s0) >= 0 && words != [] {
      return Some(AssignmentBeforeCommand);
    }
    ghost var all := words;
    words := StripKeywords(words, row.keywords);
    assert IsBehindKeywords(all, row.keywords, words);
    why := CommandVerdict(s, words, row);
  }

  // ----- V19 -----

  /** `--no-verify` stands among the words, from the third on, with no `--` before it. */
  ghost predicate NoVerifyBeforeDashes(ws: seq<string>) {
    exists k :: 2 <= k < |ws| && ws[k] == "--no-verify" && forall j :: 2 <= j < k ==> ws[j] != "--"
  }

  /** The words of a command that the V19 row lists. */
  ghost predicate V19Command(ws: seq<string>) {
    ws == [] || ws[0] == "set" || ws[0] == "echo" || ws == ["proto", "install", "release-plz"]
    || WordPrefix(ws, ["release-plz", "release"])
  }

  ghost predicate IsFlaggedRelease(s: string, ws: seq<string>) {
    |ws| >= 2 && ws[1] == "release" && NoVerifyBeforeDashes(ws) && forall c :: c in s ==> c !in "'\"\\$"
  }

  /** Every angle bracket stands in a final append to the step's output file. */
  ghost predicate RedirectsToOutputOnly(s: string) {
    forall i :: 0 <= i < |s| && (s[i] == '<' || s[i] == '>') ==> EndsWith(s, OUTPUT_REDIRECT) && |s| - |OUTPUT_REDIRECT| <= i
  }

  /** Some assignments and nothing else, none of them to a GITHUB_* name. */
  ghost predicate AssignsOnly(words: seq<string>, rest: string) {
    words != [] && rest == "" && !SetsGithub(words)
  }

  /** No assignment in front, and a listed command, where `release-plz` is always a flagged
      `release-plz release`, `set` takes only the listed words, and nothing is redirected except
      to the step's output file. */
  ghost predicate IsV19Rest(s: string) {
    && V19Command(Words(s))
    && (Words(s) != [] && Words(s)[0] == "release-plz" ==> IsFlaggedRelease(s, Words(s)))
    && SetRule(Words(s))
    && RedirectsToOutputOnly(s)
  }

  ghost predicate IsV19Segment(segment: string) {
    exists words, gaps, rest :: IsCut(Trim(segment, IsBlank), words, gaps, rest)
      && (AssignsOnly(words, rest) || (words == [] && IsV19Rest(rest)))
  }

  /** What the V19 row lets through: assignments only, or one of four commands with no
      assignment in front; `release-plz` only as `release-plz release`, in plain words, with
      `--no-verify` before any `--`; `set` with the listed words only; and an angle bracket of a
      command only in a final append to the step's output file. */
  lemma V19AcceptsOnly(segment: string)
    requires Accepted(segment, V19_ROW)
    ensures IsV19Segment(segment)
  {
    var words, gaps, rest :| IsCut(Trim(segment, IsBlank), words, gaps, rest) && MeetsRow(words, rest, V19_ROW);
    if words == [] {
      V19RestIsListed(rest);
    }
  }

  lemma V19RestIsListed(rest: string)
    requires MeetsRow([], rest, V19_ROW)
    ensures IsV19Rest(rest)
  {
    var ws := Words(rest);
    assert IsBehindKeywords(ws, V19_ROW.keywords, ws);
    V19Listed(rest, ws);
    if ws != [] && ws[0] == "release-plz" {
      ReleasePlzIsFlagged(rest, ws);
    }
    OnlyToOutput(rest);
  }

  lemma V19Listed(s: string, ws: seq<string>)
    requires CommandRule(s, ws, V19_ROW)
    ensures V19Command(ws)
  {
    assert V19_ROW.prefixes == [["release-plz", "release"]];
    assert V19_ROW.exact == [["proto", "install", "release-plz"]];
  }

  lemma AnglesInTail(s: string, tail: string)
    requires EndsWith(s, tail) && IsFreeOfAngles(s[..|s| - |tail|])
    ensures forall i :: 0 <= i < |s| && (s[i] == '<' || s[i] == '>') ==> |s| - |tail| <= i
  {
    var n := |s| - |tail|;
    assert forall i :: 0 <= i < n ==> s[..n][i] == s[i];
  }

  lemma OnlyToOutput(s: string)
    requires RedirectRule(s, V19_ROW.redirects)
    ensures RedirectsToOutputOnly(s)
  {
    if !IsFreeOfAngles(s) {
      var k :| IsAllowedTail(s, [OUTPUT_REDIRECT], k);
      AnglesInTail(s, OUTPUT_REDIRECT);
    }
  }

  lemma ReleasePlzIsFlagged(s: string, ws: seq<string>)
    requires ws != [] && ws[0] == "release-plz" && CommandRule(s, ws, V19_ROW)
    ensures IsFlaggedRelease(s, ws)
  {
    var lead := ["release-plz", "release"];
    assert |"release-plz"| == 11 && |"set"| == 3 && |"echo"| == 4 && |"proto"| == 5;
    V19Listed(s, ws);
    assert WordPrefix(ws, lead);
    assert ws[..2][1] == lead[1];
    assert V19_ROW.requiredFlags[0].lead == lead;
    FlagStandsFirst(s, ws);
  }

  lemma FlagStandsFirst(s: string, ws: seq<string>)
    requires |ws| >= 2 && FlagRule(s, ws[2..], "--no-verify")
    ensures NoVerifyBeforeDashes(ws)
  {
    var tail := ws[2..];
    var k :| StandsBeforeDashes(tail, k) && tail[k] == "--no-verify";
    assert ws[k + 2] == tail[k];
    forall j | 2 <= j < k + 2 ensures ws[j] != "--" {
      assert tail[j - 2] == ws[j];
    }
  }

  // ----- The redirection rule does not read assigned values -----

  /** The text ends in a quoted word, its quote at `q` behind a blank. */
  ghost predicate QuotedTail(s: string, q: int) {
    && 1 <= q < |s| - 1 && IsBlank(s[q - 1]) && s[q] == '"' && s[|s| - 1] == '"'
    && forall j :: q < j < |s| - 1 ==> s[j] != '"' && !IsBlank(s[j])
  }

  lemma OutputTailIsQuoted(s: string)
    requires EndsWith(s, OUTPUT_REDIRECT)
    ensures QuotedTail(s, |s| - 16)
  {
    var n := |s| - 19;
    assert |OUTPUT_REDIRECT| == 19;
    assert forall j :: 0 <= j < 19 ==> s[n + j] == s[n..][j];
    assert forall j :: 4 <= j < 18 ==> OUTPUT_REDIRECT[j] != '"' && !IsBlank(OUTPUT_REDIRECT[j]);
    forall j | |s| - 16 < j < |s| - 1 ensures s[j] != '"' && !IsBlank(s[j]) {
      assert s[j] == OUTPUT_REDIRECT[j - n];
    }
  }

  /** An inner quote of a value stands behind a backslash. */
  lemma InnerQuoteIsEscaped(v: string, i: nat)
    requires IsValue(v) && v != "" && v[|v| - 1] == '"' && 0 < i < |v| - 1 && v[i] == '"'
    ensures v[i - 1] == '\\'
  {
    assert IsDoubleQuoted(v);
    assert IsEscapedAt(v, i);
  }

  lemma ValueThatEndsInAQuote(v: string)
    requires IsValue(v) && v != "" && v[|v| - 1] == '"'
    ensures |v| >= 2 && v[0] == '"'
  {
  }

  /** No quoted word stands behind a blank in a value. */
  lemma ValueHasNoQuotedTail(s: string, at: nat, q: int)
    requires 0 < at <= |s| && s[at - 1] == '=' && IsValue(s[at..])
    ensures !QuotedTail(s, q)
  {
    var v := s[at..];
    assert forall i :: 0 <= i < |v| ==> v[i] == s[at + i];
    if v != "" && v[|v| - 1] == '"' {
      ValueThatEndsInAQuote(v);
      if at < q < |s| - 1 && s[q] == '"' {
        InnerQuoteIsEscaped(v, q - at);
      }
    }
  }

  lemma AssignmentHasNoQuotedTail(s: string, d: nat, q: int)
    requires d < |s| && IsAssignWord(s[d..])
    ensures !QuotedTail(s, q)
  {
    var w := s[d..];
    var n :| IsAssignWordAt(w, n);
    assert w[n + 1..] == s[d + n + 1..] && w[n] == s[d + n];
    ValueHasNoQuotedTail(s, d + n + 1, q);
  }

  lemma {:induction false} GlueEnds(words: seq<string>, gaps: seq<string>) returns (front: string)
    requires |words| == |gaps| && words != []
    ensures Glue(words, gaps) == front + (words[|words| - 1] + gaps[|gaps| - 1])
    decreases |words|
  {
    if |words| == 1 {
      front := "";
      assert gaps[0] + "" == gaps[0];
    } else {
      var more := GlueEnds(words[1..], gaps[1..]);
      front := words[0] + (gaps[0] + more);
      var last := words[|words| - 1] + gaps[|gaps| - 1];
      Assoc(gaps[0], more, last);
      Assoc(words[0], gaps[0] + more, last);
    }
  }

  lemma AssignedHasNoQuotedTail(s: string, words: seq<string>, gaps: seq<string>, q: int)
    requires IsCut(s, words, gaps, "") && words != [] && (s != "" ==> !IsBlank(s[|s| - 1]))
    ensures !QuotedTail(s, q)
  {
    var front := GlueEnds(words, gaps);
    var word, gap := words[|words| - 1], gaps[|gaps| - 1];
    assert s == front + (word + gap);
    LastGapIsEmpty(s, front + word, gap);
    assert s[|front|..] == word;
    AssignmentHasNoQuotedTail(s, |front|, q);
  }

  lemma LastGapIsEmpty(s: string, front: string, gap: string)
    requires s == front + gap && IsGap(gap) && s != "" && !IsBlank(s[|s| - 1])
    ensures gap == ""
  {
  }

  lemma AssignedRedirects(s: string, words: seq<string>, gaps: seq<string>)
    requires IsCut(s, words, gaps, "") && words != [] && HasSolidEnds(s, IsBlank)
    ensures RedirectsToOutputOnly(s) <==> IsFreeOfAngles(s)
  {
    AssignedHasNoQuotedTail(s, words, gaps, |s| - 16);
    if EndsWith(s, OUTPUT_REDIRECT) {
      OutputTailIsQuoted(s);
    }
  }

  /** The cut is the only one, so what the row demands of some cut it demands of this one. */
  lemma CutMeetsRow(segment: string, row: Row, words: seq<string>, gaps: seq<string>, rest: string)
    requires Accepted(segment, row) && IsCut(Trim(segment, IsBlank), words, gaps, rest)
    ensures RedirectRule(rest, row.redirects) && (words != [] ==> rest == "")
  {
    AcceptedAsStripped(segment, row);
    CutIsExact(Trim(segment, IsBlank), words, gaps, rest);
  }

  /** The redirection rule reads only what is left behind the assignments, so a segment that the
      V19 row accepts keeps the rule as a whole exactly when it assigns nothing or holds no angle bracket. */
  lemma WholeSegmentRedirects(segment: string, words: seq<string>, gaps: seq<string>, rest: string)
    requires Accepted(segment, V19_ROW) && IsCut(Trim(segment, IsBlank), words, gaps, rest)
    ensures var s := Trim(segment, IsBlank); RedirectsToOutputOnly(s) <==> words == [] || IsFreeOfAngles(s)
  {
    var s := Trim(segment, IsBlank);
    CutMeetsRow(segment, V19_ROW, words, gaps, rest);
    if words == [] {
      assert s == rest;
      OnlyToOutput(rest);
    } else {
      TrimmedIsSolid(segment, IsBlank);
      AssignedRedirects(s, words, gaps);
    }
  }

  lemma OneAssignmentCut(word: string)
    requires IsAssignWord(word)
    ensures IsCut(word, [word], [""], "")
  {
    var words, gaps := [word], [""];
    assert words[1..] == [] && gaps[1..] == [];
    assert Glue(words, gaps) == word + ("" + "");
    assert IsCut("", [], [], "") by {
      assert ""[..0] == "";
    }
  }

  lemma OneIsNotGithub(word: string)
    requires !StartsWith(word, "GITHUB_")
    ensures !SetsGithub([word])
  {
    assert forall i :: 0 <= i < |[word]| ==> [word][i] == word;
  }

  lemma SomeCutMeets(segment: string, row: Row, words: seq<string>, gaps: seq<string>, rest: string)
    requires IsCut(Trim(segment, IsBlank), words, gaps, rest) && MeetsRow(words, rest, row)
    ensures Accepted(segment, row)
  {
  }

  lemma SolidIsTrimmed(s: string, blank: char -> bool)
    requires HasSolidEnds(s, blank)
    ensures Trim(s, blank) == s
  {
  }

  lemma OneAssignment(word: string)
    requires IsAssignWord(word) && !StartsWith(word, "GITHUB_") && HasSolidEnds(word, IsBlank)
    ensures Accepted(word, V19_ROW) && IsCut(Trim(word, IsBlank), [word], [""], "")
  {
    SolidIsTrimmed(word, IsBlank);
    OneAssignmentCut(word);
    OneIsNotGithub(word);
    NothingMeetsRow([word]);
    SomeCutMeets(word, V19_ROW, [word], [""], "");
  }

  lemma NothingMeetsRow(words: seq<string>)
    requires !SetsGithub(words)
    ensures MeetsRow(words, "", V19_ROW)
  {
    assert Words("") == [];
  }

  /** And some do not: the value of an unquoted assignment may hold any angle bracket. */
  lemma ValuesMayHoldAngles(v: string)
    requires IsBare(v) && !IsFreeOfAngles(v)
    ensures Accepted("A=" + v, V19_ROW) && !RedirectsToOutputOnly("A=" + v)
  {
    var s := "A=" + v;
    assert s[..1] == "A" && s[2..] == v;
    assert IsAssignWordAt(s, 1);
    assert s[0] != "GITHUB_"[0] && s[|s| - 1] == v[|v| - 1];
    OneAssignment(s);
    var i :| 0 <= i < |v| && (v[i] == '<' || v[i] == '>');
    assert s[i + 2] == v[i];
    assert Trim(s, IsBlank) == s;
    WholeSegmentRedirects(s, [s], [""], "");
  }

  // ----- V20 -----

  ghost predicate IsV20Segment(segment: string) {
    exists words, gaps, rest :: IsCut(Trim(segment, IsBlank), words, gaps, rest)
      && (AssignsOnly(words, rest) || (words == [] && (Words(rest) == [] || Words(rest) == VERIFY_COMMAND)))
  }

  /** What the V20 row lets through: assignments only, none to a GITHUB_* name, or the verify
      command with no assignment in front. */
  lemma V20AcceptsOnly(segment: string)
    requires Accepted(segment, V20_ROW)
    ensures IsV20Segment(segment)
  {
    var words, gaps, rest :| IsCut(Trim(segment, IsBlank), words, gaps, rest) && MeetsRow(words, rest, V20_ROW);
    if words == [] {
      V20Listed(rest, Words(rest));
    }
  }

  lemma V20Listed(rest: string, ws: seq<string>)
    requires MeetsRow([], rest, V20_ROW) && ws == Words(rest)
    ensures ws == [] || ws == VERIFY_COMMAND
  {
    assert IsBehindKeywords(ws, V20_ROW.keywords, ws);
    assert V20_ROW.exact == [VERIFY_COMMAND];
  }
}
