/**
 The leading variable assignments of a command segment (`_V18_ASSIGN_RE` of
 ci/actionlint/release_guard.py), as the guard strips them, against what an assignment is.
 */
module Assignments {
  import opened Text
  import opened ShellWords

  // ----- What an assignment is -----

  ghost predicate IsName(s: string) {
    && s != "" && !('0' <= s[0] <= '9')
    && forall i :: 0 <= i < |s| ==> 'A' <= s[i] <= 'Z' || 'a' <= s[i] <= 'z' || s[i] == '_' || '0' <= s[i] <= '9'
  }

  /** Between double quotes, every inner double quote escaped and the last one not. */
  ghost predicate IsDoubleQuoted(v: string) {
    && |v| >= 2 && v[0] == '"' && v[|v| - 1] == '"' && !IsEscapedAt(v, |v| - 1)
    && forall i :: 0 < i < |v| - 1 && v[i] == '"' ==> IsEscapedAt(v, i)
  }

  ghost predicate IsSingleQuoted(v: string) {
    |v| >= 2 && v[0] == '\'' && v[|v| - 1] == '\'' && forall i :: 0 < i < |v| - 1 ==> v[i] != '\''
  }

  ghost predicate IsBareChar(c: char) {
    c != ' ' && c != '\t' && c != '"' && c != '\'' && c != '\\'
  }

  ghost predicate IsBare(v: string) {
    forall i :: 0 <= i < |v| ==> IsBareChar(v[i])
  }

  ghost predicate IsValue(v: string) {
    IsDoubleQuoted(v) || IsSingleQuoted(v) || IsBare(v)
  }

  /** `w` is a name of length `n`, an equals sign and a value. */
  ghost predicate IsAssignWordAt(w: string, n: int) {
    0 < n < |w| && IsName(w[..n]) && w[n] == '=' && IsValue(w[n + 1..])
  }

  ghost predicate IsAssignWord(w: string) {
    exists n :: IsAssignWordAt(w, n)
  }

  /** `s` starts with an assignment that ends at `e`, at a blank or with the text. */
  ghost predicate AssignsUpTo(s: string, e: int) {
    0 <= e <= |s| && IsAssignWord(s[..e]) && (e < |s| ==> s[e] == ' ' || s[e] == '\t')
  }

  // ----- How the guard finds it -----

  predicate IsNameStart(c: char) {
    'A' <= c <= 'Z' || 'a' <= c <= 'z' || c == '_'
  }

  predicate IsNameChar(c: char) {
    IsNameStart(c) || '0' <= c <= '9'
  }

  function NameLength(s: string): (n: nat)
    ensures n <= |s| && (forall i :: 0 <= i < n ==> IsNameChar(s[i])) && (n < |s| ==> !IsNameChar(s[n]))
  {
    if s == "" || !IsNameChar(s[0]) then 0 else 1 + NameLength(s[1..])
  }

  /** The first unescaped `"` at or after `k`; -1 when absent. */
  function CloseDouble(s: string, k: nat): (r: int)
    ensures r == -1 || k <= r < |s|
    decreases |s| - k
  {
    if k >= |s| then -1
    else if s[k] == '"' then k
    else if s[k] == '\\' then CloseDouble(s, k + 2)
    else CloseDouble(s, k + 1)
  }

  /** The end of an unquoted value: the first blank, quote or backslash. */
  function BareEnd(s: string, k: nat): (r: nat)
    requires k <= |s|
    ensures k <= r <= |s| && (forall i :: k <= i < r ==> IsBareChar(s[i])) && (r < |s| ==> !IsBareChar(s[r]))
    decreases |s| - k
  {
    if k == |s| || IsBlank(s[k]) || s[k] == '"' || s[k] == '\'' || s[k] == '\\' then k else BareEnd(s, k + 1)
  }

  /** The length of a leading `NAME=value` word, which ends at a blank or at the end of the
      text; -1 when the text does not start with one. */
  function AssignEnd(s: string): (r: int)
    ensures r == -1 || (0 < r <= |s| && (r < |s| ==> IsBlank(s[r])))
  {
    var n := NameLength(s);
    if s == "" || !IsNameStart(s[0]) || n == |s| || s[n] != '=' then -1
    else
      var e := ValueEnd(s, n + 1);
      if e > 0 && (e == |s| || IsBlank(s[e])) then e else -1
  }

  /** Where a value that starts at `v` ends; 0 when its quote stays open. */
  function ValueEnd(s: string, v: nat): (e: nat)
    requires 0 < v <= |s|
    ensures e == 0 || v <= e <= |s|
  {
    if v < |s| && s[v] == '"' then CloseDouble(s, v + 1) + 1
    else if v < |s| && s[v] == '\'' then Find(s, '\'', v + 1) + 1
    else BareEnd(s, v)
  }

  // ----- It finds exactly that -----

  lemma {:induction false} CloseDoubleIsFirst(s: string, k: nat)
    requires k <= |s| && !IsEscapedAt(s, k)
    ensures var r := CloseDouble(s, k);
      && (r >= 0 ==> s[r] == '"' && !IsEscapedAt(s, r))
      && forall i :: k <= i < (if r >= 0 then r else |s|) && s[i] == '"' ==> IsEscapedAt(s, i)
    decreases |s| - k
  {
    if k < |s| && s[k] == '\\' {
      assert IsEscapedAt(s, k + 1);
      if k + 2 <= |s| {
        assert !IsEscapedAt(s, k + 2);
        CloseDoubleIsFirst(s, k + 2);
      }
    } else if k < |s| && s[k] != '"' {
      assert !IsEscapedAt(s, k + 1);
      CloseDoubleIsFirst(s, k + 1);
    }
  }

  lemma {:induction false} RunInSlice(s: string, v: nat, e: nat, i: nat)
    requires v < e <= |s| && s[v] != '\\' && 0 < i <= e - v
    ensures RunBefore(s[v..e], i) == RunBefore(s, v + i)
  {
    assert s[v..e][i - 1] == s[v + i - 1];
    if i > 1 && s[v + i - 1] == '\\' {
      RunInSlice(s, v, e, i - 1);
    }
  }

  lemma EscapedInSlice(s: string, v: nat, e: nat, i: nat)
    requires v < e <= |s| && s[v] == '"' && 0 < i < e - v
    ensures s[v..e][i] == s[v + i] && (IsEscapedAt(s[v..e], i) <==> IsEscapedAt(s, v + i))
  {
    RunInSlice(s, v, e, i);
  }

  lemma ClosedIsDoubleQuoted(s: string, v: nat, e: nat)
    requires v + 1 < e <= |s| && s[v] == '"' && CloseDouble(s, v + 1) == e - 1
    ensures IsDoubleQuoted(s[v..e])
  {
    var w := s[v..e];
    CloseDoubleIsFirst(s, v + 1);
    EscapedInSlice(s, v, e, |w| - 1);
    forall i | 0 < i < |w| - 1 && w[i] == '"' ensures IsEscapedAt(w, i) {
      EscapedInSlice(s, v, e, i);
    }
  }

  lemma DoubleQuotedIsClosed(s: string, v: nat, e: nat)
    requires v < e <= |s| && s[v] == '"' && IsDoubleQuoted(s[v..e])
    ensures CloseDouble(s, v + 1) == e - 1
  {
    var w := s[v..e];
    EscapedInSlice(s, v, e, |w| - 1);
    forall i | v < i < e - 1 && s[i] == '"' ensures IsEscapedAt(s, i) {
      EscapedInSlice(s, v, e, i - v);
    }
    FirstUnescaped(s, v + 1, e - 1);
  }

  lemma FirstUnescaped(s: string, k: nat, r: nat)
    requires k <= r < |s| && !IsEscapedAt(s, k) && s[r] == '"' && !IsEscapedAt(s, r)
    requires forall i :: k <= i < r && s[i] == '"' ==> IsEscapedAt(s, i)
    ensures CloseDouble(s, k) == r
  {
    CloseDoubleIsFirst(s, k);
  }

  /** A double-quoted stretch ends at the first unescaped quote. */
  lemma DoubleQuotedEnds(s: string, v: nat, e: nat)
    requires v < e <= |s| && s[v] == '"'
    ensures IsDoubleQuoted(s[v..e]) <==> CloseDouble(s, v + 1) == e - 1
  {
    if CloseDouble(s, v + 1) == e - 1 {
      ClosedIsDoubleQuoted(s, v, e);
    }
    if IsDoubleQuoted(s[v..e]) {
      DoubleQuotedIsClosed(s, v, e);
    }
  }

  lemma SingleQuotedEnds(s: string, v: nat, e: nat)
    requires v < e <= |s| && s[v] == '\''
    ensures IsSingleQuoted(s[v..e]) <==> Find(s, '\'', v + 1) == e - 1
  {
    var w, r := s[v..e], Find(s, '\'', v + 1);
    assert forall i :: 0 < i < |w| ==> w[i] == s[v + i];
    assert v < r < e ==> w[r - v] == '\'';
  }

  lemma BareEnds(s: string, v: nat, e: nat)
    requires v <= e <= |s| && (e < |s| ==> IsBlank(s[e]))
    ensures IsBare(s[v..e]) <==> BareEnd(s, v) == e
  {
    assert forall i :: 0 <= i < e - v ==> s[v..e][i] == s[v + i];
    assert forall i :: v <= i < e ==> s[i] == s[v..e][i - v];
  }

  lemma ValueEnds(s: string, v: nat, e: nat)
    requires 0 < v <= e <= |s| && (e < |s| ==> IsBlank(s[e]))
    ensures IsValue(s[v..e]) <==> ValueEnd(s, v) == e
  {
    BareEnds(s, v, e);
    if v < e {
      assert s[v..e][0] == s[v];
      if s[v] == '"' {
        DoubleQuotedEnds(s, v, e);
      } else if s[v] == '\'' {
        SingleQuotedEnds(s, v, e);
      }
    }
  }

  lemma NameEnds(s: string, n: nat)
    requires n < |s| && s[n] == '='
    ensures IsName(s[..n]) <==> NameLength(s) == n && IsNameStart(s[0])
  {
    assert forall i :: 0 <= i < n ==> s[..n][i] == s[i];
    assert n > 0 ==> s[..n][0] == s[0];
  }

  /** The guard finds an assignment exactly where there is one, and where it ends. */
  lemma AssignEndIsExact(s: string, e: nat)
    ensures AssignEnd(s) == e <==> AssignsUpTo(s, e)
  {
    if AssignEnd(s) == e {
      var n := NameLength(s);
      AssignWordParts(s, n, e);
      assert IsAssignWordAt(s[..e], n);
    }
    if AssignsUpTo(s, e) {
      var n :| IsAssignWordAt(s[..e], n);
      AssignWordParts(s, n, e);
    }
  }

  lemma AssignWordParts(s: string, n: nat, e: nat)
    requires n < e <= |s| && (e < |s| ==> IsBlank(s[e]))
    ensures IsAssignWordAt(s[..e], n) <==>
      0 < n && IsNameStart(s[0]) && NameLength(s) == n && s[n] == '=' && ValueEnd(s, n + 1) == e
  {
    var w := s[..e];
    assert w[n] == s[n] && w[..n] == s[..n] && w[n + 1..] == s[n + 1..e];
    if s[n] == '=' {
      NameEnds(s, n);
      ValueEnds(s, n + 1, e);
    }
  }

  // ----- All the leading assignments -----

  /** What is left behind all leading assignments. */
  function AfterAssignments(s: string): string
    decreases |s|
  {
    if AssignEnd(s) < 0 then s else AfterAssignments(TrimLeft(s[AssignEnd(s)..], IsBlank))
  }

  /** One of the leading assignments sets a GITHUB_* name. */
  predicate AssignsGithub(s: string)
    decreases |s|
  {
    AssignEnd(s) >= 0
    && (StartsWith(s, "GITHUB_") || AssignsGithub(TrimLeft(s[AssignEnd(s)..], IsBlank)))
  }

  /** `s` is these assignments with blanks between them, and `rest`, which starts with none. */
  ghost predicate IsCut(s: string, words: seq<string>, gaps: seq<string>, rest: string) {
    && |words| == |gaps| && s == Glue(words, gaps) + rest
    && (forall i :: 0 <= i < |words| ==> IsAssignWord(words[i]))
    && AreGaps(gaps, rest) && StartsSolid(rest)
    && forall e :: !AssignsUpTo(rest, e)
  }

  ghost predicate SetsGithub(words: seq<string>) {
    exists i :: 0 <= i < |words| && StartsWith(words[i], "GITHUB_")
  }

  /** A first word with its gap, and the rest cut already. */
  lemma CutCons(s: string, word: string, gap: string, after: string, words: seq<string>, gaps: seq<string>, rest: string)
    requires IsCut(after, words, gaps, rest) && IsAssignWord(word) && IsGap(gap) && (gap == "" ==> after == "")
    requires s == word + (gap + after)
    ensures IsCut(s, [word] + words, [gap] + gaps, rest)
  {
    assert ([word] + words)[1..] == words && ([gap] + gaps)[1..] == gaps;
    Assoc(gap, Glue(words, gaps), rest);
    Assoc(word, gap + Glue(words, gaps), rest);
    if gap == "" {
      assert rest == "" && Glue(words, gaps) == "";
      GlueIsEmpty(words, gaps);
    }
  }

  lemma GlueIsEmpty(words: seq<string>, gaps: seq<string>)
    requires |words| == |gaps| && Glue(words, gaps) == "" && forall i :: 0 <= i < |words| ==> IsAssignWord(words[i])
    ensures words == []
  {
  }

  lemma CutUncons(s: string, words: seq<string>, gaps: seq<string>, rest: string)
    requires IsCut(s, words, gaps, rest) && words != []
    ensures var after := Glue(words[1..], gaps[1..]) + rest;
      && s == words[0] + (gaps[0] + after) && IsCut(after, words[1..], gaps[1..], rest)
      && IsAssignWord(words[0]) && IsGap(gaps[0]) && (gaps[0] == "" ==> after == "") && StartsSolid(after)
  {
    var glue := Glue(words[1..], gaps[1..]);
    var after := glue + rest;
    Assoc(gaps[0], glue, rest);
    Assoc(words[0], gaps[0] + glue, rest);
    if gaps[0] == "" {
      assert words[1..] == [];
    }
    if |words| > 1 {
      var n :| IsAssignWordAt(words[1], n);
      assert words[1][..n][0] == words[1][0] == after[0];
    }
  }

  /** Cutting one assignment off. */
  lemma OneWordOff(s: string, word: string, gap: string, after: string)
    requires s == word + (gap + after) && IsAssignWord(word) && IsGap(gap) && (gap == "" ==> after == "") && StartsSolid(after)
    ensures AssignEnd(s) == |word| && TrimLeft(s[|word|..], IsBlank) == after
  {
    var e := |word|;
    assert s[..e] == word && s[e..] == gap + after;
    if e < |s| {
      assert s[e] == (gap + after)[0];
    }
    AssignEndIsExact(s, e);
    SkipGap(gap, after);
  }

  lemma GithubName(s: string, e: nat)
    requires AssignEnd(s) == e
    ensures StartsWith(s, "GITHUB_") <==> StartsWith(s[..e], "GITHUB_")
  {
    var g := "GITHUB_";
    if StartsWith(s, g) {
      assert forall i :: 0 <= i < |g| ==> s[i] == s[..|g|][i] && IsNameChar(s[i]);
      assert NameLength(s) >= |g|;
      assert s[..e][..|g|] == s[..|g|];
    }
    if StartsWith(s[..e], g) {
      assert s[..|g|] == s[..e][..|g|];
    }
  }

  /** The text in front of the first blank or of the end. */
  lemma SplitOff(s: string, e: nat) returns (gap: string, after: string)
    requires e <= |s| && (e < |s| ==> IsBlank(s[e]))
    ensures s == s[..e] + (gap + after) && IsGap(gap) && (gap == "" ==> after == "") && StartsSolid(after)
  {
    var from := s[e..];
    after := TrimLeft(from, IsBlank);
    gap := from[..|from| - |after|];
    assert from == gap + after;
    assert e < |s| ==> from[0] == s[e];
  }

  /** Every text can be cut, and the guard's stripping is the cut. */
  lemma {:induction false} CutExists(s: string) returns (words: seq<string>, gaps: seq<string>)
    requires StartsSolid(s)
    ensures IsCut(s, words, gaps, AfterAssignments(s))
    decreases |s|
  {
    var e := AssignEnd(s);
    if e < 0 {
      words, gaps := [], [];
      forall k ensures !AssignsUpTo(s, k) {
        if k >= 0 {
          AssignEndIsExact(s, k);
        }
      }
      assert "" + s == s;
    } else {
      var gap, after := SplitOff(s, e);
      AssignEndIsExact(s, e);
      OneWordOff(s, s[..e], gap, after);
      var more, moreGaps := CutExists(after);
      words, gaps := [s[..e]] + more, [gap] + moreGaps;
      CutCons(s, s[..e], gap, after, more, moreGaps, AfterAssignments(after));
    }
  }

  /** However a text is cut, what the guard strips, leaves and objects to is read off the cut. */
  lemma {:induction false} CutIsExact(s: string, words: seq<string>, gaps: seq<string>, rest: string)
    requires IsCut(s, words, gaps, rest)
    ensures AfterAssignments(s) == rest
    ensures AssignEnd(s) >= 0 <==> words != []
    ensures AssignsGithub(s) <==> SetsGithub(words)
    decreases |words|
  {
    if words == [] {
      assert s == rest;
      if AssignEnd(s) >= 0 {
        AssignEndIsExact(s, AssignEnd(s));
      }
    } else {
      CutUncons(s, words, gaps, rest);
      var after := Glue(words[1..], gaps[1..]) + rest;
      OneWordOff(s, words[0], gaps[0], after);
      CutIsExact(after, words[1..], gaps[1..], rest);
      GithubName(s, |words[0]|);
      assert s[..|words[0]|] == words[0];
      GithubCons(words);
    }
  }

  lemma GithubCons(words: seq<string>)
    requires words != []
    ensures SetsGithub(words) <==> StartsWith(words[0], "GITHUB_") || SetsGithub(words[1..])
  {
    if i :| 0 <= i < |words[1..]| && StartsWith(words[1..][i], "GITHUB_") {
      assert StartsWith(words[i + 1], "GITHUB_");
    }
    if i :| 0 <= i < |words| && StartsWith(words[i], "GITHUB_") && i > 0 {
      assert words[1..][i - 1] == words[i];
    }
  }
}
