/**
 The words of one command segment as the release guard reads them
 (ci/actionlint/release_guard.py): blank-separated words, leading `NAME=value`
 assignments, and command prefixes.
 */
module ShellWords {
  import opened Text

  // ----- Words -----

  predicate IsWord(w: string) {
    w != "" && forall i :: 0 <= i < |w| ==> !IsBlank(w[i])
  }

  /** The length of the run of non-blanks at the start. */
  function WordLength(s: string): (n: nat)
    ensures n <= |s| && (forall i :: 0 <= i < n ==> !IsBlank(s[i])) && (n < |s| ==> IsBlank(s[n]))
  {
    if s == "" || IsBlank(s[0]) then 0 else 1 + WordLength(s[1..])
  }

  /** The nonempty pieces of a split on runs of blanks. */
  function Words(s: string): (ws: seq<string>)
    ensures forall i :: 0 <= i < |ws| ==> IsWord(ws[i])
    decreases |s|
  {
    if s == "" then []
    else if IsBlank(s[0]) then Words(s[1..])
    else [s[..WordLength(s)]] + Words(s[WordLength(s)..])
  }

  // ----- What the words of a text are -----

  ghost predicate IsGap(g: string) {
    forall i :: 0 <= i < |g| ==> g[i] == ' ' || g[i] == '\t'
  }

  /** Each word followed by its gap. */
  ghost function Glue(words: seq<string>, gaps: seq<string>): string
    requires |words| == |gaps|
  {
    if words == [] then "" else words[0] + (gaps[0] + Glue(words[1..], gaps[1..]))
  }

  /** The gaps are blanks; only the last may be empty, when nothing is left behind it. */
  ghost predicate AreGaps(gaps: seq<string>, rest: string) {
    && (forall i :: 0 <= i < |gaps| ==> IsGap(gaps[i]))
    && (forall i :: 0 <= i < |gaps| && gaps[i] == "" ==> i == |gaps| - 1 && rest == "")
  }

  ghost predicate StartsSolid(s: string) {
    s != "" ==> s[0] != ' ' && s[0] != '\t'
  }

  /** The text is these words, with blanks in front and between them. */
  ghost predicate AreWordsOf(s: string, lead: string, ws: seq<string>, gaps: seq<string>) {
    && IsGap(lead) && |ws| == |gaps| && s == lead + Glue(ws, gaps) && AreGaps(gaps, "")
    && forall i :: 0 <= i < |ws| ==> IsWord(ws[i])
  }

  lemma {:induction false} WordEnds(w: string, tail: string)
    requires IsWord(w) && (tail != "" ==> IsBlank(tail[0]))
    ensures WordLength(w + tail) == |w|
  {
    if |w| > 1 {
      WordEnds(w[1..], tail);
      assert (w + tail)[1..] == w[1..] + tail;
    }
  }

  lemma SkipGap(gap: string, after: string)
    requires IsGap(gap) && StartsSolid(after)
    ensures TrimLeft(gap + after, IsBlank) == after
  {
    var s := gap + after;
    if after == "" {
      assert s == gap;
      TrimLeftOfBlank(gap, IsBlank);
    } else {
      TrimLeftStops(s, |gap|, IsBlank);
      assert s[|gap|..] == after;
    }
  }

  lemma {:induction false} WordsSkipGap(gap: string, s: string)
    requires IsGap(gap)
    ensures Words(gap + s) == Words(s)
  {
    if gap == "" {
      assert gap + s == s;
    } else {
      WordsSkipGap(gap[1..], s);
      assert (gap + s)[1..] == gap[1..] + s;
    }
  }

  lemma WordsTakeOne(w: string, tail: string)
    requires IsWord(w) && (tail != "" ==> IsBlank(tail[0]))
    ensures Words(w + tail) == [w] + Words(tail)
  {
    WordEnds(w, tail);
    assert (w + tail)[..|w|] == w && (w + tail)[|w|..] == tail;
  }

  lemma {:induction false} GluedWords(ws: seq<string>, gaps: seq<string>)
    requires |ws| == |gaps| && AreGaps(gaps, "") && forall i :: 0 <= i < |ws| ==> IsWord(ws[i])
    ensures Words(Glue(ws, gaps)) == ws
    decreases |ws|
  {
    if ws != [] {
      var after := Glue(ws[1..], gaps[1..]);
      GluedWords(ws[1..], gaps[1..]);
      if gaps[0] == "" {
        assert ws[1..] == [] && gaps[0] + after == "";
      }
      WordsTakeOne(ws[0], gaps[0] + after);
      WordsSkipGap(gaps[0], after);
    }
  }

  /** However the text is taken apart into words and blanks, these are its words. */
  lemma WordsAreExact(s: string, lead: string, ws: seq<string>, gaps: seq<string>)
    requires AreWordsOf(s, lead, ws, gaps)
    ensures Words(s) == ws
  {
    WordsSkipGap(lead, Glue(ws, gaps));
    GluedWords(ws, gaps);
  }

  /** And every text can be. */
  lemma {:induction false} WordsExist(s: string) returns (lead: string, gaps: seq<string>)
    ensures AreWordsOf(s, lead, Words(s), gaps)
    decreases |s|
  {
    if s == "" {
      lead, gaps := "", [];
    } else if IsBlank(s[0]) {
      var more;
      more, gaps := WordsExist(s[1..]);
      lead := [s[0]] + more;
      Assoc([s[0]], more, Glue(Words(s[1..]), gaps));
      assert s == [s[0]] + s[1..];
    } else {
      var n := WordLength(s);
      var gap, more := WordsExist(s[n..]);
      lead, gaps := "", [gap] + more;
      var ws := Words(s[n..]);
      assert ([s[..n]] + ws)[1..] == ws && gaps[1..] == more;
      assert s == s[..n] + s[n..];
      FirstGap(s[n..], gap, ws, more);
    }
  }

  lemma FirstGap(s: string, gap: string, ws: seq<string>, gaps: seq<string>)
    requires AreWordsOf(s, gap, ws, gaps) && (s != "" ==> IsBlank(s[0]))
    ensures AreGaps([gap] + gaps, "")
  {
    assert ws != [] ==> Glue(ws, gaps)[0] == ws[0][0];
  }

  predicate AllWords(ws: seq<string>) {
    forall i :: 0 <= i < |ws| ==> IsWord(ws[i])
  }

  /** Every word with a blank in front. */
  function Tail(ws: seq<string>): string {
    if ws == [] then "" else [' '] + (ws[0] + Tail(ws[1..]))
  }

  /** `" ".join(words)`. */
  function JoinWords(ws: seq<string>): string {
    if ws == [] then "" else ws[0] + Tail(ws[1..])
  }

  /** `rest == prefix or rest.startswith(prefix + " ")`. */
  predicate TextPrefix(rest: string, prefix: string) {
    rest == prefix || StartsWith(rest, prefix + " ")
  }

  predicate WordPrefix(ws: seq<string>, ps: seq<string>) {
    |ps| <= |ws| && ws[..|ps|] == ps
  }

  /** Empty, or set off by a blank. */
  predicate SetOff(s: string) {
    s == "" || s[0] == ' '
  }

  lemma WordsSplitUniquely(a: string, b: string, s: string, t: string)
    requires IsWord(a) && IsWord(b) && SetOff(s) && SetOff(t) && a + s == b + t
    ensures a == b && s == t
  {
    var x := a + s;
    assert forall i :: 0 <= i < |a| ==> x[i] == a[i];
    assert forall i :: 0 <= i < |b| ==> x[i] == (b + t)[i] == b[i];
    assert s != "" ==> x[|a|] == ' ';
    assert t != "" ==> x[|b|] == (b + t)[|b|] == ' ';
    assert |a| == |b|;
    assert a == x[..|a|] && b == (b + t)[..|b|];
    assert s == x[|a|..] && t == (b + t)[|b|..];
  }

  lemma TailIsSetOff(ws: seq<string>, more: string)
    requires SetOff(more)
    ensures SetOff(Tail(ws) + more)
  {
  }

  lemma {:induction false} TailConcat(a: seq<string>, b: seq<string>)
    ensures Tail(a + b) == Tail(a) + Tail(b)
  {
    if a == [] {
      assert a + b == b;
    } else {
      var x, y := Tail(a[1..]), Tail(b);
      assert Tail((a + b)[1..]) == x + y by {
        assert (a + b)[1..] == a[1..] + b;
        TailConcat(a[1..], b);
      }
      Assoc(a[0], x, y);
      Assoc([' '], a[0] + x, y);
    }
  }

  lemma SameAfterBlank(a: string, b: string, more: string)
    requires [' '] + a == ([' '] + b) + more
    ensures a == b + more
  {
    assert a == ([' '] + a)[1..];
    assert b + more == (([' '] + b) + more)[1..];
  }

  /** The first word of two such texts, with what follows it. */
  lemma FirstWordsAgree(w: string, p: string, s: string, u: string, more: string)
    requires IsWord(w) && IsWord(p) && SetOff(s) && SetOff(u + more)
    requires [' '] + (w + s) == ([' '] + (p + u)) + more
    ensures w == p && s == u + more
  {
    SameAfterBlank(w + s, p + u, more);
    Assoc(p, u, more);
    WordsSplitUniquely(w, p, s, u + more);
  }

  lemma HeadsAgree(ws: seq<string>, ps: seq<string>, more: string)
    requires AllWords(ws) && AllWords(ps) && SetOff(more) && ps != [] && Tail(ws) == Tail(ps) + more
    ensures ws != [] && ws[0] == ps[0] && Tail(ws[1..]) == Tail(ps[1..]) + more
  {
    assert ws != [] by { assert |Tail(ps) + more| > 0; }
    var s, u := Tail(ws[1..]), Tail(ps[1..]);
    assert SetOff(s) by {
      TailIsSetOff(ws[1..], "");
      assert s + "" == s;
    }
    TailIsSetOff(ps[1..], more);
    FirstWordsAgree(ws[0], ps[0], s, u, more);
  }

  lemma {:induction false} TailPrefix(ws: seq<string>, ps: seq<string>, more: string)
    requires AllWords(ws) && AllWords(ps) && SetOff(more) && Tail(ws) == Tail(ps) + more
    ensures WordPrefix(ws, ps)
    decreases |ps|
  {
    if ps != [] {
      HeadsAgree(ws, ps, more);
      TailPrefix(ws[1..], ps[1..], more);
      assert ws[..|ps|] == [ws[0]] + ws[1..][..|ps| - 1];
    }
  }

  lemma JoinInTail(ws: seq<string>)
    requires ws != []
    ensures Tail(ws) == [' '] + JoinWords(ws)
  {
  }

  lemma RestOfPrefix(rest: string, prefix: string) returns (more: string)
    requires TextPrefix(rest, prefix)
    ensures rest == prefix + more && SetOff(more)
  {
    more := rest[|prefix|..];
    if rest != prefix {
      assert rest[|prefix|] == (prefix + " ")[|prefix|];
      assert rest[..|prefix|] == (prefix + " ")[..|prefix|];
    }
  }

  lemma PrefixOfJoin(ws: seq<string>, ps: seq<string>)
    requires AllWords(ws) && AllWords(ps) && ps != [] && ws != []
    requires TextPrefix(JoinWords(ws), JoinWords(ps))
    ensures WordPrefix(ws, ps)
  {
    var more := RestOfPrefix(JoinWords(ws), JoinWords(ps));
    JoinInTail(ws);
    JoinInTail(ps);
    assert [' '] + (JoinWords(ps) + more) == ([' '] + JoinWords(ps)) + more;
    TailPrefix(ws, ps, more);
  }

  /** On words joined by single blanks the textual prefix test is a test on whole words. */
  lemma TextPrefixIsWordPrefix(ws: seq<string>, ps: seq<string>)
    requires AllWords(ws) && AllWords(ps) && ps != []
    ensures TextPrefix(JoinWords(ws), JoinWords(ps)) <==> WordPrefix(ws, ps)
  {
    assert JoinWords(ps) != "" by { assert |JoinWords(ps)| >= |ps[0]| > 0; }
    if ws != [] && TextPrefix(JoinWords(ws), JoinWords(ps)) {
      PrefixOfJoin(ws, ps);
    }
    if WordPrefix(ws, ps) {
      JoinOfPrefix(ws, ps);
    }
  }

  lemma JoinOfPrefix(ws: seq<string>, ps: seq<string>)
    requires ps != [] && WordPrefix(ws, ps)
    ensures TextPrefix(JoinWords(ws), JoinWords(ps))
  {
    var more := ws[|ps|..];
    assert ws[1..] == ps[1..] + more;
    TailConcat(ps[1..], more);
    assert JoinWords(ws) == JoinWords(ps) + Tail(more);
    if more != [] {
      assert JoinWords(ws)[..|JoinWords(ps)| + 1] == JoinWords(ps) + " ";
    }
  }
}
