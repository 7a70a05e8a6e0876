/**
 The quote-aware command splitter of the release guard (`v18_split` in
 ci/actionlint/release_guard.py), refined against an automaton that labels every character
 of the line.
 */
module CommandLines {
  import opened Text

  // ----- The automaton -----

  datatype Mode =
    | Code       // outside quotes
    | Single     // inside '...'
    | Double     // inside "..."
    | CodeEsc    // the character after a backslash outside quotes
    | DoubleEsc  // the character after a backslash inside "..."
    | Operator   // the second character of &&, || or |&

  ghost predicate IsSeparator(c: char) {
    c == ';' || c == '|' || c == '&'
  }

  ghost predicate IsAngle(c: char) {
    c == '<' || c == '>'
  }

  /** The separator rule: an `&` that touches a redirection does not separate. */
  ghost predicate Separates(text: string, k: int)
    requires 0 <= k < |text|
  {
    IsSeparator(text[k])
    && !(text[k] == '&' && ((k > 0 && IsAngle(text[k - 1])) || (k + 1 < |text| && text[k + 1] == '>')))
  }

  ghost function Width(text: string, k: int): (w: int)
    requires 0 <= k < |text|
    ensures 1 <= w <= 2 && k + w <= |text|
    ensures w == 2 ==> IsSeparator(text[k + 1])
  {
    if k + 1 < |text|
       && ((text[k] == '&' && text[k + 1] == '&')
           || (text[k] == '|' && text[k + 1] == '|')
           || (text[k] == '|' && text[k + 1] == '&'))
    then 2 else 1
  }

  ghost function Next(text: string, k: int, mode: Mode): Mode
    requires 0 <= k < |text|
  {
    match mode
    case Single => if text[k] == '\'' then Code else Single
    case CodeEsc => Code
    case DoubleEsc => Double
    case Operator => Code
    case Double => if text[k] == '\\' then DoubleEsc else if text[k] == '"' then Code else Double
    case Code =>
      if text[k] == '\\' then CodeEsc
      else if text[k] == '\'' then Single
      else if text[k] == '"' then Double
      else if Separates(text, k) && Width(text, k) == 2 then Operator
      else Code
  }

  /** The mode in which character `k` is read; at the end, the mode the line ends in. */
  ghost function ModeAt(text: string, k: int): Mode
    requires 0 <= k <= |text|
    decreases k
  {
    if k == 0 then Code else Next(text, k - 1, ModeAt(text, k - 1))
  }

  /** A command separator starts here. */
  ghost predicate CutAt(text: string, k: int)
    requires 0 <= k < |text|
  {
    ModeAt(text, k).Code? && Separates(text, k)
  }

  ghost predicate Unterminated(text: string) {
    var last := ModeAt(text, |text|);
    last.Single? || last.Double? || last.DoubleEsc?
  }

  /** The first cut at or after `k`; the end of the line when there is none. */
  ghost function NextCut(text: string, k: int): (r: int)
    requires 0 <= k <= |text|
    ensures k <= r <= |text|
    ensures r < |text| ==> CutAt(text, r)
    ensures forall j :: k <= j < r ==> !CutAt(text, j)
    decreases |text| - k
  {
    if k == |text| || CutAt(text, k) then k else NextCut(text, k + 1)
  }

  /** The text between the cuts from `k` on. */
  ghost function Segments(text: string, k: int): (segs: seq<string>)
    requires 0 <= k <= |text|
    ensures segs != []
    decreases |text| - k
  {
    var c := NextCut(text, k);
    if c == |text| then [text[k..]] else [text[k..c]] + Segments(text, c + Width(text, c))
  }

  ghost function Separators(text: string, k: int): seq<string>
    requires 0 <= k <= |text|
    decreases |text| - k
  {
    var c := NextCut(text, k);
    if c == |text| then [] else [text[c..c + Width(text, c)]] + Separators(text, c + Width(text, c))
  }

  // ----- Nothing is lost -----

  ghost function Interleave(segs: seq<string>, seps: seq<string>): string
    requires |segs| == |seps| + 1
  {
    if seps == [] then segs[0] else segs[0] + seps[0] + Interleave(segs[1..], seps[1..])
  }

  lemma InterleaveCons(seg: string, sep: string, segs: seq<string>, seps: seq<string>)
    requires |segs| == |seps| + 1
    ensures Interleave([seg] + segs, [sep] + seps) == seg + sep + Interleave(segs, seps)
  {
    assert ([seg] + segs)[1..] == segs && ([sep] + seps)[1..] == seps;
  }

  lemma InThree(text: string, k: int, c: int, e: int)
    requires 0 <= k <= c <= e <= |text|
    ensures text[k..] == text[k..c] + text[c..e] + text[e..]
  {
  }

  lemma {:induction false} OneMoreSegment(text: string, k: int)
    requires 0 <= k <= |text|
    ensures |Segments(text, k)| == |Separators(text, k)| + 1
    decreases |text| - k
  {
    var c := NextCut(text, k);
    if c < |text| {
      OneMoreSegment(text, c + Width(text, c));
    }
  }

  /** Segments and separators, put back in turn, are the line. */
  lemma {:induction false} InterleaveRestoresLine(text: string, k: int)
    requires 0 <= k <= |text| && |Segments(text, k)| == |Separators(text, k)| + 1
    ensures Interleave(Segments(text, k), Separators(text, k)) == text[k..]
    decreases |text| - k
  {
    var c := NextCut(text, k);
    if c < |text| {
      var e := c + Width(text, c);
      var segs, seps := Segments(text, e), Separators(text, e);
      OneMoreSegment(text, e);
      InterleaveRestoresLine(text, e);
      InterleaveCons(text[k..c], text[c..e], segs, seps);
      InThree(text, k, c, e);
    } else {
      LastSegment(text, k);
      assert text[k..|text|] == text[k..];
    }
  }

  /** A line and its split: the segments, interleaved with the separators, are the line. */
  lemma SplitLosesNothing(text: string)
    ensures |Segments(text, 0)| == |Separators(text, 0)| + 1
    ensures |Segments(text, 0)| == |Separators(text, 0)| + 1 ==> Interleave(Segments(text, 0), Separators(text, 0)) == text
  {
    OneMoreSegment(text, 0);
    InterleaveRestoresLine(text, 0);
    assert text[0..] == text;
  }

  // ----- Every segment is one command -----

  /** A position where a segment may start: read as code, and not right behind an angle. */
  ghost predicate SegmentStart(text: string, a: int) {
    0 <= a <= |text| && ModeAt(text, a).Code? && (a > 0 ==> !IsAngle(text[a - 1]))
  }

  lemma AfterCutIsStart(text: string, c: int)
    requires 0 <= c < |text| && CutAt(text, c)
    ensures SegmentStart(text, c + Width(text, c))
  {
    if Width(text, c) == 2 {
      assert ModeAt(text, c + 1) == Operator;
      assert ModeAt(text, c + 2) == Code;
    } else {
      assert ModeAt(text, c + 1) == Code;
    }
  }

  lemma SameSeparators(text: string, a: int, b: int, k: int)
    requires SegmentStart(text, a) && a <= b <= |text| && (b < |text| ==> IsSeparator(text[b]))
    requires 0 <= k < b - a
    ensures Separates(text[a..b], k) == Separates(text, a + k)
  {
    var seg := text[a..b];
    assert seg[k] == text[a + k];
    if k > 0 {
      assert seg[k - 1] == text[a + k - 1];
    }
    if k + 1 < |seg| {
      assert seg[k + 1] == text[a + k + 1];
    }
  }

  /** Cut out of its line, a segment is read in the same modes as inside it. */
  lemma {:induction false} SameModes(text: string, a: int, b: int, k: int)
    requires SegmentStart(text, a) && a <= b <= |text| && (b < |text| ==> IsSeparator(text[b]))
    requires forall j :: a <= j < b ==> !CutAt(text, j)
    requires 0 <= k <= b - a
    ensures ModeAt(text[a..b], k) == ModeAt(text, a + k) && !ModeAt(text, a + k).Operator?
    decreases k
  {
    if k > 0 {
      SameModes(text, a, b, k - 1);
      SameSeparators(text, a, b, k - 1);
      assert !CutAt(text, a + k - 1);
      assert text[a..b][k - 1] == text[a + k - 1];
    }
  }

  lemma SegmentHasNoCut(text: string, a: int, b: int)
    requires SegmentStart(text, a) && a <= b <= |text| && (b < |text| ==> IsSeparator(text[b]))
    requires forall j :: a <= j < b ==> !CutAt(text, j)
    ensures Segments(text[a..b], 0) == [text[a..b]] && Separators(text[a..b], 0) == []
  {
    var seg := text[a..b];
    forall k | 0 <= k < |seg|
      ensures !CutAt(seg, k)
    {
      SameModes(text, a, b, k);
      SameSeparators(text, a, b, k);
      assert !CutAt(text, a + k);
    }
    assert NextCut(seg, 0) == |seg|;
    assert seg[0..] == seg;
  }

  lemma FirstSegmentIsAtomic(text: string, k: int)
    requires SegmentStart(text, k)
    ensures 0 <= k <= NextCut(text, k) <= |text|
    ensures IsAtomicPart(text, text[k..NextCut(text, k)])
  {
    var c := NextCut(text, k);
    SegmentHasNoCut(text, k, c);
    SameModes(text, k, c, c - k);
  }

  /** Where the segments of `text` from `k` on come from. */
  lemma SegmentAt(text: string, k: int, i: int)
    requires 0 <= k <= |text| && 0 <= i < |Segments(text, k)|
    ensures var c := NextCut(text, k);
      && (i == 0 ==> Segments(text, k)[i] == text[k..c])
      && (i > 0 ==> c < |text| && i <= |Segments(text, c + Width(text, c))|
                    && Segments(text, k)[i] == Segments(text, c + Width(text, c))[i - 1])
  {
    assert text[k..] == text[k..|text|];
  }

  ghost predicate IsAtomicPart(text: string, seg: string) {
    Segments(seg, 0) == [seg] && (!Unterminated(text) ==> !Unterminated(seg))
  }

  /** Every segment of a line splits again to just itself. */
  lemma {:induction false} SegmentsAreAtomic(text: string, k: int, i: int)
    requires SegmentStart(text, k) && 0 <= i < |Segments(text, k)|
    ensures IsAtomicPart(text, Segments(text, k)[i])
    decreases |text| - k
  {
    var c := NextCut(text, k);
    SegmentAt(text, k, i);
    if i == 0 {
      FirstSegmentIsAtomic(text, k);
    } else {
      AfterCutIsStart(text, c);
      SegmentsAreAtomic(text, c + Width(text, c), i - 1);
    }
  }

  // ----- The splitter -----

  ghost predicate IsBlankText(s: string) {
    forall i :: 0 <= i < |s| ==> s[i] == ' ' || s[i] == '\t'
  }

  ghost function NonBlank(segs: seq<string>): (r: seq<string>)
    ensures forall s :: s in r <==> s in segs && !IsBlankText(s)
  {
    if segs == [] then []
    else NonBlank(segs[..|segs| - 1]) + if IsBlankText(segs[|segs| - 1]) then [] else [segs[|segs| - 1]]
  }

  lemma StripsToNothing(s: string)
    ensures Trim(s, IsBlank) == "" <==> IsBlankText(s)
  {
    TrimmedIsPadded(s, IsBlank);
    if IsBlankText(s) {
      BlankTrims(s, IsBlank);
    }
  }

  method KeepNonBlank(segs: seq<string>) returns (r: seq<string>)
    ensures r == NonBlank(segs)
  {
    r := [];
    for i := 0 to |segs|
      invariant r == NonBlank(segs[..i])
    {
      assert segs[..i + 1][..i] == segs[..i];
      StripsToNothing(segs[i]);
      if Trim(segs[i], IsBlank) != "" {
        r := r + [segs[i]];
      }
    }
    assert segs[..|segs|] == segs;
  }

  /** The value of the source's `quote` variable in a mode. */
  ghost function QuoteOf(mode: Mode): string {
    match mode
    case Single => "'"
    case Double => "\""
    case DoubleEsc => "\""
    case _ => ""
  }

  ghost predicate Settled(mode: Mode) {
    mode.Code? || mode.Single? || mode.Double?
  }

  /** The splitter's variables in front of character `i`: what has been cut off, and the
      segment that began at `start`. */
  ghost predicate Progress(text: string, i: int, start: int, quote: string, segs: seq<string>, seps: seq<string>) {
    0 <= start <= i <= |text| && NextCut(text, start) >= i
    && quote == QuoteOf(ModeAt(text, i)) && (i < |text| ==> Settled(ModeAt(text, i)))
    && Segments(text, 0) == segs + Segments(text, start)
    && Separators(text, 0) == seps + Separators(text, start)
  }

  /** Where the splitter goes from character `i`, and the quote it is in then. */
  ghost predicate Moves(text: string, i: int, quote: string, e: int, quote': string) {
    0 <= i < |text|
    && (if quote == "'" then e == i + 1 && quote' == (if text[i] == '\'' then "" else quote)
        else if text[i] == '\\' then e == (if i + 2 <= |text| then i + 2 else |text|) && quote' == quote
        else if quote == "\"" then e == i + 1 && quote' == (if text[i] == '"' then "" else quote)
        else if text[i] == '\'' || text[i] == '"' then e == i + 1 && quote' == [text[i]]
        else !Separates(text, i) && e == i + 1 && quote' == quote)
  }

  lemma MovesInModes(text: string, i: int, quote: string, e: int, quote': string)
    requires Moves(text, i, quote, e, quote') && Settled(ModeAt(text, i)) && quote == QuoteOf(ModeAt(text, i))
    ensures i < e <= |text| && (forall k :: i <= k < e ==> !CutAt(text, k))
    ensures quote' == QuoteOf(ModeAt(text, e)) && (e < |text| ==> Settled(ModeAt(text, e)))
  {
    if quote != "'" && text[i] == '\\' {
      assert ModeAt(text, i + 1) == if ModeAt(text, i).Code? then CodeEsc else DoubleEsc;
    }
  }

  /** Characters that start no separator join the current segment. */
  lemma Keep(text: string, i: int, start: int, quote: string, segs: seq<string>, seps: seq<string>, e: int, quote': string)
    requires Progress(text, i, start, quote, segs, seps) && Moves(text, i, quote, e, quote')
    ensures Progress(text, e, start, quote', segs, seps)
    ensures text[start..i] + text[i..e] == text[start..e]
  {
    MovesInModes(text, i, quote, e, quote');
  }

  /** At the end of the line the last segment is what is left. */
  lemma Finish(text: string, start: int, quote: string, segs: seq<string>, seps: seq<string>)
    requires Progress(text, |text|, start, quote, segs, seps)
    ensures Segments(text, 0) == segs + [text[start..|text|]] && Separators(text, 0) == seps
    ensures Unterminated(text) <==> quote != ""
  {
    assert NextCut(text, start) == |text|;
    LastSegment(text, start);
  }

  lemma LastSegment(text: string, start: int)
    requires 0 <= start <= |text| && NextCut(text, start) == |text|
    ensures Segments(text, start) == [text[start..|text|]] && Separators(text, start) == []
  {
    assert text[start..] == text[start..|text|];
  }

  /** A separator ends the current segment. */
  lemma Cut(text: string, i: int, start: int, segs: seq<string>, seps: seq<string>)
    requires Progress(text, i, start, "", segs, seps) && i < |text| && CutAt(text, i)
    ensures
      var e := i + Width(text, i);
      Progress(text, e, e, "", segs + [text[start..i]], seps + [text[i..e]])
  {
    var e := i + Width(text, i);
    assert NextCut(text, start) == i;
    AfterCutIsStart(text, i);
    assert (segs + [text[start..i]]) + Segments(text, e) == segs + ([text[start..i]] + Segments(text, e));
    assert (seps + [text[i..e]]) + Separators(text, e) == seps + ([text[i..e]] + Separators(text, e));
  }

  lemma PairIs(text: string, i: int)
    requires 0 <= i < |text|
    ensures Width(text, i) == 2 <==> i + 2 <= |text| && (text[i..i + 2] == "&&" || text[i..i + 2] == "||" || text[i..i + 2] == "|&")
  {
    if i + 2 <= |text| {
      var two := text[i..i + 2];
      assert two[0] == text[i] && two[1] == text[i + 1];
    }
  }

  /** One turn of the splitter's loop: how far it reads, the quote state it leaves, and
      whether it read a separator. */
  method ReadOne(text: string, i: int, quote: string) returns (e: int, next: string, cut: bool)
    requires 0 <= i < |text| && (quote == "" || quote == "'" || quote == "\"")
    ensures cut ==> quote == next == "" && Separates(text, i) && e == i + Width(text, i)
    ensures !cut ==> Moves(text, i, quote, e, next)
  {
    var c, n := text[i], |text|;
    e, next, cut := i + 1, quote, false;
    if quote == "'" {
      if c == '\'' {
        next := "";
      }
    } else if c == '\\' {
      e := if i + 2 <= n then i + 2 else n;
    } else if quote == "\"" {
      if c == '"' {
        next := "";
      }
    } else if c == '\'' || c == '"' {
      next := [c];
    } else if c in ";|&" {
      if !(c == '&' && ((i > 0 && text[i - 1] in "<>") || (i + 1 < n && text[i + 1] == '>'))) {
        var two := if i + 2 <= n then text[i..i + 2] else "";
        PairIs(text, i);
        e := if two == "&&" || two == "||" || two == "|&" then i + 2 else i + 1;
        cut := true;
      }
    }
  }

  datatype SplitResult = Refused | Commands(segs: seq<string>)

  /** `v18_split`: refuses exactly the lines that end inside a quote; otherwise the nonblank
      texts between the automaton's cuts, and every separator found. */
  method SplitLine(text: string) returns (r: SplitResult, seps: seq<string>)
    ensures r.Refused? <==> Unterminated(text)
    ensures r.Commands? ==> r.segs == NonBlank(Segments(text, 0))
    ensures seps == Separators(text, 0)
  {
    var segs: seq<string> := [];
    seps := [];
    var cur, quote, i, n := "", "", 0, |text|;
    ghost var start := 0;
    while i < n
      invariant Progress(text, i, start, quote, segs, seps)
      invariant cur == text[start..i]
    {
      var e, next, cut := ReadOne(text, i, quote);
      if cut {
        Cut(text, i, start, segs, seps);
        seps := seps + [text[i..e]];
        segs := segs + [cur];
        cur := "";
        start := e;
      } else {
        Keep(text, i, start, quote, segs, seps, e, next);
        cur := cur + text[i..e];
      }
      i, quote := e, next;
    }
    Finish(text, start, quote, segs, seps);
    if quote != "" {
      return Refused, seps;
    }
    segs := KeepNonBlank(segs + [cur]);
    return Commands(segs), seps;
  }
}
