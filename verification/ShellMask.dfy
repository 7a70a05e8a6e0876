/**
 Which characters of one physical shell line the shell executes: the quote mask, the
 blanking of operator spans, the comment cut and the heredoc opener (`_line_regions`).
 */
module ShellMask {
  import opened Text
  import opened Covers

  /** Same length, and every character kept or replaced by a space. */
  ghost predicate Masks(mask: string, s: string) {
    |mask| == |s| && forall i :: 0 <= i < |s| ==> mask[i] == s[i] || mask[i] == ' '
  }

  lemma MasksConcat(m: string, s: string, n: string, t: string)
    requires Masks(m, s) && Masks(n, t)
    ensures Masks(m + n, s + t)
  {
  }

  // ---- Quotes ----

  predicate IsQuote(c: char) {
    c == '\'' || c == '"'
  }

  /** The partner of an opening quote at offset 0. */
  function Partner(s: string): (r: int)
    ensures r == -1 || 0 < r < |s|
  {
    if s != [] && IsQuote(s[0]) then Find(s, s[0], 1) else -1
  }

  /** The mask of the first pair, or of one character that opens none. */
  function QuoteHead(s: string): (head: string)
    requires s != []
    ensures 0 < |head| <= |s|
  {
    if Partner(s) >= 0 then Spaces(Partner(s) + 1) else [s[0]]
  }

  /** `SHELL_STRING_RE.sub`: matched quote pairs become runs of spaces, from the left. */
  function QuoteMask(s: string): string
    decreases |s|
  {
    if s == [] then [] else QuoteHead(s) + QuoteMask(s[|QuoteHead(s)|..])
  }

  lemma QuoteHeadMasks(s: string)
    requires s != []
    ensures Masks(QuoteHead(s), s[..|QuoteHead(s)|])
  {
  }

  lemma {:induction false} QuoteMaskMasks(s: string)
    ensures Masks(QuoteMask(s), s)
    decreases |s|
  {
    if s != [] {
      var n := |QuoteHead(s)|;
      QuoteMaskMasks(s[n..]);
      QuoteHeadMasks(s);
      MasksConcat(QuoteHead(s), s[..n], QuoteMask(s[n..]), s[n..]);
      assert s == s[..n] + s[n..];
    }
  }

  lemma {:induction false} FindShift(s: string, n: nat, c: char, from: nat)
    requires n <= |s|
    ensures var r := Find(s[n..], c, from); Find(s, c, from + n) == if r < 0 then r else r + n
    decreases |s| - from
  {
    if from + n < |s| {
      assert s[n..][from] == s[from + n];
      FindShift(s, n, c, from + 1);
    }
  }

  lemma MaskShift(s: string, n: nat, i: nat)
    requires s != [] && n == |QuoteHead(s)| && n <= i < |s|
    ensures |QuoteMask(s)| == |s| && |QuoteMask(s[n..])| == |s| - n
    ensures QuoteMask(s)[i] == QuoteMask(s[n..])[i - n] && s[i] == s[n..][i - n]
  {
    QuoteMaskMasks(s);
    QuoteMaskMasks(s[n..]);
    ConcatAt(QuoteHead(s), QuoteMask(s[n..]), i);
  }

  lemma MaskHead(s: string, i: nat)
    requires s != [] && i < |QuoteHead(s)|
    ensures i < |QuoteMask(s)| && QuoteMask(s)[i] == QuoteHead(s)[i]
  {
  }

  /** Where the partner of a quote stands. */
  ghost function QuoteEnds(s: string): Ends {
    (k: int) => if 0 <= k < |s| && (s[k] == '\'' || s[k] == '"') then Find(s, s[k], k + 1) else -1
  }

  lemma QuoteEndsAreEnds(s: string)
    ensures AreEnds(s, QuoteEnds(s))
  {
  }

  lemma QuoteHeadIsHead(s: string, n: nat)
    requires n < |s|
    ensures AreEnds(s, QuoteEnds(s)) && QuoteHead(s[n..]) == Head(s, QuoteEnds(s), n)
  {
    QuoteEndsAreEnds(s);
    assert s[n..][0] == s[n];
    FindShift(s, n, s[n], 1);
  }

  lemma QuoteMaskStep(s: string, n: nat, head: string)
    requires n < |s| && head == QuoteHead(s[n..])
    ensures n + |head| <= |s| && QuoteMask(s[n..]) == head + QuoteMask(s[n + |head|..])
  {
    assert s[n..][|head|..] == s[n + |head|..];
  }

  /** The rest of the mask, given the rest of the blanking. */
  lemma OneHeadMore(s: string, ends: Ends, n: nat, head: string)
    requires n < |s| && AreEnds(s, ends) && head == QuoteHead(s[n..]) == Head(s, ends, n)
    requires AgreeFrom(s, ends, n + |head|)
    ensures AgreeFrom(s, ends, n)
  {
    QuoteMaskStep(s, n, head);
  }

  ghost predicate AgreeFrom(s: string, ends: Ends, n: nat)
    requires n <= |s| && AreEnds(s, ends)
  {
    QuoteMask(s[n..]) == Blanked(s, ends, n)
  }

  lemma AgreeAtEnd(s: string, ends: Ends)
    requires AreEnds(s, ends)
    ensures AgreeFrom(s, ends, |s|)
  {
  }

  ghost predicate SameHead(s: string, ends: Ends, m: nat)
    requires m < |s| && AreEnds(s, ends)
  {
    QuoteHead(s[m..]) == Head(s, ends, m)
  }

  ghost predicate SameHeads(s: string, ends: Ends) {
    AreEnds(s, ends) && forall m {:trigger SameHead(s, ends, m)} :: 0 <= m < |s| ==> SameHead(s, ends, m)
  }

  lemma {:induction false} QuoteMaskIsBlankingFrom(s: string, ends: Ends, n: nat)
    requires n <= |s| && SameHeads(s, ends)
    ensures AgreeFrom(s, ends, n)
    decreases |s| - n
  {
    if n == |s| {
      AgreeAtEnd(s, ends);
    } else {
      assert SameHead(s, ends, n);
      var head := QuoteHead(s[n..]);
      QuoteMaskIsBlankingFrom(s, ends, n + |head|);
      OneHeadMore(s, ends, n, head);
    }
  }

  lemma QuoteMaskIsBlanking(s: string)
    ensures AreEnds(s, QuoteEnds(s)) && QuoteMask(s) == Blanked(s, QuoteEnds(s), 0)
  {
    QuoteEndsAreEnds(s);
    forall m | 0 <= m < |s| ensures SameHead(s, QuoteEnds(s), m) {
      QuoteHeadIsHead(s, m);
    }
    QuoteMaskIsBlankingFrom(s, QuoteEnds(s), 0);
    assert s[0..] == s;
  }

  /** The quote mask blanks exactly the matched pairs: take disjoint stretches, each from a quote to
      the next quote of its kind, that leave no quote with a partner outside; what lies in one of
      them is blanked and nothing else is. */
  lemma QuoteMaskIsExact(s: string, pairs: set<int>, k: int)
    requires 0 <= k < |s| && IsCover(s, QuoteEnds(s), 0, pairs)
    ensures |QuoteMask(s)| == |s| && QuoteMask(s)[k] == CharAfter(s, QuoteEnds(s), pairs, k)
  {
    QuoteMaskIsBlanking(s);
    BlankingIsExact(s, QuoteEnds(s), pairs, k);
  }

  /** There are such pairs in every text. */
  lemma SomePairs(s: string) returns (pairs: set<int>)
    ensures IsCover(s, QuoteEnds(s), 0, pairs)
  {
    QuoteEndsAreEnds(s);
    pairs := SomeCover(s, QuoteEnds(s), 0);
  }

  lemma LonelyHead(s: string, i: nat)
    requires s != [] && i < |QuoteHead(s)| && IsQuote(QuoteHead(s)[i])
    ensures i == 0 && forall j :: 0 < j < |s| ==> s[j] != s[0]
  {
  }

  lemma LastInSuffix(s: string, n: nat, i: nat)
    requires n <= i < |s| && forall j :: i - n < j < |s[n..]| ==> s[n..][j] != s[n..][i - n]
    ensures forall j :: i < j < |s| ==> s[j] != s[i]
  {
    forall j | i < j < |s| ensures s[j] != s[i] {
      assert s[j] == s[n..][j - n];
    }
  }

  /** A quote that survives the mask has no later partner, so each kind survives at most once. */
  lemma {:induction false} SurvivingQuoteIsLast(s: string, i: nat)
    requires i < |s| && |QuoteMask(s)| == |s| && IsQuote(QuoteMask(s)[i])
    ensures forall j :: i < j < |s| ==> s[j] != s[i]
    decreases |s|
  {
    var n := |QuoteHead(s)|;
    if i < n {
      MaskHead(s, i);
      LonelyHead(s, i);
    } else {
      var t := s[n..];
      MaskShift(s, n, i);
      SurvivingQuoteIsLast(t, i - n);
      LastInSuffix(s, n, i);
    }
  }

  function Count(s: string, c: char): nat {
    if s == [] then 0 else (if s[0] == c then 1 else 0) + Count(s[1..], c)
  }

  /** `_odd_quotes`. */
  predicate OddQuotes(s: string, singles: bool) {
    Count(s, '"') % 2 == 1 || (singles && Count(s, '\'') % 2 == 1)
  }

  ghost predicate AtMostOnce(s: string, c: char) {
    forall i, j :: 0 <= i < j < |s| && s[i] == c ==> s[j] != c
  }

  lemma {:induction false} CountOfAtMostOne(s: string, c: char)
    requires AtMostOnce(s, c)
    ensures Count(s, c) == if c in s then 1 else 0
  {
    if s != [] {
      var t := s[1..];
      assert forall i :: 0 <= i < |t| ==> t[i] == s[i + 1];
      CountOfAtMostOne(t, c);
    }
  }

  lemma SurvivesOnce(s: string, n: nat, c: char)
    requires n <= |s| && IsQuote(c)
    ensures |QuoteMask(s)| == |s| && AtMostOnce(QuoteMask(s)[..n], c)
  {
    QuoteMaskMasks(s);
    var m := QuoteMask(s);
    forall i, j | 0 <= i < j < n && m[i] == c
      ensures m[j] != c
    {
      SurvivingQuoteIsLast(s, i);
      assert m[i] == s[i] && s[j] != s[i];
    }
  }

  /** On a mask, an odd count is simply a surviving quote; also on any prefix of the mask. */
  lemma OddMeansSurvivor(s: string, n: nat, singles: bool)
    requires n <= |s|
    ensures |QuoteMask(s)| == |s|
    ensures OddQuotes(QuoteMask(s)[..n], singles)
       <==> '"' in QuoteMask(s)[..n] || (singles && '\'' in QuoteMask(s)[..n])
  {
    SurvivesOnce(s, n, '"');
    SurvivesOnce(s, n, '\'');
    CountOfAtMostOne(QuoteMask(s)[..n], '"');
    CountOfAtMostOne(QuoteMask(s)[..n], '\'');
  }

  // ---- Operator spans ----

  /** How a span opens: its text, its bracket pair and the depth after the text. */
  datatype Opening = Opening(size: nat, open: char, close: char, depth: nat)

  ghost predicate CharAt(s: string, i: nat, c: char) {
    i < |s| && s[i] == c
  }

  ghost function OpeningAt(s: string, i: nat): (r: Option<Opening>)
    requires i < |s|
    ensures r.Some? ==> 0 < r.value.depth && 0 < r.value.size && i + r.value.size <= |s| && r.value.open != r.value.close
  {
    if CharAt(s, i, '$') && CharAt(s, i + 1, '(') && CharAt(s, i + 2, '(') then Some(Opening(3, '(', ')', 2))
    else if CharAt(s, i, '(') && CharAt(s, i + 1, '(') then Some(Opening(2, '(', ')', 2))
    else if s[i] == '[' then Some(Opening(1, '[', ']', 1))
    else None
  }

  ghost function Weight(o: Opening, c: char): int {
    if c == o.open then 1 else if c == o.close then -1 else 0
  }

  /** Openers less closers in `s[a..b]`. */
  ghost function Balance(s: string, o: Opening, a: nat, b: nat): int
    requires a <= b <= |s|
    decreases b - a
  {
    if a == b then 0 else Weight(o, s[a]) + Balance(s, o, a + 1, b)
  }

  /** `j` is where the depth first returns to zero, reading from `from`. */
  ghost predicate ClosesAt(s: string, o: Opening, depth: int, from: nat, j: nat) {
    && from <= j < |s|
    && depth + Balance(s, o, from, j + 1) == 0
    && forall k :: from <= k <= j ==> depth + Balance(s, o, from, k) > 0
  }

  /** The closing bracket, or the length of the text when the span stays open. */
  ghost function CloseFrom(s: string, o: Opening, from: nat, depth: nat): (r: nat)
    requires from <= |s| && 0 < depth
    ensures from <= r <= |s|
    decreases |s| - from
  {
    if from == |s| then from
    else if s[from] == o.open then CloseFrom(s, o, from + 1, depth + 1)
    else if s[from] != o.close then CloseFrom(s, o, from + 1, depth)
    else if depth == 1 then from
    else CloseFrom(s, o, from + 1, depth - 1)
  }

  /** It is the one place where the depth first returns to zero, if there is one. */
  lemma {:induction false} CloseIsFirstReturn(s: string, o: Opening, from: nat, depth: nat, j: nat)
    requires from <= |s| && 0 < depth && o.open != o.close
    ensures ClosesAt(s, o, depth, from, j) <==> j == CloseFrom(s, o, from, depth) && j < |s|
    decreases |s| - from
  {
    if from < |s| {
      var after := depth + Weight(o, s[from]);
      ClosesLater(s, o, depth, from, j);
      if after > 0 {
        CloseIsFirstReturn(s, o, from + 1, after, j);
      }
    }
  }

  lemma ClosesLater(s: string, o: Opening, depth: nat, from: nat, j: nat)
    requires from < |s| && 0 < depth
    ensures depth + Weight(o, s[from]) > 0 ==>
      (ClosesAt(s, o, depth, from, j) <==> ClosesAt(s, o, depth + Weight(o, s[from]), from + 1, j))
    ensures depth + Weight(o, s[from]) == 0 ==> (ClosesAt(s, o, depth, from, j) <==> j == from)
  {
    var w := Weight(o, s[from]);
    assert Balance(s, o, from + 1, from + 1) == 0;
    assert Balance(s, o, from, from + 1) == w;
    if ClosesAt(s, o, depth, from, j) {
      if j > from {
        assert depth + Balance(s, o, from, from + 1) > 0;
        var next := from + 1;
        forall k | next <= k <= j ensures depth + w + Balance(s, o, next, k) > 0 {
          assert depth + Balance(s, o, from, k) > 0;
        }
      }
    }
    if depth + w > 0 && ClosesAt(s, o, depth + w, from + 1, j) {
      forall k | from <= k <= j ensures depth + Balance(s, o, from, k) > 0 {
        if k > from {
          assert depth + w + Balance(s, o, from + 1, k) > 0;
        }
      }
    }
  }

  /** The inner loop. */
  method FindClose(s: string, o: Opening, from: nat) returns (j: nat)
    requires from <= |s| && 0 < o.depth && o.open != o.close
    ensures j == CloseFrom(s, o, from, o.depth)
  {
    var depth: nat := o.depth;
    j := from;
    while j < |s|
      invariant from <= j <= |s| && 0 < depth
      invariant CloseFrom(s, o, j, depth) == CloseFrom(s, o, from, o.depth)
    {
      if s[j] == o.open {
        depth := depth + 1;
      } else if s[j] == o.close {
        if depth == 1 {
          return;
        }
        depth := depth - 1;
      }
      j := j + 1;
    }
  }

  /** The end of the span that opens at `i`; -1 when none opens there or it stays open. */
  ghost function SpanEnd(s: string, i: nat): (r: int)
    requires i < |s|
    ensures r == -1 || i < r < |s|
  {
    var opening := OpeningAt(s, i);
    if opening.None? then -1
    else
      var j := CloseFrom(s, opening.value, i + opening.value.size, opening.value.depth);
      if j < |s| then j else -1
  }

  /** The mask of the span that opens at `i`, or of one character where none closes. */
  ghost function SpanHead(s: string, i: nat): (head: string)
    requires i < |s|
    ensures 0 < |head| <= |s| - i
  {
    if SpanEnd(s, i) >= 0 then Spaces(SpanEnd(s, i) + 1 - i) else [s[i]]
  }

  /** The mask for `s[i..]`: a closed span becomes spaces, an open one is left alone. */
  ghost function SpanMask(s: string, i: nat): string
    requires i <= |s|
    decreases |s| - i
  {
    if i == |s| then [] else SpanHead(s, i) + SpanMask(s, i + |SpanHead(s, i)|)
  }

  lemma SpanHeadMasks(s: string, i: nat)
    requires i < |s|
    ensures Masks(SpanHead(s, i), s[i..i + |SpanHead(s, i)|])
  {
  }

  lemma {:induction false} SpanMaskMasks(s: string, i: nat)
    requires i <= |s|
    ensures Masks(SpanMask(s, i), s[i..])
    decreases |s| - i
  {
    if i < |s| {
      var head := SpanHead(s, i);
      var n := i + |head|;
      SpanMaskMasks(s, n);
      SpanHeadMasks(s, i);
      assert s[i..] == s[i..n] + s[n..];
      MasksConcat(head, s[i..n], SpanMask(s, n), s[n..]);
    }
  }

  lemma {:induction false} BalanceConcat(s: string, o: Opening, a: nat, b: nat, c: nat)
    requires a <= b <= c <= |s|
    ensures Balance(s, o, a, c) == Balance(s, o, a, b) + Balance(s, o, b, c)
    decreases b - a
  {
    if a < b {
      BalanceConcat(s, o, a + 1, b, c);
    }
  }

  lemma OpeningBalance(s: string, i: nat)
    requires i < |s| && OpeningAt(s, i).Some?
    ensures var o := OpeningAt(s, i).value; Balance(s, o, i, i + o.size) == o.depth
  {
    var o := OpeningAt(s, i).value;
    if o.size == 3 {
      assert Balance(s, o, i + 3, i + 3) == 0;
      assert Balance(s, o, i + 2, i + 3) == 1;
      assert Balance(s, o, i + 1, i + 3) == 2;
    } else if o.size == 2 {
      assert Balance(s, o, i + 2, i + 2) == 0;
      assert Balance(s, o, i + 1, i + 2) == 1;
    } else {
      assert Balance(s, o, i + 1, i + 1) == 0;
    }
  }

  /** A blanked span holds as many opening brackets as closing ones, and no shorter one does. */
  lemma SpanIsBalanced(s: string, i: nat)
    requires i < |s| && SpanEnd(s, i) >= 0
    ensures OpeningAt(s, i).Some?
    ensures Balance(s, OpeningAt(s, i).value, i, SpanEnd(s, i) + 1) == 0
    ensures forall k :: i + OpeningAt(s, i).value.size <= k <= SpanEnd(s, i) ==> Balance(s, OpeningAt(s, i).value, i, k) > 0
  {
    var o, j := OpeningAt(s, i).value, SpanEnd(s, i);
    OpeningBalance(s, i);
    CloseIsFirstReturn(s, o, i + o.size, o.depth, j);
    BalanceConcat(s, o, i, i + o.size, j + 1);
    forall k | i + o.size <= k <= j ensures Balance(s, o, i, k) > 0 {
      BalanceConcat(s, o, i, i + o.size, k);
    }
  }

  ghost function SpanEnds(s: string): Ends {
    (k: int) => if 0 <= k < |s| then SpanEnd(s, k) else -1
  }

  lemma SpanHeadIsHead(s: string, n: nat)
    requires n < |s|
    ensures AreEnds(s, SpanEnds(s)) && SpanHead(s, n) == Head(s, SpanEnds(s), n)
  {
  }

  lemma {:induction false} SpanMaskIsBlanking(s: string, n: nat)
    requires n <= |s|
    ensures AreEnds(s, SpanEnds(s)) && SpanMask(s, n) == Blanked(s, SpanEnds(s), n)
    decreases |s| - n
  {
    if n < |s| {
      SpanHeadIsHead(s, n);
      SpanMaskIsBlanking(s, n + |SpanHead(s, n)|);
    }
  }

  /** The span mask blanks exactly the closed spans: take disjoint ones that leave no closed span
      opening outside; what lies in one of them is blanked and nothing else is. */
  lemma SpanMaskIsExact(s: string, spans: set<int>, k: int)
    requires 0 <= k < |s| && IsCover(s, SpanEnds(s), 0, spans)
    ensures |SpanMask(s, 0)| == |s| && SpanMask(s, 0)[k] == CharAfter(s, SpanEnds(s), spans, k)
  {
    SpanMaskIsBlanking(s, 0);
    BlankingIsExact(s, SpanEnds(s), spans, k);
  }

  /** There are such spans in every text. */
  lemma SomeSpans(s: string) returns (spans: set<int>)
    ensures IsCover(s, SpanEnds(s), 0, spans)
  {
    SpanMaskIsBlanking(s, 0);
    spans := SomeCover(s, SpanEnds(s), 0);
  }

  method FillSpaces(out: array<char>, a: nat, b: nat)
    requires a <= b <= out.Length
    modifies out
    ensures out[..] == old(out[..a]) + Spaces(b - a) + old(out[b..])
  {
    for k := a to b
      invariant out[..a] == old(out[..a]) && out[b..] == old(out[b..])
      invariant forall x :: a <= x < k ==> out[x] == ' '
    {
      out[k] := ' ';
    }
    assert out[..] == out[..a] + out[a..b] + out[b..];
  }

  /** The first of the listed openings that the text starts with. */
  method FindOpening(s: string, i: nat) returns (r: Option<Opening>)
    requires i < |s|
    ensures r == OpeningAt(s, i)
  {
    var rest := s[i..];
    StartsAre(s, i);
    if StartsWith(rest, "$((") {
      return Some(Opening(3, '(', ')', 2));
    } else if StartsWith(rest, "((") {
      return Some(Opening(2, '(', ')', 2));
    } else if StartsWith(rest, "[") {
      return Some(Opening(1, '[', ']', 1));
    }
    return None;
  }

  lemma StartsAre(s: string, i: nat)
    requires i < |s|
    ensures StartsWith(s[i..], "$((") <==> CharAt(s, i, '$') && CharAt(s, i + 1, '(') && CharAt(s, i + 2, '(')
    ensures StartsWith(s[i..], "((") <==> CharAt(s, i, '(') && CharAt(s, i + 1, '(')
    ensures StartsWith(s[i..], "[") <==> s[i] == '['
  {
    var rest := s[i..];
    if |rest| >= 3 {
      assert rest[..3] == [s[i], s[i + 1], s[i + 2]];
    }
    if |rest| >= 2 {
      assert rest[..2] == [s[i], s[i + 1]];
    }
    assert rest[..1] == [s[i]];
  }

  method FindSpan(s: string, i: nat) returns (end: int)
    requires i < |s|
    ensures end == SpanEnd(s, i)
  {
    end := -1;
    var opening := FindOpening(s, i);
    if opening.Some? {
      var j := FindClose(s, opening.value, i + opening.value.size);
      if j < |s| {
        end := j;
      }
    }
  }

  lemma SpanMaskStep(s: string, i: nat, head: string)
    requires i < |s| && head == SpanHead(s, i)
    ensures SpanMask(s, i) == head + SpanMask(s, i + |head|)
  {
  }

  /** Where no span closes, the character stays. */
  lemma KeepOne(s: string, out: string, i: nat)
    requires i < |s| == |out| && out[i..] == s[i..] && SpanEnd(s, i) < 0
    ensures out[i + 1..] == s[i + 1..]
    ensures out[..i + 1] + SpanMask(s, i + 1) == out[..i] + SpanMask(s, i)
  {
    var head := [s[i]];
    SpanMaskStep(s, i, head);
    KeptChar(s, out, i);
    Assoc(out[..i], head, SpanMask(s, i + 1));
  }

  lemma KeptChar(s: string, out: string, i: nat)
    requires i < |s| == |out| && out[i..] == s[i..]
    ensures out[i + 1..] == s[i + 1..] && out[..i + 1] == out[..i] + [s[i]]
  {
    assert out[i] == out[i..][0] == s[i];
    assert out[i + 1..] == out[i..][1..];
  }

  /** Where one closes, the whole of it is overwritten. */
  lemma BlankSpan(s: string, was: string, out: string, i: nat, next: nat)
    requires i < next <= |s| == |was| && was[i..] == s[i..] && next == SpanEnd(s, i) + 1
    requires out == was[..i] + Spaces(next - i) + was[next..]
    ensures out[next..] == s[next..]
    ensures out[..next] + SpanMask(s, next) == was[..i] + SpanMask(s, i)
  {
    var head := SpanHead(s, i);
    assert head == Spaces(next - i) && |head| == next - i;
    SpanMaskStep(s, i, head);
    Overwritten(s, was, out, head, i, next, SpanMask(s, next));
  }

  lemma Overwritten(s: string, was: string, out: string, mid: string, i: nat, next: nat, rest: string)
    requires i + |mid| == next <= |s| == |was| && was[i..] == s[i..]
    requires out == was[..i] + mid + was[next..]
    ensures out[next..] == s[next..]
    ensures out[..next] + rest == was[..i] + (mid + rest)
  {
    SplitThree(out, was[..i], mid, was[next..]);
    assert was[next..] == was[i..][|mid|..] == s[next..];
    Assoc(was[..i], mid, rest);
  }

  /** The characters in front of `i` and the mask of the rest make up `whole`, and the rest is untouched. */
  ghost predicate BlankedTo(s: string, out: string, i: nat, whole: string) {
    i <= |s| == |out| && out[i..] == s[i..] && out[..i] + SpanMask(s, i) == whole
  }

  lemma KeepStep(s: string, out: string, i: nat, whole: string)
    requires BlankedTo(s, out, i, whole) && i < |s| && SpanEnd(s, i) < 0
    ensures BlankedTo(s, out, i + 1, whole)
  {
    KeepOne(s, out, i);
  }

  lemma BlankStep(s: string, was: string, out: string, i: nat, next: nat, whole: string)
    requires BlankedTo(s, was, i, whole) && i < next <= |s| && next == SpanEnd(s, i) + 1
    requires out == was[..i] + Spaces(next - i) + was[next..]
    ensures BlankedTo(s, out, next, whole)
  {
    BlankSpan(s, was, out, i, next);
  }

  method BlankOne(s: string, out: array<char>, i: nat, ghost whole: string) returns (next: nat)
    requires i < |s| && BlankedTo(s, out[..], i, whole)
    modifies out
    ensures i < next && BlankedTo(s, out[..], next, whole)
  {
    var end := FindSpan(s, i);
    ghost var was := out[..];
    if end >= 0 {
      next := end + 1;
      FillSpaces(out, i, next);
      assert out[..] == was[..i] + Spaces(next - i) + was[next..];
      BlankStep(s, was, out[..], i, next, whole);
    } else {
      next := i + 1;
      KeepStep(s, was, i, whole);
    }
  }

  lemma SplitThree(all: string, a: string, b: string, c: string)
    requires all == a + b + c
    ensures all[..|a| + |b|] == a + b && all[|a| + |b|..] == c
  {
  }

  /** `_blank_operator_spans`: the characters are overwritten in place. */
  method BlankSpans(s: string, out: array<char>)
    requires out.Length == |s| && out[..] == s
    modifies out
    ensures out[..] == SpanMask(s, 0)
  {
    var i := 0;
    ghost var whole := SpanMask(s, 0);
    assert s[..0] + whole == whole;
    while i < |s|
      invariant BlankedTo(s, out[..], i, whole)
    {
      i := BlankOne(s, out, i, whole);
    }
    assert out[..][..|s|] == out[..] && SpanMask(s, |s|) == [];
  }

  // ---- Comment cut and heredoc opener ----

  /** `_escaped`. */
  method IsEscaped(s: string, i: nat) returns (escaped: bool)
    requires i < |s|
    ensures escaped <==> IsEscapedAt(s, i)
  {
    var n, j := 0, i;
    while j > 0 && s[j - 1] == '\\'
      invariant 0 <= j <= i
      invariant n + RunBefore(s, j) == RunBefore(s, i)
    {
      n, j := n + 1, j - 1;
    }
    escaped := n % 2 == 1;
  }

  /** A blank or a character that ends a word: `${#arr[@]}` has none in front of its `#`. */
  ghost predicate EndsWord(c: char) {
    c == ' ' || c == '\t' || c == ';' || c == '&' || c == '|' || c == '(' || c == ')'
  }

  /** An unmasked `#` that starts a word. */
  ghost predicate StartsComment(mask: string, i: nat)
    requires i < |mask|
  {
    mask[i] == '#' && (i == 0 || (EndsWord(mask[i - 1]) && !IsEscapedAt(mask, i - 1)))
  }

  /** The first comment at or after `i`, or the end of the line. */
  ghost function CommentFrom(mask: string, i: nat): (cut: nat)
    requires i <= |mask|
    ensures i <= cut <= |mask|
    ensures cut < |mask| ==> StartsComment(mask, cut)
    ensures forall k :: i <= k < cut ==> !StartsComment(mask, k)
    decreases |mask| - i
  {
    if i == |mask| || StartsComment(mask, i) then i else CommentFrom(mask, i + 1)
  }

  method FindComment(mask: string) returns (cut: nat)
    ensures cut == CommentFrom(mask, 0)
  {
    cut := 0;
    while cut < |mask|
      invariant cut <= |mask| && CommentFrom(mask, cut) == CommentFrom(mask, 0)
    {
      if mask[cut] == '#' {
        if cut == 0 {
          return;
        }
        var escaped := IsEscaped(mask, cut - 1);
        if mask[cut - 1] in " \t;&|()" && !escaped {
          return;
        }
      }
      cut := cut + 1;
    }
  }

  /** One hit of the heredoc expression: where its `<<` stands and the delimiter it names. */
  datatype Hit = Hit(at: nat, delim: string)

  /** The hit's `<<` survives the mask and is not part of `<<<`. */
  ghost predicate Opens(code: string, mask: string, at: nat)
    requires |code| == |mask|
  {
    && OccursAt(mask, "<<", at)
    && !(at > 0 && code[at - 1] == '<')
    && !(at + 2 < |code| && code[at + 2] == '<')
  }

  ghost function FirstOpener(code: string, mask: string, hits: seq<Hit>): (r: Option<string>)
    requires |code| == |mask|
    ensures r.None? <==> forall h :: h in hits ==> !Opens(code, mask, h.at)
    ensures r.Some? ==> exists h :: h in hits && Opens(code, mask, h.at) && r.value == h.delim
  {
    if hits == [] then None
    else if Opens(code, mask, hits[0].at) then Some(hits[0].delim)
    else FirstOpener(code, mask, hits[1..])
  }

  /** One physical line's executable region and the heredoc it opens. */
  datatype Region = Region(code: string, opener: Option<string>)

  ghost function LineMask(raw: string): string {
    SpanMask(QuoteMask(raw), 0)
  }

  lemma LineMaskMasks(raw: string)
    ensures Masks(QuoteMask(raw), raw) && Masks(LineMask(raw), QuoteMask(raw)) && Masks(LineMask(raw), raw)
  {
    QuoteMaskMasks(raw);
    SpanMaskMasks(QuoteMask(raw), 0);
    assert QuoteMask(raw)[0..] == QuoteMask(raw);
  }

  ghost function CutOf(raw: string): (cut: nat)
    ensures cut <= |raw|
  {
    LineMaskMasks(raw);
    if OddQuotes(QuoteMask(raw), false) then |raw| else CommentFrom(LineMask(raw), 0)
  }

  /** `_line_regions` as a function; `hits` are the heredoc expression's matches in a text. */
  ghost function RegionOf(hits: string -> seq<Hit>, raw: string): Region {
    LineMaskMasks(raw);
    var cut := CutOf(raw);
    var code, mask := raw[..cut], LineMask(raw)[..cut];
    Region(code, if OddQuotes(QuoteMask(raw)[..cut], true) then None else FirstOpener(code, mask, hits(code)))
  }

  method OpensHere(code: string, mask: string, at: nat) returns (yes: bool)
    requires |code| == |mask|
    ensures yes <==> Opens(code, mask, at)
  {
    if at + 2 > |mask| || mask[at..at + 2] != "<<" {
      return false;
    }
    var before, behind := at > 0 && code[at - 1] == '<', at + 2 < |code| && code[at + 2] == '<';
    return !(before || behind);
  }

  method LineRegions(hits: string -> seq<Hit>, raw: string) returns (r: Region)
    ensures r == RegionOf(hits, raw)
  {
    LineMaskMasks(raw);
    var quoted := QuoteMask(raw);
    var out := new char[|quoted|](i requires 0 <= i < |quoted| => quoted[i]);
    assert out[..] == quoted;
    BlankSpans(quoted, out);
    var masked := out[..];
    var cut := |masked|;
    if !OddQuotes(quoted, false) {
      cut := FindComment(masked);
    }
    var code, mask := raw[..cut], masked[..cut];
    if OddQuotes(quoted[..cut], true) {
      return Region(code, None);
    }
    var found := hits(code);
    for i := 0 to |found|
      invariant FirstOpener(code, mask, found[i..]) == FirstOpener(code, mask, found)
    {
      var opens := OpensHere(code, mask, found[i].at);
      if opens {
        return Region(code, Some(found[i].delim));
      }
      assert found[i..][1..] == found[i + 1..];
    }
    return Region(code, None);
  }

  /** Offset `i` is outside every matched quote pair the mask blanked and every closed span. */
  ghost predicate Executed(raw: string, i: nat) {
    i < |raw| && |LineMask(raw)| == |raw| && LineMask(raw)[i] == raw[i]
  }

  /** A line loses nothing but a comment: the cut is the first executed `#` that starts a word. */
  lemma RegionIsExact(hits: string -> seq<Hit>, raw: string)
    ensures var cut := |RegionOf(hits, raw).code|;
      && cut <= |raw| && |LineMask(raw)| == |raw| && |QuoteMask(raw)| == |raw|
      && RegionOf(hits, raw).code == raw[..cut]
      && (cut < |raw| ==> raw[cut] == '#' && Executed(raw, cut) && StartsComment(LineMask(raw), cut))
      && ('"' in QuoteMask(raw) <==> OddQuotes(QuoteMask(raw), false))
      && (cut == |raw| <==> '"' in QuoteMask(raw) || forall i :: 0 <= i < |raw| ==> !StartsComment(LineMask(raw), i))
      && (forall i :: 0 <= i < cut && '"' !in QuoteMask(raw) ==> !StartsComment(LineMask(raw), i))
  {
    LineMaskMasks(raw);
    OddMeansSurvivor(raw, |raw|, false);
    assert QuoteMask(raw)[..|raw|] == QuoteMask(raw);
  }

  /** A heredoc opens only at an executed `<<` outside `<<<`, on a region with no unpaired quote. */
  lemma OpenerIsExact(hits: string -> seq<Hit>, raw: string)
    ensures var r := RegionOf(hits, raw); var cut := |r.code|;
      && cut <= |raw| && |LineMask(raw)| == |raw| && |QuoteMask(raw)| == |raw|
      && (r.opener.Some? <==>
           && '"' !in QuoteMask(raw)[..cut] && '\'' !in QuoteMask(raw)[..cut]
           && exists h :: h in hits(r.code) && Opens(r.code, LineMask(raw)[..cut], h.at))
  {
    LineMaskMasks(raw);
    OddMeansSurvivor(raw, CutOf(raw), true);
  }

  // ---- Lines with nothing to mask ----

  /** No quote, no span opener and no comment mark. */
  predicate IsPlainLine(s: string) {
    forall i :: 0 <= i < |s| ==> !IsQuote(s[i]) && s[i] != '(' && s[i] != '[' && s[i] != '#'
  }

  lemma {:induction false} PlainQuotes(s: string)
    requires IsPlainLine(s)
    ensures QuoteMask(s) == s && Count(s, '"') == 0 && Count(s, '\'') == 0
  {
    if s != [] {
      PlainQuotes(s[1..]);
      assert QuoteHead(s) == [s[0]];
    }
  }

  lemma PlainOpensNothing(s: string, i: nat)
    requires IsPlainLine(s) && i < |s|
    ensures SpanHead(s, i) == [s[i]]
  {
    assert OpeningAt(s, i).None?;
  }

  lemma {:induction false} PlainSpans(s: string, i: nat)
    requires IsPlainLine(s) && i <= |s|
    ensures SpanMask(s, i) == s[i..]
    decreases |s| - i
  {
    if i < |s| {
      PlainSpans(s, i + 1);
      PlainOpensNothing(s, i);
      assert s[i..] == [s[i]] + s[i + 1..];
    }
  }

  /** Such a line is executed whole. */
  lemma PlainRegion(hits: string -> seq<Hit>, raw: string)
    requires IsPlainLine(raw)
    ensures RegionOf(hits, raw) == Region(raw, FirstOpener(raw, raw, hits(raw)))
  {
    PlainQuotes(raw);
    PlainSpans(raw, 0);
    assert raw[0..] == raw && raw[..|raw|] == raw;
    assert CutOf(raw) == |raw|;
  }
}
