/**
 The rows of a script: one for every cargo invocation of every segment of every logical line
 (`_classify_shell_line`, `script_cargo_lines`).
 */
module CargoLines {
  import opened Text
  import opened ShellMask
  import opened ShellScan
  import opened CargoMatches
  import opened Listings

  /** The regular expressions the scan is built on, as what they find. */
  datatype Lexis = Lexis(
    heredocs: string -> seq<Hit>,
    cargo: string -> Found,
    gap: string -> bool,
    noDeps: string -> bool)

  datatype Row = Row(lineno: nat, logical: string, segment: string, resolves: bool, locked: bool, kind: Kind)

  const LOCKED := "--locked"

  // ---- Segments ----

  ghost predicate IsSeparatorAt(s: string, i: int) {
    0 <= i < |s| && (s[i] == ';' || s[i] == '&' || s[i] == '|')
  }

  /** `s[a..b]` is free of separators and stands between two of them, or an end of the line; an
      empty one only at an end. */
  ghost predicate IsStretch(s: string, a: int, b: int) {
    && 0 <= a <= b <= |s| && (forall i :: a <= i < b ==> !IsSeparatorAt(s, i))
    && (a == 0 || IsSeparatorAt(s, a - 1)) && (b == |s| || IsSeparatorAt(s, b))
    && (a < b || a == 0 || b == |s|)
  }

  predicate IsSeparator(c: char) {
    c in ";&|"
  }

  function FirstSeparator(s: string, i: nat): (r: nat)
    requires i <= |s|
    ensures i <= r <= |s| && (forall k :: i <= k < r ==> !IsSeparatorAt(s, k)) && (r < |s| ==> IsSeparatorAt(s, r))
    decreases |s| - i
  {
    if i == |s| || IsSeparator(s[i]) then i else FirstSeparator(s, i + 1)
  }

  function PastSeparators(s: string, i: nat): (r: nat)
    requires i <= |s|
    ensures i <= r <= |s| && (forall k :: i <= k < r ==> IsSeparatorAt(s, k)) && (r < |s| ==> !IsSeparatorAt(s, r))
    decreases |s| - i
  {
    if i == |s| || !IsSeparator(s[i]) then i else PastSeparators(s, i + 1)
  }

  /** The stretches between maximal runs of separators from `i` on. */
  function SegmentsFrom(s: string, i: nat): seq<string>
    requires i <= |s|
    decreases |s| - i
  {
    var at := FirstSeparator(s, i);
    if at == |s| then [s[i..]] else [s[i..at]] + SegmentsFrom(s, PastSeparators(s, at))
  }

  /** `COMMAND_SPLIT_RE.split`. */
  function Segments(s: string): seq<string> {
    SegmentsFrom(s, 0)
  }

  /** Where the segments start and end. */
  datatype Span = Span(from: nat, to: nat)

  ghost function SpansFrom(s: string, i: nat): (r: seq<Span>)
    requires i <= |s|
    ensures r != [] && r[0].from == i
    decreases |s| - i
  {
    var at := FirstSeparator(s, i);
    if at == |s| then [Span(i, |s|)] else [Span(i, at)] + SpansFrom(s, PastSeparators(s, at))
  }

  ghost predicate AreSpansOf(s: string, spans: seq<Span>, segments: seq<string>) {
    && |spans| == |segments|
    && forall k :: 0 <= k < |spans| ==> spans[k].from <= spans[k].to <= |s| && segments[k] == s[spans[k].from..spans[k].to]
  }

  lemma {:induction false} SegmentsAreSpans(s: string, i: nat)
    requires i <= |s|
    ensures AreSpansOf(s, SpansFrom(s, i), SegmentsFrom(s, i))
    decreases |s| - i
  {
    var at := FirstSeparator(s, i);
    if at == |s| {
      assert s[i..|s|] == s[i..];
    } else {
      SegmentsAreSpans(s, PastSeparators(s, at));
    }
  }

  ghost predicate SpansInOrder(spans: seq<Span>) {
    forall i, j :: 0 <= i < j < |spans| ==> spans[i].from < spans[j].from
  }

  /** Where a segment may start: at the start of the line, or behind a maximal run of separators. */
  ghost predicate MayStart(s: string, i: nat) {
    i <= |s| && (i == 0 || (IsSeparatorAt(s, i - 1) && !IsSeparatorAt(s, i)))
  }

  lemma {:induction false} SpansOrder(s: string, i: nat)
    requires i <= |s|
    ensures SpansInOrder(SpansFrom(s, i)) && forall k :: 0 <= k < |SpansFrom(s, i)| ==> i <= SpansFrom(s, i)[k].from
    decreases |s| - i
  {
    var at := FirstSeparator(s, i);
    if at < |s| {
      SpansOrder(s, PastSeparators(s, at));
    }
  }

  lemma {:induction false} SpanIsStretch(s: string, i: nat, k: nat)
    requires MayStart(s, i) && k < |SpansFrom(s, i)|
    ensures IsStretch(s, SpansFrom(s, i)[k].from, SpansFrom(s, i)[k].to)
    decreases |s| - i
  {
    var at := FirstSeparator(s, i);
    if at < |s| && k > 0 {
      SpanIsStretch(s, PastSeparators(s, at), k - 1);
    }
  }

  lemma {:induction false} StretchIsSpan(s: string, i: nat, a: nat, b: nat)
    requires MayStart(s, i) && i <= a && IsStretch(s, a, b)
    ensures Span(a, b) in SpansFrom(s, i)
    decreases |s| - i
  {
    var at := FirstSeparator(s, i);
    if a == i {
      assert b == at;
    } else {
      var e := PastSeparators(s, at);
      assert at < a;
      assert a < e ==> IsSeparatorAt(s, a);
      StretchIsSpan(s, e, a, b);
    }
  }

  /** The segments are the stretches between separators, each once and in order. */
  lemma SegmentsAreStretches(s: string)
    ensures AreSpansOf(s, SpansFrom(s, 0), Segments(s)) && SpansInOrder(SpansFrom(s, 0))
    ensures forall a: nat, b: nat :: IsStretch(s, a, b) <==> Span(a, b) in SpansFrom(s, 0)
  {
    SegmentsAreSpans(s, 0);
    SpansOrder(s, 0);
    forall a: nat, b: nat ensures IsStretch(s, a, b) <==> Span(a, b) in SpansFrom(s, 0) {
      if IsStretch(s, a, b) {
        StretchIsSpan(s, 0, a, b);
      }
      if Span(a, b) in SpansFrom(s, 0) {
        var k :| 0 <= k < |SpansFrom(s, 0)| && SpansFrom(s, 0)[k] == Span(a, b);
        SpanIsStretch(s, 0, k);
      }
    }
  }

  // ---- One row per invocation ----

  function HardStop(segment: string, ms: seq<CargoMatch>, k: nat): nat
    requires k < |ms|
  {
    if k + 1 < |ms| then ms[k + 1].start else |segment|
  }

  function TailStop(segment: string, ms: seq<CargoMatch>, k: nat): nat
    requires k < |ms|
  {
    TailFrom(segment, ms[k].end, HardStop(segment, ms, k), 0)
  }

  function Slice(s: string, a: nat, b: nat): string {
    if a <= b <= |s| then s[a..b] else []
  }

  function TailOf(segment: string, ms: seq<CargoMatch>, k: nat): string
    requires k < |ms|
  {
    Slice(segment, ms[k].end, TailStop(segment, ms, k))
  }

  function RowFor(lexis: Lexis, lineno: nat, logical: string, segment: string, ms: seq<CargoMatch>, k: nat): Row
    requires k < |ms|
  {
    var tail := TailOf(segment, ms, k);
    Row(lineno, logical, segment, !(ms[k].verb == Some("metadata") && lexis.noDeps(tail)), Contains(tail, LOCKED), ms[k].kind)
  }

  function RowsUpTo(lexis: Lexis, lineno: nat, logical: string, segment: string, ms: seq<CargoMatch>, k: nat): seq<Row>
    requires k <= |ms|
  {
    if k == 0 then []
    else RowsUpTo(lexis, lineno, logical, segment, ms, k - 1) + [RowFor(lexis, lineno, logical, segment, ms, k - 1)]
  }

  function SegmentRows(lexis: Lexis, lineno: nat, logical: string, segment: string): seq<Row> {
    var ms := Merged(lexis.gap, segment, lexis.cargo(segment));
    RowsUpTo(lexis, lineno, logical, segment, ms, |ms|)
  }

  function RowsOfSegments(lexis: Lexis, lineno: nat, logical: string, segments: seq<string>): seq<Row> {
    if segments == [] then []
    else
      RowsOfSegments(lexis, lineno, logical, segments[..|segments| - 1])
      + SegmentRows(lexis, lineno, logical, segments[|segments| - 1])
  }

  function LineRows(lexis: Lexis, lineno: nat, logical: string): seq<Row> {
    RowsOfSegments(lexis, lineno, logical, Segments(logical))
  }

  method ClassifySegment(lexis: Lexis, lineno: nat, logical: string, segment: string) returns (rows: seq<Row>)
    ensures rows == SegmentRows(lexis, lineno, logical, segment)
  {
    var ms := Merge(lexis.gap, segment, lexis.cargo(segment));
    rows := [];
    for k := 0 to |ms|
      invariant rows == RowsUpTo(lexis, lineno, logical, segment, ms, k)
    {
      var stop := if k + 1 < |ms| then ms[k + 1].start else |segment|;
      var end := TailEnd(segment, ms[k].end, stop);
      var tail := Slice(segment, ms[k].end, end);
      var resolves := !(ms[k].verb == Some("metadata") && lexis.noDeps(tail));
      rows := rows + [Row(lineno, logical, segment, resolves, Contains(tail, LOCKED), ms[k].kind)];
    }
  }

  /** `_classify_shell_line`. */
  method ClassifyLine(lexis: Lexis, lineno: nat, logical: string) returns (rows: seq<Row>)
    ensures rows == LineRows(lexis, lineno, logical)
  {
    rows := [];
    var segments := Segments(logical);
    for i := 0 to |segments|
      invariant rows == RowsOfSegments(lexis, lineno, logical, segments[..i])
    {
      var more := ClassifySegment(lexis, lineno, logical, segments[i]);
      assert segments[..i + 1][..i] == segments[..i];
      rows := rows + more;
    }
    assert segments[..|segments|] == segments;
  }

  lemma MergedInside(gap: string -> bool, text: string, found: Found)
    requires AreFound(text, found)
    ensures forall k :: 0 <= k < |Merged(gap, text, found)| ==>
      var m := Merged(gap, text, found)[k]; m.start < m.end <= |text|
  {
    var ms := Merged(gap, text, found);
    MergeIsExact(gap, text, found);
    forall k | 0 <= k < |ms| ensures ms[k].start < ms[k].end <= |text| {
      assert ms[k] in ms;
    }
  }

  // ---- Flags belong to one invocation ----

  lemma {:induction false} TailWithinStop(segment: string, i: nat, stop: nat, depth: nat)
    ensures TailFrom(segment, i, stop, depth) <= stop
    decreases stop - i
  {
    if i < stop && i < |segment| {
      TailWithinStop(segment, i + 1, stop, depth + 1);
      TailWithinStop(segment, i + 1, stop, depth);
      if depth > 0 {
        TailWithinStop(segment, i + 1, stop, depth - 1);
      }
    }
  }

  /** The tail of an earlier invocation ends before a later invocation's own text does. */
  lemma TailsAreDisjoint(gap: string -> bool, segment: string, found: Found, i: nat, j: nat)
    requires AreFound(segment, found) && i < j < |Merged(gap, segment, found)|
    ensures TailStop(segment, Merged(gap, segment, found), i) < Merged(gap, segment, found)[j].end
  {
    var ms := Merged(gap, segment, found);
    MergeIsExact(gap, segment, found);
    MergedInside(gap, segment, found);
    TailWithinStop(segment, ms[i].end, HardStop(segment, ms, i), 0);
    assert ms[i + 1].start <= ms[j].start;
  }

  /** The flag at offset `p` is read by invocation `k`. */
  predicate ReadsFlagAt(segment: string, ms: seq<CargoMatch>, k: nat, p: nat)
    requires k < |ms|
  {
    ms[k].end <= p && p + |LOCKED| <= TailStop(segment, ms, k) && OccursAt(segment, LOCKED, p)
  }

  /** One `--locked` never clears two invocations. */
  lemma OneFlagOneInvocation(gap: string -> bool, segment: string, found: Found, i: nat, j: nat, p: nat)
    requires AreFound(segment, found) && i < |Merged(gap, segment, found)| && j < |Merged(gap, segment, found)|
    requires ReadsFlagAt(segment, Merged(gap, segment, found), i, p)
    requires ReadsFlagAt(segment, Merged(gap, segment, found), j, p)
    ensures i == j
  {
    if i < j {
      TailsAreDisjoint(gap, segment, found, i, j);
    } else if j < i {
      TailsAreDisjoint(gap, segment, found, j, i);
    }
  }

  lemma SliceOccurs(s: string, sub: string, a: nat, b: nat, p: int)
    requires a <= b <= |s|
    ensures OccursAt(s[a..b], sub, p) <==> 0 <= p && a + p + |sub| <= b && OccursAt(s, sub, a + p)
  {
    if 0 <= p && a + p + |sub| <= b {
      var x, y := s[a..b][p..p + |sub|], s[a + p..a + p + |sub|];
      forall k | 0 <= k < |sub| ensures x[k] == y[k] {
        assert x[k] == s[a..b][p + k];
      }
      assert x == y;
    }
  }

  /** A row is locked exactly when its own invocation reads the flag somewhere in its tail. */
  lemma LockedByItsOwnFlag(lexis: Lexis, lineno: nat, logical: string, segment: string, ms: seq<CargoMatch>, k: nat)
    requires k < |ms| && ms[k].end <= |segment| && HardStop(segment, ms, k) <= |segment|
    ensures RowFor(lexis, lineno, logical, segment, ms, k).locked <==> exists p :: ReadsFlagAt(segment, ms, k, p)
  {
    var a, b := ms[k].end, TailStop(segment, ms, k);
    TailWithinStop(segment, a, HardStop(segment, ms, k), 0);
    var tail := TailOf(segment, ms, k);
    if Contains(tail, LOCKED) {
      var p :| 0 <= p <= |tail| && OccursAt(tail, LOCKED, p);
      SliceOccurs(segment, LOCKED, a, b, p);
      assert ReadsFlagAt(segment, ms, k, a + p);
    }
    if p: nat :| ReadsFlagAt(segment, ms, k, p) {
      SliceOccurs(segment, LOCKED, a, b, p - a);
      assert OccursAt(tail, LOCKED, p - a);
    }
  }

  /** A segment has one row for each merged match, in order. */
  lemma {:induction false} OneRowPerInvocation(lexis: Lexis, lineno: nat, logical: string, segment: string, ms: seq<CargoMatch>, n: nat)
    requires n <= |ms|
    ensures |RowsUpTo(lexis, lineno, logical, segment, ms, n)| == n
    ensures forall k :: 0 <= k < n ==>
      RowsUpTo(lexis, lineno, logical, segment, ms, n)[k] == RowFor(lexis, lineno, logical, segment, ms, k)
  {
    if n > 0 {
      OneRowPerInvocation(lexis, lineno, logical, segment, ms, n - 1);
    }
  }

  // ---- A whole script ----

  /** The rows of one logical line given as its regions. */
  function Classifier(lexis: Lexis): (nat, seq<string>) -> seq<Row> {
    (n: nat, parts: seq<string>) => LineRows(lexis, n, JoinParts(parts))
  }

  ghost function ScriptRows(lexis: Lexis, raws: seq<string>): Outcome<seq<Row>> {
    var ls := LinesOf(lexis.heredocs, raws);
    Classified(Classifier(lexis), ls, Layout(ls, 0))
  }

  /** `classify` gives the rows of a logical line. */
  ghost predicate IsClassifier(lexis: Lexis, classify: (nat, seq<string>) -> seq<Row>) {
    forall n: nat, parts {:trigger LineRows(lexis, n, JoinParts(parts))} :: classify(n, parts) == LineRows(lexis, n, JoinParts(parts))
  }

  method ClassifyParts(lexis: Lexis, lineno: nat, parts: seq<string>, ghost classify: (nat, seq<string>) -> seq<Row>)
    returns (rows: seq<Row>)
    requires IsClassifier(lexis, classify)
    ensures rows == classify(lineno, parts)
  {
    rows := ClassifyLine(lexis, lineno, JoinParts(parts));
  }

  /** The loop of `script_cargo_lines`, classifying each logical line as it ends. */
  method WalkCargoLines(lexis: Lexis, ls: seq<Line>, ghost classify: (nat, seq<string>) -> seq<Row>) returns (r: Outcome<seq<Row>>)
    requires IsClassifier(lexis, classify)
    ensures r == Classified(classify, ls, Layout(ls, 0))
  {
    var w: Walk<Row> := Walk([], None, None, 0, []);
    for i := 0 to |ls|
      invariant TracksRows(classify, ls, i, After(ls, i), w)
    {
      RowsStep(classify, ls, i, w);
      w := ReadCargoLine(lexis, w, ls[i], i, classify);
    }
    AtEnd(ls);
    PendingAtEnd(ls, After(ls, |ls|));
    RowsEnd(classify, ls, w, Layout(ls, 0));
    if w.delim.Some? {
      return StillOpen(w.delim.value);
    }
    if w.pending != [] {
      var more := ClassifyParts(lexis, w.first + 1, w.pending, classify);
      return Scanned(w.rows + more);
    }
    return Scanned(w.rows);
  }

  /** One turn of that loop. */
  method ReadCargoLine(lexis: Lexis, w: Walk<Row>, line: Line, i: nat, ghost classify: (nat, seq<string>) -> seq<Row>)
    returns (next: Walk<Row>)
    requires IsClassifier(lexis, classify)
    ensures next == FeedRows(classify, w, line, i)
  {
    if w.delim.Some? {
      return w.(delim := if line.bare == w.delim.value then None else w.delim, first := i + 1);
    }
    var held, pending := w.held, w.pending + [line.region.code];
    if line.region.opener.Some? && held.None? {
      held := line.region.opener;
    }
    if line.more {
      return w.(held := held, pending := pending);
    }
    var more := ClassifyParts(lexis, w.first + 1, pending, classify);
    return Walk(w.rows + more, held, None, i + 1, []);
  }

  // ---- The rows are the invocations ----

  /** The rows of a segment's invocations. */
  ghost function InSegment(lexis: Lexis, lineno: nat, logical: string, segment: string): (r: seq<Row>)
    ensures |r| == |Merged(lexis.gap, segment, lexis.cargo(segment))|
  {
    var ms := Merged(lexis.gap, segment, lexis.cargo(segment));
    seq(|ms|, k requires 0 <= k < |ms| => RowFor(lexis, lineno, logical, segment, ms, k))
  }

  ghost function InSegments(lexis: Lexis, lineno: nat, logical: string, segments: seq<string>): (r: seq<seq<Row>>)
    ensures |r| == |segments| && forall s :: 0 <= s < |r| ==> r[s] == InSegment(lexis, lineno, logical, segments[s])
  {
    seq(|segments|, s requires 0 <= s < |segments| => InSegment(lexis, lineno, logical, segments[s]))
  }

  ghost function TextOf(ls: seq<Line>, x: Logical): string {
    JoinParts(CodeOf(ls, x.first, x.body))
  }

  ghost function InLine(lexis: Lexis, ls: seq<Line>, x: Logical): seq<seq<Row>> {
    InSegments(lexis, x.first + 1, TextOf(ls, x), Segments(TextOf(ls, x)))
  }

  /** The table of a script's rows: by logical line, by segment of the line, by match in the segment. */
  ghost function RowTable(lexis: Lexis, ls: seq<Line>, xs: seq<Logical>): (r: Table<Row>)
    ensures |r| == |xs| && forall i :: 0 <= i < |r| ==> r[i] == InLine(lexis, ls, xs[i])
  {
    seq(|xs|, i requires 0 <= i < |xs| => InLine(lexis, ls, xs[i]))
  }

  lemma SegmentRowsAre(lexis: Lexis, lineno: nat, logical: string, segment: string)
    ensures SegmentRows(lexis, lineno, logical, segment) == InSegment(lexis, lineno, logical, segment)
  {
    var ms := Merged(lexis.gap, segment, lexis.cargo(segment));
    OneRowPerInvocation(lexis, lineno, logical, segment, ms, |ms|);
  }

  lemma {:induction false} LineRowsAre(lexis: Lexis, lineno: nat, logical: string, segments: seq<string>)
    ensures RowsOfSegments(lexis, lineno, logical, segments) == Flat(InSegments(lexis, lineno, logical, segments))
    decreases |segments|
  {
    if segments != [] {
      var init, last := segments[..|segments| - 1], segments[|segments| - 1];
      LineRowsAre(lexis, lineno, logical, init);
      SegmentRowsAre(lexis, lineno, logical, last);
      var all := InSegments(lexis, lineno, logical, segments);
      assert all[..|init|] == InSegments(lexis, lineno, logical, init);
    }
  }

  lemma ClassifiedLineIs(lexis: Lexis, classify: (nat, seq<string>) -> seq<Row>, ls: seq<Line>, x: Logical)
    requires IsClassifier(lexis, classify)
    ensures classify(x.first + 1, CodeOf(ls, x.first, x.body)) == Flat(InLine(lexis, ls, x))
  {
    var logical := TextOf(ls, x);
    assert classify(x.first + 1, CodeOf(ls, x.first, x.body)) == LineRows(lexis, x.first + 1, logical);
    LineRowsAre(lexis, x.first + 1, logical, Segments(logical));
  }

  lemma TableSnoc(lexis: Lexis, ls: seq<Line>, xs: seq<Logical>, x: Logical)
    ensures Rows(RowTable(lexis, ls, xs + [x])) == Rows(RowTable(lexis, ls, xs)) + Flat(InLine(lexis, ls, x))
  {
    var all := RowTable(lexis, ls, xs + [x]);
    assert all[..|xs|] == RowTable(lexis, ls, xs);
    assert all[|xs|] == InLine(lexis, ls, x);
  }

  lemma OneLineMore(lexis: Lexis, classify: (nat, seq<string>) -> seq<Row>, ls: seq<Line>, xs: seq<Logical>, init: seq<Logical>, x: Logical)
    requires IsClassifier(lexis, classify) && RowsOf(classify, ls, init) == Rows(RowTable(lexis, ls, init)) && xs == init + [x]
    ensures RowsOf(classify, ls, xs) == Rows(RowTable(lexis, ls, xs))
  {
    ClassifiedLineIs(lexis, classify, ls, x);
    RowsSnoc(classify, ls, init, x);
    TableSnoc(lexis, ls, init, x);
  }

  lemma NoLines(lexis: Lexis, classify: (nat, seq<string>) -> seq<Row>, ls: seq<Line>)
    ensures RowsOf(classify, ls, []) == Rows(RowTable(lexis, ls, [])) == []
  {
  }

  lemma {:induction false} ScriptRowsAre(lexis: Lexis, classify: (nat, seq<string>) -> seq<Row>, ls: seq<Line>, xs: seq<Logical>)
    requires IsClassifier(lexis, classify)
    ensures RowsOf(classify, ls, xs) == Rows(RowTable(lexis, ls, xs))
    decreases |xs|
  {
    if |xs| == 0 {
      NoLines(lexis, classify, ls);
    } else {
      var n := |xs| - 1;
      ScriptRowsAre(lexis, classify, ls, xs[..n]);
      OneLineMore(lexis, classify, ls, xs, xs[..n], xs[n]);
    }
  }

  // ---- Where an invocation stands ----

  /** The row of match `k`, field by field: it is locked when its own tail holds the flag, and
      resolves unless it is `metadata` with `--no-deps` in that tail. */
  ghost predicate IsRowOf(lexis: Lexis, lineno: nat, logical: string, segment: string, ms: seq<CargoMatch>, k: nat, row: Row)
    requires k < |ms|
  {
    && row.lineno == lineno && row.logical == logical && row.segment == segment && row.kind == ms[k].kind
    && (row.locked <==> exists i :: OccursAt(TailOf(segment, ms, k), "--locked", i))
    && (row.resolves <==> (ms[k].verb == Some("metadata") ==> !lexis.noDeps(TailOf(segment, ms, k))))
  }

  lemma RowForIs(lexis: Lexis, lineno: nat, logical: string, segment: string, ms: seq<CargoMatch>, k: nat, row: Row)
    requires k < |ms|
    ensures row == RowFor(lexis, lineno, logical, segment, ms, k) <==> IsRowOf(lexis, lineno, logical, segment, ms, k, row)
  {
    var tail := TailOf(segment, ms, k);
    assert Contains(tail, LOCKED) <==> exists i :: OccursAt(tail, "--locked", i);
  }

  /** In logical line `p.line` a stretch between separators starts at offset `p.segment` and ends at
      `end`, and match `p.index` in it is a cargo invocation with this row. */
  ghost predicate InvokesUpTo(lexis: Lexis, ls: seq<Line>, xs: seq<Logical>, p: Place, end: int, row: Row) {
    && p.line < |xs| && IsStretch(TextOf(ls, xs[p.line]), p.segment, end)
    && IsRowIn(lexis, xs[p.line].first + 1, TextOf(ls, xs[p.line]), TextOf(ls, xs[p.line])[p.segment..end], p.index, row)
  }

  /** Match `k` in the segment is a cargo invocation with this row. */
  ghost predicate IsRowIn(lexis: Lexis, lineno: nat, logical: string, segment: string, k: nat, row: Row) {
    var ms := Merged(lexis.gap, segment, lexis.cargo(segment));
    k < |ms| && IsRowOf(lexis, lineno, logical, segment, ms, k, row)
  }

  lemma SegmentHoldsRow(lexis: Lexis, lineno: nat, logical: string, segment: string, k: nat, row: Row)
    ensures var rows := InSegment(lexis, lineno, logical, segment);
      IsRowIn(lexis, lineno, logical, segment, k, row) <==> k < |rows| && rows[k] == row
  {
    var ms := Merged(lexis.gap, segment, lexis.cargo(segment));
    if k < |ms| {
      RowForIs(lexis, lineno, logical, segment, ms, k, row);
    }
  }

  ghost predicate Invokes(lexis: Lexis, ls: seq<Line>, xs: seq<Logical>, p: Place, row: Row) {
    exists end :: InvokesUpTo(lexis, ls, xs, p, end, row)
  }

  ghost function SpansOf(ls: seq<Line>, x: Logical): seq<Span> {
    SpansFrom(TextOf(ls, x), 0)
  }

  /** A place of the table, with the offset where its segment starts for the segment's number. */
  ghost function SpotOf(ls: seq<Line>, xs: seq<Logical>, p: Place): Place
    requires p.line < |xs| && p.segment < |SpansOf(ls, xs[p.line])|
  {
    Place(p.line, SpansOf(ls, xs[p.line])[p.segment].from, p.index)
  }

  lemma CellHolds(lexis: Lexis, lineno: nat, text: string, spans: seq<Span>, cells: seq<seq<Row>>, k: nat, index: nat, row: Row)
    requires AreSpansOf(text, spans, Segments(text)) && cells == InSegments(lexis, lineno, text, Segments(text)) && k < |spans|
    ensures |cells| == |spans|
    ensures index < |cells[k]| && cells[k][index] == row <==>
      IsRowIn(lexis, lineno, text, text[spans[k].from..spans[k].to], index, row)
  {
    SegmentHoldsRow(lexis, lineno, text, Segments(text)[k], index, row);
  }

  lemma TableHasSpans(lexis: Lexis, ls: seq<Line>, xs: seq<Logical>, line: nat)
    requires line < |xs|
    ensures |RowTable(lexis, ls, xs)[line]| == |SpansOf(ls, xs[line])|
    ensures AreSpansOf(TextOf(ls, xs[line]), SpansOf(ls, xs[line]), Segments(TextOf(ls, xs[line])))
  {
    SegmentsAreSpans(TextOf(ls, xs[line]), 0);
  }

  ghost predicate HasSpan(ls: seq<Line>, xs: seq<Logical>, p: Place) {
    p.line < |xs| && p.segment < |SpansOf(ls, xs[p.line])|
  }

  lemma CellIsRow(lexis: Lexis, ls: seq<Line>, xs: seq<Logical>, p: Place, row: Row)
    requires HasSpan(ls, xs, p) && AreSpansOf(TextOf(ls, xs[p.line]), SpansOf(ls, xs[p.line]), Segments(TextOf(ls, xs[p.line])))
    ensures var text, span := TextOf(ls, xs[p.line]), SpansOf(ls, xs[p.line])[p.segment];
      HoldsAt(RowTable(lexis, ls, xs), p, row) <==>
        IsRowIn(lexis, xs[p.line].first + 1, text, text[span.from..span.to], p.index, row)
  {
    var x := xs[p.line];
    CellHolds(lexis, x.first + 1, TextOf(ls, x), SpansOf(ls, x), RowTable(lexis, ls, xs)[p.line], p.segment, p.index, row);
  }

  lemma SpotIsRow(lexis: Lexis, ls: seq<Line>, xs: seq<Logical>, p: Place, row: Row)
    requires HasSpan(ls, xs, p) && AreSpansOf(TextOf(ls, xs[p.line]), SpansOf(ls, xs[p.line]), Segments(TextOf(ls, xs[p.line])))
    ensures var text, span := TextOf(ls, xs[p.line]), SpansOf(ls, xs[p.line])[p.segment];
      InvokesUpTo(lexis, ls, xs, SpotOf(ls, xs, p), span.to, row) <==>
        IsRowIn(lexis, xs[p.line].first + 1, text, text[span.from..span.to], p.index, row)
  {
    SpanIsStretch(TextOf(ls, xs[p.line]), 0, p.segment);
  }

  /** A place of the table holds a row exactly when there is an invocation with that row at its spot. */
  lemma TableHoldsInvocations(lexis: Lexis, ls: seq<Line>, xs: seq<Logical>, p: Place, row: Row)
    requires HasSpan(ls, xs, p)
    ensures HoldsAt(RowTable(lexis, ls, xs), p, row) <==>
      InvokesUpTo(lexis, ls, xs, SpotOf(ls, xs, p), SpansOf(ls, xs[p.line])[p.segment].to, row)
  {
    TableHasSpans(lexis, ls, xs, p.line);
    CellIsRow(lexis, ls, xs, p, row);
    SpotIsRow(lexis, ls, xs, p, row);
  }

  lemma PlaceInvokes(lexis: Lexis, ls: seq<Line>, xs: seq<Logical>, p: Place)
    requires IsPlace(RowTable(lexis, ls, xs), p)
    ensures HasSpan(ls, xs, p) && Invokes(lexis, ls, xs, SpotOf(ls, xs, p), At(RowTable(lexis, ls, xs), p))
  {
    TableHasSpans(lexis, ls, xs, p.line);
    TableHoldsInvocations(lexis, ls, xs, p, At(RowTable(lexis, ls, xs), p));
  }

  lemma SpotHasPlace(ls: seq<Line>, xs: seq<Logical>, spot: Place, end: nat) returns (p: Place)
    requires spot.line < |xs| && IsStretch(TextOf(ls, xs[spot.line]), spot.segment, end)
    ensures HasSpan(ls, xs, p) && SpotOf(ls, xs, p) == spot && SpansOf(ls, xs[p.line])[p.segment].to == end
  {
    var spans := SpansOf(ls, xs[spot.line]);
    SegmentsAreStretches(TextOf(ls, xs[spot.line]));
    assert Span(spot.segment, end) in spans;
    var k :| 0 <= k < |spans| && spans[k] == Span(spot.segment, end);
    p := Place(spot.line, k, spot.index);
  }

  lemma InvocationHasPlace(lexis: Lexis, ls: seq<Line>, xs: seq<Logical>, spot: Place, row: Row) returns (p: Place)
    requires Invokes(lexis, ls, xs, spot, row)
    ensures HoldsAt(RowTable(lexis, ls, xs), p, row) && HasSpan(ls, xs, p) && SpotOf(ls, xs, p) == spot
  {
    var end :| InvokesUpTo(lexis, ls, xs, spot, end, row);
    p := SpotHasPlace(ls, xs, spot, end);
    TableHoldsInvocations(lexis, ls, xs, p, row);
  }

  lemma SpotsKeepOrder(ls: seq<Line>, xs: seq<Logical>, p: Place, q: Place)
    requires p.line < |xs| && p.segment < |SpansOf(ls, xs[p.line])| && q.line < |xs| && q.segment < |SpansOf(ls, xs[q.line])|
    requires Before(p, q)
    ensures Before(SpotOf(ls, xs, p), SpotOf(ls, xs, q))
  {
    SpansOrder(TextOf(ls, xs[p.line]), 0);
  }

  /** `rows` are the rows of the invocations at `spots`, which are all there are, in order. */
  ghost predicate ListsInvocations(lexis: Lexis, ls: seq<Line>, xs: seq<Logical>, spots: seq<Place>, rows: seq<Row>) {
    && |spots| == |rows| && InOrder(spots)
    && (forall i :: 0 <= i < |spots| ==> Invokes(lexis, ls, xs, spots[i], rows[i]))
    && (forall p, row :: Invokes(lexis, ls, xs, p, row) ==> exists i :: 0 <= i < |spots| && spots[i] == p && rows[i] == row)
  }

  ghost predicate AreSpots(ls: seq<Line>, xs: seq<Logical>, places: seq<Place>, spots: seq<Place>) {
    |spots| == |places| && forall i :: 0 <= i < |places| ==> HasSpan(ls, xs, places[i]) && spots[i] == SpotOf(ls, xs, places[i])
  }

  lemma {:induction false} SpotsOf(ls: seq<Line>, xs: seq<Logical>, places: seq<Place>) returns (spots: seq<Place>)
    requires forall i :: 0 <= i < |places| ==> HasSpan(ls, xs, places[i])
    ensures AreSpots(ls, xs, places, spots)
    decreases |places|
  {
    if places == [] {
      spots := [];
    } else {
      var n := |places| - 1;
      var init := SpotsOf(ls, xs, places[..n]);
      assert HasSpan(ls, xs, places[n]);
      spots := init + [SpotOf(ls, xs, places[n])];
    }
  }

  lemma PlaceHasSpan(lexis: Lexis, ls: seq<Line>, xs: seq<Logical>, p: Place)
    requires IsPlace(RowTable(lexis, ls, xs), p)
    ensures HasSpan(ls, xs, p)
  {
    TableHasSpans(lexis, ls, xs, p.line);
  }

  lemma SpotsInOrder(ls: seq<Line>, xs: seq<Logical>, places: seq<Place>, spots: seq<Place>)
    requires AreSpots(ls, xs, places, spots) && InOrder(places)
    ensures InOrder(spots)
  {
    forall i, j | 0 <= i < j < |spots| ensures Before(spots[i], spots[j]) {
      SpotsKeepOrder(ls, xs, places[i], places[j]);
    }
  }

  lemma SpotIsListed(lexis: Lexis, ls: seq<Line>, xs: seq<Logical>, places: seq<Place>, spots: seq<Place>, rows: seq<Row>, p: Place, row: Row)
    returns (i: nat)
    requires Lists(RowTable(lexis, ls, xs), places, rows) && AreSpots(ls, xs, places, spots) && Invokes(lexis, ls, xs, p, row)
    ensures i < |spots| == |rows| && spots[i] == p && rows[i] == row
  {
    var place := InvocationHasPlace(lexis, ls, xs, p, row);
    i :| 0 <= i < |places| && places[i] == place;
  }

  lemma SpotInvokes(lexis: Lexis, ls: seq<Line>, xs: seq<Logical>, places: seq<Place>, spots: seq<Place>, rows: seq<Row>, i: nat)
    requires Lists(RowTable(lexis, ls, xs), places, rows) && AreSpots(ls, xs, places, spots) && i < |spots|
    ensures Invokes(lexis, ls, xs, spots[i], rows[i])
  {
    PlaceInvokes(lexis, ls, xs, places[i]);
  }

  lemma SpotsList(lexis: Lexis, ls: seq<Line>, xs: seq<Logical>, places: seq<Place>, rows: seq<Row>) returns (spots: seq<Place>)
    requires Lists(RowTable(lexis, ls, xs), places, rows)
    ensures ListsInvocations(lexis, ls, xs, spots, rows)
  {
    forall i | 0 <= i < |places| ensures HasSpan(ls, xs, places[i]) {
      PlaceHasSpan(lexis, ls, xs, places[i]);
    }
    spots := SpotsOf(ls, xs, places);
    SpotsInOrder(ls, xs, places, spots);
    forall i | 0 <= i < |spots| ensures Invokes(lexis, ls, xs, spots[i], rows[i]) {
      SpotInvokes(lexis, ls, xs, places, spots, rows, i);
    }
    forall p, row | Invokes(lexis, ls, xs, p, row) ensures exists i :: 0 <= i < |spots| && spots[i] == p && rows[i] == row {
      var i := SpotIsListed(lexis, ls, xs, places, spots, rows, p, row);
    }
  }

  /** What a scan of the lines must return: a failure exactly when they have no layout, and with a
      layout the rows of the cargo invocations in its logical lines, one each and in order. */
  ghost predicate IsScan(lexis: Lexis, ls: seq<Line>, r: Outcome<seq<Row>>) {
    && (r.Scanned? <==> exists blocks :: IsLayout(ls, 0, blocks))
    && (r.Scanned? ==> forall blocks :: IsLayout(ls, 0, blocks) ==>
          exists spots :: ListsInvocations(lexis, ls, Logicals(blocks), spots, r.value))
  }

  lemma ClassifiedIsScan(lexis: Lexis, classify: (nat, seq<string>) -> seq<Row>, ls: seq<Line>)
    requires IsClassifier(lexis, classify)
    ensures IsScan(lexis, ls, Classified(classify, ls, Layout(ls, 0)))
  {
    var layout := Layout(ls, 0);
    if layout.Scanned? {
      LayoutIsExact(ls, layout.value);
    }
    forall blocks | IsLayout(ls, 0, blocks)
      ensures layout == Scanned(blocks)
      ensures exists spots :: ListsInvocations(lexis, ls, Logicals(blocks), spots, RowsOf(classify, ls, Logicals(blocks)))
    {
      LayoutIsExact(ls, blocks);
      var xs := Logicals(blocks);
      ScriptRowsAre(lexis, classify, ls, xs);
      var places := EveryPlaceOnce(RowTable(lexis, ls, xs));
      var spots := SpotsList(lexis, ls, xs, places, RowsOf(classify, ls, xs));
    }
  }

  /** `script_cargo_lines`: the rows are exactly the cargo invocations the script executes. */
  method ScriptCargoLines(lexis: Lexis, raws: seq<string>) returns (r: Outcome<seq<Row>>)
    ensures r == ScriptRows(lexis, raws)
    ensures IsScan(lexis, LinesOf(lexis.heredocs, raws), r)
  {
    var ls := ReadLines(lexis.heredocs, raws);
    ghost var classify := Classifier(lexis);
    ClassifierClassifies(lexis);
    r := WalkCargoLines(lexis, ls, classify);
    ClassifiedIsScan(lexis, classify, ls);
  }

  lemma ClassifierClassifies(lexis: Lexis)
    ensures IsClassifier(lexis, Classifier(lexis))
  {
  }

  lemma ScriptRowsAreScan(lexis: Lexis, raws: seq<string>)
    ensures IsScan(lexis, LinesOf(lexis.heredocs, raws), ScriptRows(lexis, raws))
  {
    ClassifierClassifies(lexis);
    ClassifiedIsScan(lexis, Classifier(lexis), LinesOf(lexis.heredocs, raws));
  }
}
