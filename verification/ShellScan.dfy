/**
 The two walks over a shell script (`script_cargo_lines` and `_executable_text`) against one
 layout of the file: logical lines, each followed by the heredoc body it opened.
 */
module ShellScan {
  import opened Text
  import opened ShellMask

  /** What the walks read off one physical line. */
  datatype Line = Line(bare: string, region: Region, more: bool)

  /** Nothing but white space stands behind a last backslash of the region, so the logical line goes on. */
  ghost predicate More(r: Region) {
    exists k :: 0 <= k < |r.code| && r.code[k] == '\\' && forall i :: k < i < |r.code| ==> IsSpace(r.code[i])
  }

  lemma MoreIsTrimmed(r: Region)
    ensures More(r) <==> EndsWith(TrimRight(r.code, IsSpace), "\\")
  {
    var right := TrimRight(r.code, IsSpace);
    var k := |right| - 1;
    if right != "" {
      assert right[k] == r.code[k] && right[k..] == [right[k]];
    }
    if right != "" && right[k] == '\\' {
      assert r.code[k] == '\\';
    }
  }

  ghost function LineOf(hits: string -> seq<Hit>, raw: string): Line {
    Line(Trim(raw, IsSpace), RegionOf(hits, raw), More(RegionOf(hits, raw)))
  }

  ghost function LinesOf(hits: string -> seq<Hit>, raws: seq<string>): (ls: seq<Line>)
    ensures |ls| == |raws|
  {
    if raws == [] then [] else LinesOf(hits, raws[..|raws| - 1]) + [LineOf(hits, raws[|raws| - 1])]
  }

  // ---- The layout of a file ----

  /** Lines `[first, body)` are one logical line; lines `[body, end)` a heredoc body with its terminator. */
  datatype Block = Block(first: nat, body: nat, end: nat)

  /** Scanning stops with an error when a heredoc is still open at the end of the file. */
  datatype Outcome<T> = Scanned(value: T) | StillOpen(delim: string)

  /** Every line of the logical line but the last is continued; the last is not, or the file ends. */
  predicate IsLogicalLine(ls: seq<Line>, first: nat, body: nat) {
    && first < body <= |ls|
    && (forall i :: first <= i < body - 1 ==> ls[i].more)
    && (ls[body - 1].more ==> body == |ls|)
  }

  /** The delimiter named first on the lines `[a, b)`. */
  function Held(ls: seq<Line>, a: nat, b: nat): (r: Option<string>)
    requires a <= b <= |ls|
    ensures r.None? <==> forall i :: a <= i < b ==> ls[i].region.opener.None?
    decreases b - a
  {
    if a == b then None
    else if Held(ls, a, b - 1).Some? then Held(ls, a, b - 1)
    else ls[b - 1].region.opener
  }

  /** The heredoc a logical line opens; an unfinished last line opens none. */
  function Opened(ls: seq<Line>, first: nat, body: nat): Option<string>
    requires first < body <= |ls|
  {
    if ls[body - 1].more then None else Held(ls, first, body)
  }

  /** `[body, end)` runs to the first line that is the delimiter alone. */
  predicate IsBody(ls: seq<Line>, delim: string, body: nat, end: nat) {
    && body < end <= |ls|
    && ls[end - 1].bare == delim
    && forall i :: body <= i < end - 1 ==> ls[i].bare != delim
  }

  predicate IsBlock(ls: seq<Line>, b: Block) {
    && IsLogicalLine(ls, b.first, b.body)
    && match Opened(ls, b.first, b.body) {
         case None => b.end == b.body
         case Some(delim) => IsBody(ls, delim, b.body, b.end)
       }
  }

  /** The blocks follow each other from line `at` to the end of the file. */
  predicate IsLayout(ls: seq<Line>, at: nat, blocks: seq<Block>)
    decreases |blocks|
  {
    if blocks == [] then at == |ls|
    else blocks[0].first == at && IsBlock(ls, blocks[0]) && IsLayout(ls, blocks[0].end, blocks[1..])
  }

  // ---- Finding it ----

  function LogicalEnd(ls: seq<Line>, first: nat): (body: nat)
    requires first < |ls|
    ensures IsLogicalLine(ls, first, body)
    decreases |ls| - first
  {
    if ls[first].more && first + 1 < |ls| then LogicalEnd(ls, first + 1) else first + 1
  }

  /** One past the first line that is `delim` alone; none when there is none. */
  function BodyEnd(ls: seq<Line>, delim: string, body: nat): (end: Option<nat>)
    requires body <= |ls|
    ensures end.Some? ==> IsBody(ls, delim, body, end.value)
    ensures end.None? ==> forall i :: body <= i < |ls| ==> ls[i].bare != delim
    decreases |ls| - body
  {
    if body == |ls| then None
    else if ls[body].bare == delim then Some(body + 1)
    else BodyEnd(ls, delim, body + 1)
  }

  function Prepend(done: seq<Block>, rest: Outcome<seq<Block>>): Outcome<seq<Block>> {
    match rest
    case Scanned(blocks) => Scanned(done + blocks)
    case StillOpen(delim) => StillOpen(delim)
  }

  function Layout(ls: seq<Line>, at: nat): Outcome<seq<Block>>
    requires at <= |ls|
    decreases |ls| - at, 1
  {
    if at == |ls| then Scanned([])
    else
      var body := LogicalEnd(ls, at);
      match Opened(ls, at, body)
      case None => Prepend([Block(at, body, body)], Layout(ls, body))
      case Some(delim) => AfterBody(ls, Block(at, body, body), delim, body)
  }

  function AfterBody(ls: seq<Line>, b: Block, delim: string, from: nat): Outcome<seq<Block>>
    requires from <= |ls|
    decreases |ls| - from, 0
  {
    match BodyEnd(ls, delim, from)
    case None => StillOpen(delim)
    case Some(end) => Prepend([b.(end := end)], Layout(ls, end))
  }

  lemma LogicalEndIsUnique(ls: seq<Line>, first: nat, a: nat, b: nat)
    requires IsLogicalLine(ls, first, a) && IsLogicalLine(ls, first, b)
    ensures a == b
  {
    var endA, endB := ls[a - 1], ls[b - 1];
  }

  lemma BodyEndIsUnique(ls: seq<Line>, delim: string, body: nat, a: nat, b: nat)
    requires IsBody(ls, delim, body, a) && IsBody(ls, delim, body, b)
    ensures a == b
  {
    var endA, endB := ls[a - 1], ls[b - 1];
  }

  /** The layout found is a layout of the file. */
  lemma {:induction false} LayoutIsLayout(ls: seq<Line>, at: nat)
    requires at <= |ls| && Layout(ls, at).Scanned?
    ensures IsLayout(ls, at, Layout(ls, at).value)
    decreases |ls| - at
  {
    if at < |ls| {
      var body := LogicalEnd(ls, at);
      var end := match Opened(ls, at, body)
        case None => body
        case Some(delim) => BodyEnd(ls, delim, body).value;
      LayoutIsLayout(ls, end);
      var rest := Layout(ls, end).value;
      assert Layout(ls, at).value == [Block(at, body, end)] + rest;
      assert ([Block(at, body, end)] + rest)[1..] == rest;
    }
  }

  /** And there is no other. */
  lemma {:induction false} LayoutIsTheOnlyOne(ls: seq<Line>, at: nat, blocks: seq<Block>)
    requires at <= |ls| && IsLayout(ls, at, blocks)
    ensures Layout(ls, at) == Scanned(blocks)
    decreases |blocks|
  {
    if blocks != [] {
      var b := blocks[0];
      var body := LogicalEnd(ls, at);
      LogicalEndIsUnique(ls, at, b.body, body);
      match Opened(ls, at, body) {
        case None =>
        case Some(delim) =>
          BodyEndIsUnique(ls, delim, body, b.end, BodyEnd(ls, delim, body).value);
      }
      LayoutIsTheOnlyOne(ls, b.end, blocks[1..]);
      assert blocks == [b] + blocks[1..];
    }
  }

  /** The walk's blocks are exactly the file's layout; an error means the file has none. */
  lemma LayoutIsExact(ls: seq<Line>, blocks: seq<Block>)
    ensures Layout(ls, 0) == Scanned(blocks) <==> IsLayout(ls, 0, blocks)
  {
    if Layout(ls, 0) == Scanned(blocks) {
      LayoutIsLayout(ls, 0);
    }
    if IsLayout(ls, 0, blocks) {
      LayoutIsTheOnlyOne(ls, 0, blocks);
    }
  }

  // ---- When the scanners fail ----

  /** The blocks follow each other from line `at` up to line `end`. */
  predicate IsLayoutTo(ls: seq<Line>, at: nat, blocks: seq<Block>, end: nat)
    decreases |blocks|
  {
    if blocks == [] then at == end
    else blocks[0].first == at && IsBlock(ls, blocks[0]) && IsLayoutTo(ls, blocks[0].end, blocks[1..], end)
  }

  /** A finished logical line opens `delim`, and no later line is `delim` alone. */
  ghost predicate NeverCloses(ls: seq<Line>, first: nat, body: nat, delim: string) {
    && IsLogicalLine(ls, first, body) && !ls[body - 1].more && Held(ls, first, body) == Some(delim)
    && forall i :: body <= i < |ls| ==> ls[i].bare != delim
  }

  /** Whole blocks from line `at` lead up to such a logical line. */
  ghost predicate StaysOpen(ls: seq<Line>, at: nat, blocks: seq<Block>, first: nat, body: nat, delim: string) {
    IsLayoutTo(ls, at, blocks, first) && NeverCloses(ls, first, body, delim)
  }

  lemma {:induction false} StillOpenHasALine(ls: seq<Line>, at: nat) returns (blocks: seq<Block>, first: nat, body: nat)
    requires at <= |ls| && Layout(ls, at).StillOpen?
    ensures StaysOpen(ls, at, blocks, first, body, Layout(ls, at).delim)
    decreases |ls| - at
  {
    var next := LogicalEnd(ls, at);
    var heredoc := Opened(ls, at, next);
    if heredoc.Some? && BodyEnd(ls, heredoc.value, next).None? {
      blocks, first, body := [], at, next;
    } else {
      var end := if heredoc.None? then next else BodyEnd(ls, heredoc.value, next).value;
      var b := Block(at, next, end);
      var rest;
      rest, first, body := StillOpenHasALine(ls, end);
      blocks := [b] + rest;
      assert blocks[1..] == rest;
    }
  }

  lemma {:induction false} OpenLineStaysOpen(ls: seq<Line>, at: nat, blocks: seq<Block>, first: nat, body: nat, delim: string)
    requires at <= |ls| && StaysOpen(ls, at, blocks, first, body, delim)
    ensures Layout(ls, at) == StillOpen(delim)
    decreases |blocks|
  {
    var next := LogicalEnd(ls, at);
    if blocks == [] {
      LogicalEndIsUnique(ls, at, body, next);
    } else {
      var b := blocks[0];
      LogicalEndIsUnique(ls, at, b.body, next);
      var heredoc := Opened(ls, at, next);
      if heredoc.Some? {
        BodyEndIsUnique(ls, heredoc.value, next, b.end, BodyEnd(ls, heredoc.value, next).value);
      }
      OpenLineStaysOpen(ls, b.end, blocks[1..], first, body, delim);
    }
  }

  /** Scanning fails exactly when some finished logical line of the layout opens a heredoc that no
      later line closes. */
  lemma StillOpenIsExact(ls: seq<Line>, delim: string)
    ensures Layout(ls, 0) == StillOpen(delim) <==> exists blocks, first, body :: StaysOpen(ls, 0, blocks, first, body, delim)
  {
    if Layout(ls, 0) == StillOpen(delim) {
      var blocks, first, body := StillOpenHasALine(ls, 0);
    }
    if blocks, first, body :| StaysOpen(ls, 0, blocks, first, body, delim) {
      OpenLineStaysOpen(ls, 0, blocks, first, body, delim);
    }
  }

  /** A script that ends in a continued line scans, whatever heredoc that line opens: the opener is
      held for the end of the logical line, which never comes. */
  lemma UnfinishedLineOpensNothing(ls: seq<Line>, blocks: seq<Block>, first: nat)
    requires IsLayoutTo(ls, 0, blocks, first) && first < |ls| && forall i :: first <= i < |ls| ==> ls[i].more
    ensures Layout(ls, 0) == Scanned(blocks + [Block(first, |ls|, |ls|)])
  {
    LayoutToThenUnfinished(ls, 0, blocks, first);
    LayoutIsTheOnlyOne(ls, 0, blocks + [Block(first, |ls|, |ls|)]);
  }

  lemma {:induction false} LayoutToThenUnfinished(ls: seq<Line>, at: nat, blocks: seq<Block>, first: nat)
    requires IsLayoutTo(ls, at, blocks, first) && first < |ls| && forall i :: first <= i < |ls| ==> ls[i].more
    ensures IsLayout(ls, at, blocks + [Block(first, |ls|, |ls|)])
    decreases |blocks|
  {
    var last := Block(first, |ls|, |ls|);
    if blocks == [] {
      assert [last][1..] == [] && blocks + [last] == [last];
    } else {
      LayoutToThenUnfinished(ls, blocks[0].end, blocks[1..], first);
      assert (blocks + [last])[1..] == blocks[1..] + [last];
    }
  }

  lemma OneLine(hits: string -> seq<Hit>, raw: string)
    ensures LinesOf(hits, [raw]) == [LineOf(hits, raw)]
  {
    assert [raw][..0] == [] && LinesOf(hits, []) == [];
  }

  lemma OneLineLayout(line: Line, delim: string)
    requires line.region.opener == Some(delim)
    ensures Layout([line], 0) == if line.more then Scanned([Block(0, 1, 1)]) else StillOpen(delim)
  {
    var ls := [line];
    if line.more {
      UnfinishedLineOpensNothing(ls, [], 0);
      assert [] + [Block(0, 1, 1)] == [Block(0, 1, 1)];
    } else {
      assert Held(ls, 0, 0).None?;
      assert StaysOpen(ls, 0, [], 0, 1, delim);
      OpenLineStaysOpen(ls, 0, [], 0, 1, delim);
    }
  }

  lemma MoreIsLastBackslash(code: string, opener: Option<string>)
    requires code != [] && !IsSpace(code[|code| - 1])
    ensures More(Region(code, opener)) <==> code[|code| - 1] == '\\'
  {
    var k := |code| - 1;
    assert forall j :: 0 <= j < k ==> !(code[j] == '\\' && forall i :: j < i < |code| ==> IsSpace(code[i])) by {
      assert !IsSpace(code[k]);
    }
  }

  lemma PlainLine(hits: string -> seq<Hit>, raw: string, h: Hit)
    requires IsPlainLine(raw) && hits(raw) == [h] && Opens(raw, raw, h.at)
    ensures LineOf(hits, raw).region == Region(raw, Some(h.delim))
    ensures LineOf(hits, raw).more <==> More(Region(raw, Some(h.delim)))
  {
    PlainRegion(hits, raw);
  }

  /** A plain one-line script whose one heredoc match opens. */
  lemma PlainOpener(hits: string -> seq<Hit>, raw: string, h: Hit)
    requires IsPlainLine(raw) && hits(raw) == [h] && Opens(raw, raw, h.at)
    requires raw != [] && !IsSpace(raw[|raw| - 1])
    ensures Layout(LinesOf(hits, [raw]), 0) == if raw[|raw| - 1] == '\\' then Scanned([Block(0, 1, 1)]) else StillOpen(h.delim)
  {
    PlainLine(hits, raw, h);
    MoreIsLastBackslash(raw, Some(h.delim));
    OneLine(hits, raw);
    OneLineLayout(LineOf(hits, raw), h.delim);
  }

  /** One plain command with a heredoc operator at `at`, and its word behind it. */
  ghost predicate IsOpening(cmd: string, at: nat) {
    && IsPlainLine(cmd) && Opens(cmd, cmd, at)
    && cmd != [] && !IsSpace(cmd[|cmd| - 1]) && cmd[|cmd| - 1] != '\\'
  }

  lemma OpeningGoesOn(cmd: string, at: nat)
    requires IsOpening(cmd, at)
    ensures IsPlainLine(cmd + [' ', '\\']) && Opens(cmd + [' ', '\\'], cmd + [' ', '\\'], at)
  {
    var more := cmd + [' ', '\\'];
    assert more[at..at + 2] == cmd[at..at + 2];
  }

  /** The shortest such scripts: one command that opens a heredoc. With a backslash behind it the
      script scans; without, it fails. */
  lemma OneUnfinishedOpener(hits: string -> seq<Hit>, cmd: string, h: Hit)
    requires IsOpening(cmd, h.at) && hits(cmd + [' ', '\\']) == [h] && hits(cmd) == [h]
    ensures Layout(LinesOf(hits, [cmd + [' ', '\\']]), 0) == Scanned([Block(0, 1, 1)])
    ensures Layout(LinesOf(hits, [cmd]), 0) == StillOpen(h.delim)
  {
    OpeningGoesOn(cmd, h.at);
    PlainOpener(hits, cmd + [' ', '\\'], h);
    PlainOpener(hits, cmd, h);
  }

  /** For one, `cat <<EOF`. */
  lemma CatIsOpening()
    ensures IsOpening("cat <<EOF", 4)
  {
    assert "cat <<EOF"[4..6] == "<<";
  }

  /** Every physical line lies in exactly one block. */
  lemma {:induction false} EachLineOnce(ls: seq<Line>, at: nat, blocks: seq<Block>, i: nat) returns (k: nat)
    requires IsLayout(ls, at, blocks) && at <= i < |ls|
    ensures k < |blocks| && blocks[k].first <= i < blocks[k].end
    ensures forall j :: 0 <= j < |blocks| && blocks[j].first <= i < blocks[j].end ==> j == k
    decreases |blocks|
  {
    var rest := blocks[1..];
    if i < blocks[0].end {
      k := 0;
      forall j | 0 < j < |blocks| ensures i < blocks[j].first {
        LaterBlocks(ls, blocks[0].end, rest, j - 1);
        assert rest[j - 1] == blocks[j];
      }
    } else {
      var m := EachLineOnce(ls, blocks[0].end, rest, i);
      k := m + 1;
      forall j | 0 < j < |blocks| ensures blocks[j] == rest[j - 1] {
      }
    }
  }

  lemma {:induction false} LaterBlocks(ls: seq<Line>, at: nat, blocks: seq<Block>, k: nat)
    requires IsLayout(ls, at, blocks) && k < |blocks|
    ensures at <= blocks[k].first < blocks[k].body <= blocks[k].end <= |ls|
    decreases |blocks|
  {
    if k > 0 {
      LaterBlocks(ls, blocks[0].end, blocks[1..], k - 1);
    }
  }

  // ---- The state of the walks ----

  /** Physical lines `[first, body)` of one logical line. */
  datatype Logical = Logical(first: nat, body: nat)

  function Logicals(blocks: seq<Block>): (r: seq<Logical>)
    ensures |r| == |blocks| && forall i :: 0 <= i < |r| ==> r[i] == Logical(blocks[i].first, blocks[i].body)
  {
    seq(|blocks|, i requires 0 <= i < |blocks| => Logical(blocks[i].first, blocks[i].body))
  }

  /**
   The variables of both walks, with the blocks behind them: `open` is the block whose body
   is being skipped, `emitted` the logical lines seen so far.
   */
  datatype Progress = Progress(
    done: seq<Block>, open: Block, emitted: seq<Logical>,
    first: nat, delim: Option<string>, held: Option<string>)

  const START := Progress([], Block(0, 0, 0), [], 0, None, None)

  function Hold(held: Option<string>, opener: Option<string>): Option<string> {
    if held.None? then opener else held
  }

  function Step(g: Progress, line: Line, i: nat): Progress {
    if g.delim.Some? then
      if line.bare == g.delim.value
      then g.(done := g.done + [g.open.(end := i + 1)], delim := None, first := i + 1)
      else g.(first := i + 1)
    else
      var held := Hold(g.held, line.region.opener);
      if line.more then g.(held := held)
      else
        var b, emitted := Block(g.first, i + 1, i + 1), g.emitted + [Logical(g.first, i + 1)];
        if held.Some? then Progress(g.done, b, emitted, i + 1, held, None)
        else Progress(g.done + [b], g.open, emitted, i + 1, None, None)
  }

  /** Between heredocs: the blocks done and the layout from the pending line on make up the whole. */
  ghost predicate InCode(ls: seq<Line>, i: nat, g: Progress) {
    && g.delim.None?
    && g.emitted == Logicals(g.done)
    && g.first <= i <= |ls|
    && Prepend(g.done, Layout(ls, g.first)) == Layout(ls, 0)
    && g.held == Held(ls, g.first, i)
    && forall k :: g.first <= k < i ==> ls[k].more
  }

  /** Inside a heredoc body. */
  ghost predicate InBody(ls: seq<Line>, i: nat, g: Progress) {
    && g.delim.Some?
    && g.emitted == Logicals(g.done + [g.open])
    && g.first == i <= |ls|
    && g.held.None?
    && Prepend(g.done, AfterBody(ls, g.open, g.delim.value, i)) == Layout(ls, 0)
  }

  ghost predicate Scanning(ls: seq<Line>, i: nat, g: Progress) {
    InCode(ls, i, g) || InBody(ls, i, g)
  }

  lemma PrependTwice(a: seq<Block>, b: Block, rest: Outcome<seq<Block>>)
    ensures Prepend(a, Prepend([b], rest)) == Prepend(a + [b], rest)
  {
    if rest.Scanned? {
      Assoc(a, [b], rest.value);
    }
  }

  lemma StepInBody(ls: seq<Line>, i: nat, g: Progress)
    requires InBody(ls, i, g) && i < |ls|
    ensures Scanning(ls, i + 1, Step(g, ls[i], i))
  {
    if ls[i].bare == g.delim.value {
      PrependTwice(g.done, g.open.(end := i + 1), Layout(ls, i + 1));
      LogicalsSnoc(g.done, g.open);
      LogicalsSnoc(g.done, g.open.(end := i + 1));
      assert InCode(ls, i + 1, Step(g, ls[i], i));
    } else {
      assert InBody(ls, i + 1, Step(g, ls[i], i));
    }
  }

  lemma {:induction false} LogicalEndAt(ls: seq<Line>, first: nat, i: nat)
    requires first <= i < |ls| && forall k :: first <= k < i ==> ls[k].more
    ensures !ls[i].more || i + 1 == |ls| ==> LogicalEnd(ls, first) == i + 1
  {
    if !ls[i].more || i + 1 == |ls| {
      LogicalEndIsUnique(ls, first, LogicalEnd(ls, first), i + 1);
    }
  }

  lemma StepContinued(ls: seq<Line>, i: nat, g: Progress)
    requires InCode(ls, i, g) && i < |ls| && ls[i].more
    ensures InCode(ls, i + 1, Step(g, ls[i], i))
  {
  }

  lemma LayoutAtEnd(ls: seq<Line>, first: nat, i: nat)
    requires first <= i < |ls| && !ls[i].more
    requires forall k :: first <= k < i ==> ls[k].more
    ensures var b := Block(first, i + 1, i + 1);
      Layout(ls, first) == match Held(ls, first, i + 1)
        case None => Prepend([b], Layout(ls, i + 1))
        case Some(delim) => AfterBody(ls, b, delim, i + 1)
  {
    LogicalEndAt(ls, first, i);
  }

  lemma StepFinished(ls: seq<Line>, i: nat, g: Progress)
    requires InCode(ls, i, g) && i < |ls| && !ls[i].more
    ensures Scanning(ls, i + 1, Step(g, ls[i], i))
  {
    var held, next := Hold(g.held, ls[i].region.opener), Step(g, ls[i], i);
    assert held == Held(ls, g.first, i + 1);
    LayoutAtEnd(ls, g.first, i);
    LogicalsSnoc(g.done, Block(g.first, i + 1, i + 1));
    if held.None? {
      PrependTwice(g.done, Block(g.first, i + 1, i + 1), Layout(ls, i + 1));
      assert InCode(ls, i + 1, next);
    } else {
      assert InBody(ls, i + 1, next);
    }
  }

  lemma StepKeeps(ls: seq<Line>, i: nat, g: Progress)
    requires Scanning(ls, i, g) && i < |ls|
    ensures Scanning(ls, i + 1, Step(g, ls[i], i))
  {
    if InBody(ls, i, g) {
      StepInBody(ls, i, g);
    } else if ls[i].more {
      StepContinued(ls, i, g);
    } else {
      StepFinished(ls, i, g);
    }
  }

  lemma StartScans(ls: seq<Line>)
    ensures Scanning(ls, 0, START)
  {
    var all := Layout(ls, 0);
    assert all.Scanned? ==> [] + all.value == all.value;
    assert InCode(ls, 0, START);
  }

  /** Both walks after `i` lines. */
  ghost function After(ls: seq<Line>, i: nat): Progress
    requires i <= |ls|
  {
    if i == 0 then START else Step(After(ls, i - 1), ls[i - 1], i - 1)
  }

  lemma {:induction false} AfterScans(ls: seq<Line>, i: nat)
    requires i <= |ls|
    ensures Scanning(ls, i, After(ls, i))
  {
    if i == 0 {
      StartScans(ls);
    } else {
      AfterScans(ls, i - 1);
      StepKeeps(ls, i - 1, After(ls, i - 1));
    }
  }

  lemma AfterFirst(ls: seq<Line>, i: nat)
    requires i <= |ls|
    ensures After(ls, i).first <= i
    ensures After(ls, i).delim.Some? ==> After(ls, i).first == i
  {
    AfterScans(ls, i);
  }

  lemma LogicalsSnoc(blocks: seq<Block>, b: Block)
    ensures Logicals(blocks + [b]) == Logicals(blocks) + [Logical(b.first, b.body)]
  {
  }

  /** At the end of the file an unfinished logical line is emitted too, and opens nothing. */
  lemma AtEnd(ls: seq<Line>)
    ensures EndsAs(ls, Layout(ls, 0))
  {
    var g := After(ls, |ls|);
    AfterScans(ls, |ls|);
    if g.delim.None? && g.first < |ls| {
      LogicalEndAt(ls, g.first, |ls| - 1);
      var b := Block(g.first, |ls|, |ls|);
      assert Layout(ls, g.first) == Prepend([b], Scanned([]));
      LogicalsSnoc(g.done, b);
    }
  }

  ghost predicate EndsAs(ls: seq<Line>, layout: Outcome<seq<Block>>) {
    var g := After(ls, |ls|);
    if g.delim.Some? then layout == StillOpen(g.delim.value)
    else layout.Scanned? && Logicals(layout.value) == Finish(g, |ls|)
  }

  function Finish(g: Progress, n: nat): seq<Logical> {
    if g.first < n then g.emitted + [Logical(g.first, n)] else g.emitted
  }

  // ---- The walks ----

  /** The executable regions of lines `[a, b)`. */
  function CodeOf(ls: seq<Line>, a: nat, b: nat): (parts: seq<string>)
    ensures b <= |ls| ==> (parts == [] <==> b <= a)
  {
    if b <= a || b > |ls| then [] else CodeOf(ls, a, b - 1) + [ls[b - 1].region.code]
  }

  /** `_join` drops the blanks and backslashes that end a part. */
  function Strip(code: string): string {
    TrimRight(TrimRight(code, IsSpace), (c: char) => c == '\\')
  }

  /** `code[..n]` is what stays: behind it backslashes up to `m`, and then white space. */
  ghost predicate IsStripped(code: string, n: int, m: int) {
    && 0 <= n <= m <= |code|
    && (forall i :: n <= i < m ==> code[i] == '\\') && (forall i :: m <= i < |code| ==> IsSpace(code[i]))
    && (n > 0 ==> code[n - 1] != '\\') && (n == m && n > 0 ==> !IsSpace(code[n - 1]))
  }

  ghost predicate IsCore(code: string, core: string) {
    |core| <= |code| && core == code[..|core|] && exists m :: IsStripped(code, |core|, m)
  }

  lemma StrippedIs(code: string, n: int, m: int)
    requires IsStripped(code, n, m)
    ensures Strip(code) == code[..n]
  {
    if m > 0 {
      TrimRightStops(code, m, IsSpace);
      if n > 0 {
        TrimRightStops(code[..m], n, (c: char) => c == '\\');
        assert code[..m][..n] == code[..n];
      } else {
        TrimRightOfBlank(code[..m], (c: char) => c == '\\');
      }
    } else {
      TrimRightOfBlank(code, IsSpace);
    }
  }

  lemma StripExists(code: string)
    ensures IsCore(code, Strip(code))
  {
    var right := TrimRight(code, IsSpace);
    var core := TrimRight(right, (c: char) => c == '\\');
    var m := |right|;
    assert forall i :: 0 <= i < m ==> code[i] == right[i];
    assert core != "" ==> core[|core| - 1] == code[|core| - 1];
    assert IsStripped(code, |core|, m);
  }

  lemma StripIsExact(code: string, core: string)
    ensures Strip(code) == core <==> IsCore(code, core)
  {
    StripExists(code);
    if IsCore(code, core) {
      var m :| IsStripped(code, |core|, m);
      StrippedIs(code, |core|, m);
    }
  }

  function JoinParts(parts: seq<string>): string {
    Join(seq(|parts|, i requires 0 <= i < |parts| => Strip(parts[i])), ' ')
  }

  /** The text of a logical line: the stripped parts with one blank between them. */
  lemma JoinIsExact(parts: seq<string>, cores: seq<string>)
    requires |cores| == |parts| && forall i :: 0 <= i < |parts| ==> IsCore(parts[i], cores[i])
    ensures JoinParts(parts) == Join(cores, ' ')
  {
    var stripped := seq(|parts|, i requires 0 <= i < |parts| => Strip(parts[i]));
    forall i | 0 <= i < |parts| ensures stripped[i] == cores[i] {
      StripIsExact(parts[i], cores[i]);
    }
    assert stripped == cores;
  }

  /**
   Each logical line, as its list of regions, classified under the number of its first physical
   line, counted from 1.
   */
  function RowsOf<R>(classify: (nat, seq<string>) -> seq<R>, ls: seq<Line>, xs: seq<Logical>): seq<R> {
    if xs == [] then []
    else
      var x := xs[|xs| - 1];
      RowsOf(classify, ls, xs[..|xs| - 1]) + classify(x.first + 1, CodeOf(ls, x.first, x.body))
  }

  function CodeLines(ls: seq<Line>, xs: seq<Logical>): seq<string> {
    if xs == [] then []
    else CodeLines(ls, xs[..|xs| - 1]) + CodeOf(ls, xs[|xs| - 1].first, xs[|xs| - 1].body)
  }

  lemma RowsSnoc<R>(classify: (nat, seq<string>) -> seq<R>, ls: seq<Line>, xs: seq<Logical>, x: Logical)
    ensures RowsOf(classify, ls, xs + [x]) == RowsOf(classify, ls, xs) + classify(x.first + 1, CodeOf(ls, x.first, x.body))
  {
    assert (xs + [x])[..|xs|] == xs;
  }

  lemma CodeLinesSnoc(ls: seq<Line>, xs: seq<Logical>, x: Logical)
    ensures CodeLines(ls, xs + [x]) == CodeLines(ls, xs) + CodeOf(ls, x.first, x.body)
  {
    assert (xs + [x])[..|xs|] == xs;
  }

  /** What `script_cargo_lines` returns on a layout. */
  function Classified<R>(classify: (nat, seq<string>) -> seq<R>, ls: seq<Line>, layout: Outcome<seq<Block>>): Outcome<seq<R>> {
    match layout
    case StillOpen(delim) => StillOpen(delim)
    case Scanned(blocks) => Scanned(RowsOf(classify, ls, Logicals(blocks)))
  }

  /** What `_executable_text` returns on a layout. */
  function Executable(ls: seq<Line>, layout: Outcome<seq<Block>>): Outcome<string> {
    match layout
    case StillOpen(delim) => StillOpen(delim)
    case Scanned(blocks) => Scanned(Join(CodeLines(ls, Logicals(blocks)), '\n'))
  }

  /** The variables of `script_cargo_lines` between two lines. */
  datatype Walk<R> = Walk(rows: seq<R>, delim: Option<string>, held: Option<string>, first: nat, pending: seq<string>)

  function FeedRows<R>(classify: (nat, seq<string>) -> seq<R>, w: Walk<R>, line: Line, i: nat): Walk<R> {
    if w.delim.Some? then w.(delim := if line.bare == w.delim.value then None else w.delim, first := i + 1)
    else
      var held, pending := Hold(w.held, line.region.opener), w.pending + [line.region.code];
      if line.more then w.(held := held, pending := pending)
      else Walk(w.rows + classify(w.first + 1, pending), held, None, i + 1, [])
  }

  /** The walk's variables mirror the progress `g` made after `i` lines. */
  ghost predicate TracksRows<R>(classify: (nat, seq<string>) -> seq<R>, ls: seq<Line>, i: nat, g: Progress, w: Walk<R>) {
    && w.delim == g.delim && w.held == g.held && w.first == g.first
    && w.pending == CodeOf(ls, g.first, i)
    && w.rows == RowsOf(classify, ls, g.emitted)
  }

  lemma RowsStepInBody<R>(classify: (nat, seq<string>) -> seq<R>, ls: seq<Line>, i: nat, g: Progress, w: Walk<R>)
    requires i < |ls| && g.first == i && g.delim.Some? && TracksRows(classify, ls, i, g, w)
    ensures TracksRows(classify, ls, i + 1, Step(g, ls[i], i), FeedRows(classify, w, ls[i], i))
  {
  }

  lemma RowsStepContinued<R>(classify: (nat, seq<string>) -> seq<R>, ls: seq<Line>, i: nat, g: Progress, w: Walk<R>)
    requires i < |ls| && g.first <= i && g.delim.None? && ls[i].more && TracksRows(classify, ls, i, g, w)
    ensures TracksRows(classify, ls, i + 1, Step(g, ls[i], i), FeedRows(classify, w, ls[i], i))
  {
  }

  lemma StepAtEnd(g: Progress, line: Line, i: nat)
    requires g.delim.None? && !line.more
    ensures var next := Step(g, line, i);
      && next.emitted == g.emitted + [Logical(g.first, i + 1)] && next.first == i + 1
      && next.delim == Hold(g.held, line.region.opener) && next.held == None
  {
  }

  lemma FeedFinished<R>(classify: (nat, seq<string>) -> seq<R>, w: Walk<R>, line: Line, i: nat)
    requires w.delim.None? && !line.more
    ensures FeedRows(classify, w, line, i) ==
      Walk(w.rows + classify(w.first + 1, w.pending + [line.region.code]), Hold(w.held, line.region.opener), None, i + 1, [])
  {
  }

  lemma CodeSnoc(ls: seq<Line>, first: nat, i: nat)
    requires first <= i < |ls|
    ensures CodeOf(ls, first, i + 1) == CodeOf(ls, first, i) + [ls[i].region.code] && CodeOf(ls, i + 1, i + 1) == []
  {
  }

  lemma RowsStepFinished<R>(classify: (nat, seq<string>) -> seq<R>, ls: seq<Line>, i: nat, g: Progress, w: Walk<R>)
    requires i < |ls| && g.first <= i && g.delim.None? && !ls[i].more && TracksRows(classify, ls, i, g, w)
    ensures TracksRows(classify, ls, i + 1, Step(g, ls[i], i), FeedRows(classify, w, ls[i], i))
  {
    StepAtEnd(g, ls[i], i);
    FeedFinished(classify, w, ls[i], i);
    CodeSnoc(ls, g.first, i);
    RowsSnoc(classify, ls, g.emitted, Logical(g.first, i + 1));
  }

  lemma {:induction false} RowsStep<R>(classify: (nat, seq<string>) -> seq<R>, ls: seq<Line>, i: nat, w: Walk<R>)
    requires i < |ls| && TracksRows(classify, ls, i, After(ls, i), w)
    ensures TracksRows(classify, ls, i + 1, After(ls, i + 1), FeedRows(classify, w, ls[i], i))
  {
    var g := After(ls, i);
    AfterFirst(ls, i);
    if g.delim.Some? {
      RowsStepInBody(classify, ls, i, g, w);
    } else if ls[i].more {
      RowsStepContinued(classify, ls, i, g, w);
    } else {
      RowsStepFinished(classify, ls, i, g, w);
    }
  }

  /** The lines still pending when the file ends. */
  function Flush<R>(classify: (nat, seq<string>) -> seq<R>, w: Walk<R>): seq<R> {
    if w.pending != [] then w.rows + classify(w.first + 1, w.pending) else w.rows
  }

  lemma PendingAtEnd(ls: seq<Line>, g: Progress)
    requires g == After(ls, |ls|)
    ensures g.first <= |ls| && (CodeOf(ls, g.first, |ls|) == [] <==> g.first == |ls|)
    ensures g.delim.Some? ==> g.first == |ls|
  {
    AfterFirst(ls, |ls|);
  }

  lemma CodeOfIsEmpty(ls: seq<Line>, a: nat)
    ensures CodeOf(ls, a, |ls|) == [] <==> |ls| <= a
  {
  }

  lemma FlushIs<R>(classify: (nat, seq<string>) -> seq<R>, w: Walk<R>)
    ensures Flush(classify, w) == if w.pending != [] then w.rows + classify(w.first + 1, w.pending) else w.rows
  {
  }

  lemma RowsFinish<R>(classify: (nat, seq<string>) -> seq<R>, ls: seq<Line>, g: Progress, w: Walk<R>)
    requires w.pending == CodeOf(ls, g.first, |ls|) && w.first == g.first && w.rows == RowsOf(classify, ls, g.emitted)
    ensures RowsOf(classify, ls, Finish(g, |ls|)) == Flush(classify, w)
  {
    CodeOfIsEmpty(ls, g.first);
    FlushIs(classify, w);
    if g.first < |ls| {
      RowsSnoc(classify, ls, g.emitted, Logical(g.first, |ls|));
    }
  }

  lemma RowsEnd<R>(classify: (nat, seq<string>) -> seq<R>, ls: seq<Line>, w: Walk<R>, layout: Outcome<seq<Block>>)
    requires TracksRows(classify, ls, |ls|, After(ls, |ls|), w) && EndsAs(ls, layout)
    ensures Classified(classify, ls, layout) == if w.delim.Some? then StillOpen(w.delim.value) else Scanned(Flush(classify, w))
  {
    RowsFinish(classify, ls, After(ls, |ls|), w);
  }

  /** The loop of `script_cargo_lines`. */
  method WalkScript<R>(classify: (nat, seq<string>) -> seq<R>, ls: seq<Line>) returns (r: Outcome<seq<R>>)
    ensures r == Classified(classify, ls, Layout(ls, 0))
  {
    var rows: seq<R>, delim: Option<string>, held: Option<string> := [], None, None;
    var first, pending: seq<string> := 0, [];
    for i := 0 to |ls|
      invariant TracksRows(classify, ls, i, After(ls, i), Walk(rows, delim, held, first, pending))
    {
      RowsStep(classify, ls, i, Walk(rows, delim, held, first, pending));
      if delim.Some? {
        if ls[i].bare == delim.value {
          delim := None;
        }
        first := i + 1;
        continue;
      }
      pending := pending + [ls[i].region.code];
      if ls[i].region.opener.Some? && held.None? {
        held := ls[i].region.opener;
      }
      if ls[i].more {
        continue;
      }
      rows := rows + classify(first + 1, pending);
      pending, first := [], i + 1;
      delim, held := held, None;
    }
    AtEnd(ls);
    PendingAtEnd(ls, After(ls, |ls|));
    RowsEnd(classify, ls, Walk(rows, delim, held, first, pending), Layout(ls, 0));
    if pending != [] {
      rows := rows + classify(first + 1, pending);
    }
    if delim.Some? {
      return StillOpen(delim.value);
    }
    return Scanned(rows);
  }

  /** The variables of `_executable_text` between two lines. */
  datatype TextWalk = TextWalk(out: seq<string>, delim: Option<string>, held: Option<string>)

  function FeedText(w: TextWalk, line: Line): TextWalk {
    if w.delim.Some? then w.(delim := if line.bare == w.delim.value then None else w.delim)
    else
      var held, out := Hold(w.held, line.region.opener), w.out + [line.region.code];
      if line.more then TextWalk(out, None, held) else TextWalk(out, held, None)
  }

  ghost predicate TracksText(ls: seq<Line>, i: nat, g: Progress, w: TextWalk) {
    && w.delim == g.delim && w.held == g.held
    && w.out == CodeLines(ls, g.emitted) + CodeOf(ls, g.first, i)
  }

  /** One more region, whether or not the logical line ends with it. */
  lemma TextGrows(ls: seq<Line>, xs: seq<Logical>, first: nat, i: nat)
    requires first <= i < |ls|
    ensures var code := [ls[i].region.code];
      && CodeLines(ls, xs) + CodeOf(ls, first, i) + code == CodeLines(ls, xs) + CodeOf(ls, first, i + 1)
      && CodeLines(ls, xs) + CodeOf(ls, first, i) + code == CodeLines(ls, xs + [Logical(first, i + 1)]) + CodeOf(ls, i + 1, i + 1)
  {
    Assoc(CodeLines(ls, xs), CodeOf(ls, first, i), [ls[i].region.code]);
    CodeLinesSnoc(ls, xs, Logical(first, i + 1));
  }

  lemma TextStepInBody(ls: seq<Line>, i: nat, g: Progress, w: TextWalk)
    requires i < |ls| && g.first == i && g.delim.Some? && TracksText(ls, i, g, w)
    ensures TracksText(ls, i + 1, Step(g, ls[i], i), FeedText(w, ls[i]))
  {
  }

  lemma TextStepInCode(ls: seq<Line>, i: nat, g: Progress, w: TextWalk)
    requires i < |ls| && g.first <= i && g.delim.None? && TracksText(ls, i, g, w)
    ensures TracksText(ls, i + 1, Step(g, ls[i], i), FeedText(w, ls[i]))
  {
    TextGrows(ls, g.emitted, g.first, i);
    if !ls[i].more {
      StepAtEnd(g, ls[i], i);
    }
  }

  lemma TextStep(ls: seq<Line>, i: nat, w: TextWalk)
    requires i < |ls| && TracksText(ls, i, After(ls, i), w)
    ensures TracksText(ls, i + 1, After(ls, i + 1), FeedText(w, ls[i]))
  {
    var g := After(ls, i);
    AfterFirst(ls, i);
    if g.delim.Some? {
      TextStepInBody(ls, i, g, w);
    } else {
      TextStepInCode(ls, i, g, w);
    }
  }

  lemma TextEnd(ls: seq<Line>, w: TextWalk, layout: Outcome<seq<Block>>)
    requires TracksText(ls, |ls|, After(ls, |ls|), w) && EndsAs(ls, layout)
    ensures Executable(ls, layout) == if w.delim.Some? then StillOpen(w.delim.value) else Scanned(Join(w.out, '\n'))
  {
    var g := After(ls, |ls|);
    AfterFirst(ls, |ls|);
    if g.delim.None? && g.first < |ls| {
      CodeLinesSnoc(ls, g.emitted, Logical(g.first, |ls|));
    } else {
      assert w.out == CodeLines(ls, g.emitted);
    }
  }

  /** The loop of `_executable_text`. */
  method WalkText(ls: seq<Line>) returns (r: Outcome<string>)
    ensures r == Executable(ls, Layout(ls, 0))
  {
    var out: seq<string>, delim: Option<string>, held: Option<string> := [], None, None;
    for i := 0 to |ls|
      invariant TracksText(ls, i, After(ls, i), TextWalk(out, delim, held))
    {
      TextStep(ls, i, TextWalk(out, delim, held));
      if delim.Some? {
        if ls[i].bare == delim.value {
          delim := None;
        }
        continue;
      }
      out := out + [ls[i].region.code];
      if ls[i].region.opener.Some? && held.None? {
        held := ls[i].region.opener;
      }
      if ls[i].more {
        continue;
      }
      delim, held := held, None;
    }
    AtEnd(ls);
    TextEnd(ls, TextWalk(out, delim, held), Layout(ls, 0));
    if delim.Some? {
      return StillOpen(delim.value);
    }
    return Scanned(Join(out, '\n'));
  }

  /** What both walks read off each physical line. */
  method ReadLine(hits: string -> seq<Hit>, raw: string) returns (line: Line)
    ensures line == LineOf(hits, raw)
  {
    var region := LineRegions(hits, raw);
    MoreIsTrimmed(region);
    line := Line(Trim(raw, IsSpace), region, EndsWith(TrimRight(region.code, IsSpace), "\\"));
  }

  method ReadLines(hits: string -> seq<Hit>, raws: seq<string>) returns (ls: seq<Line>)
    ensures ls == LinesOf(hits, raws)
  {
    ls := [];
    for i := 0 to |raws|
      invariant ls == LinesOf(hits, raws[..i])
    {
      assert raws[..i + 1][..i] == raws[..i];
      var line := ReadLine(hits, raws[i]);
      ls := ls + [line];
    }
    assert raws[..|raws|] == raws;
  }

  // ---- The two walks agree, and nothing is lost ----

  /** Line `i` is part of a heredoc body. */
  predicate InSomeBody(blocks: seq<Block>, i: nat) {
    exists k :: 0 <= k < |blocks| && blocks[k].body <= i < blocks[k].end
  }

  /** The regions of the lines `[a, b)` outside every body, in file order. */
  function Outside(ls: seq<Line>, blocks: seq<Block>, a: nat, b: nat): seq<string> {
    if b <= a || b > |ls| then []
    else Outside(ls, blocks, a, b - 1) + if InSomeBody(blocks, b - 1) then [] else [ls[b - 1].region.code]
  }

  lemma {:induction false} OutsideCode(ls: seq<Line>, blocks: seq<Block>, m: nat, b: nat)
    requires m <= b <= |ls| && forall i :: m <= i < b ==> !InSomeBody(blocks, i)
    ensures Outside(ls, blocks, 0, b) == Outside(ls, blocks, 0, m) + CodeOf(ls, m, b)
    decreases b
  {
    if m < b {
      OutsideCode(ls, blocks, m, b - 1);
      Assoc(Outside(ls, blocks, 0, m), CodeOf(ls, m, b - 1), [ls[b - 1].region.code]);
    }
  }

  lemma {:induction false} OutsideBody(ls: seq<Line>, blocks: seq<Block>, m: nat, b: nat)
    requires m <= b <= |ls| && forall i :: m <= i < b ==> InSomeBody(blocks, i)
    ensures Outside(ls, blocks, 0, b) == Outside(ls, blocks, 0, m)
    decreases b
  {
    if m < b {
      OutsideBody(ls, blocks, m, b - 1);
    }
  }

  lemma CodeIsInNoBody(ls: seq<Line>, blocks: seq<Block>, k: nat, i: nat)
    requires IsLayout(ls, 0, blocks) && k < |blocks| && blocks[k].first <= i < blocks[k].body
    ensures !InSomeBody(blocks, i)
  {
    LaterBlocks(ls, 0, blocks, k);
    var only := EachLineOnce(ls, 0, blocks, i);
    assert k == only;
    forall j | 0 <= j < |blocks| && blocks[j].body <= i < blocks[j].end ensures j == only {
      LaterBlocks(ls, 0, blocks, j);
    }
  }

  lemma OneBlockOutside(ls: seq<Line>, blocks: seq<Block>, k: nat)
    requires IsLayout(ls, 0, blocks) && k < |blocks|
    ensures var b := blocks[k];
      Outside(ls, blocks, 0, b.end) == Outside(ls, blocks, 0, b.first) + CodeOf(ls, b.first, b.body)
  {
    var b := blocks[k];
    LaterBlocks(ls, 0, blocks, k);
    forall i | b.first <= i < b.body ensures !InSomeBody(blocks, i) {
      CodeIsInNoBody(ls, blocks, k, i);
    }
    OutsideCode(ls, blocks, b.first, b.body);
    OutsideBody(ls, blocks, b.body, b.end);
  }

  /** Where block `k` starts; after the last block, the end of the file. */
  function StartOf(ls: seq<Line>, blocks: seq<Block>, k: nat): nat {
    if k < |blocks| then blocks[k].first else |ls|
  }

  lemma {:induction false} BlockEnds(ls: seq<Line>, at: nat, blocks: seq<Block>, k: nat)
    requires IsLayout(ls, at, blocks) && k < |blocks|
    ensures blocks[k].end == StartOf(ls, blocks, k + 1)
    ensures StartOf(ls, blocks, 0) == at
    decreases |blocks|
  {
    if k > 0 {
      BlockEnds(ls, blocks[0].end, blocks[1..], k - 1);
    }
  }

  lemma OutsideStep(ls: seq<Line>, blocks: seq<Block>, k: nat)
    requires IsLayout(ls, 0, blocks) && k < |blocks|
    ensures Outside(ls, blocks, 0, StartOf(ls, blocks, k + 1)) ==
      Outside(ls, blocks, 0, StartOf(ls, blocks, k)) + CodeOf(ls, blocks[k].first, blocks[k].body)
  {
    OneBlockOutside(ls, blocks, k);
    BlockEnds(ls, 0, blocks, k);
  }

  lemma CodeStep(ls: seq<Line>, blocks: seq<Block>, k: nat)
    requires k < |blocks|
    ensures CodeLines(ls, Logicals(blocks[..k + 1])) == CodeLines(ls, Logicals(blocks[..k])) + CodeOf(ls, blocks[k].first, blocks[k].body)
  {
    var b := blocks[k];
    assert blocks[..k + 1] == blocks[..k] + [b];
    LogicalsSnoc(blocks[..k], b);
    CodeLinesSnoc(ls, Logicals(blocks[..k]), Logical(b.first, b.body));
  }

  lemma NoBlocksOutside(ls: seq<Line>, blocks: seq<Block>)
    requires IsLayout(ls, 0, blocks)
    ensures CodeLines(ls, Logicals(blocks[..0])) == Outside(ls, blocks, 0, StartOf(ls, blocks, 0)) == []
  {
    if blocks != [] {
      BlockEnds(ls, 0, blocks, 0);
    }
  }

  lemma {:induction false} FirstBlocksOutside(ls: seq<Line>, blocks: seq<Block>, k: nat)
    requires IsLayout(ls, 0, blocks) && k <= |blocks|
    ensures CodeLines(ls, Logicals(blocks[..k])) == Outside(ls, blocks, 0, StartOf(ls, blocks, k))
    decreases k
  {
    if k == 0 {
      NoBlocksOutside(ls, blocks);
    } else {
      FirstBlocksOutside(ls, blocks, k - 1);
      OutsideStep(ls, blocks, k - 1);
      CodeStep(ls, blocks, k - 1);
    }
  }

  /** The regions `_executable_text` emits are those of every line outside a heredoc body, in order. */
  lemma NothingExecutedIsLost(ls: seq<Line>, blocks: seq<Block>)
    requires Layout(ls, 0) == Scanned(blocks)
    ensures CodeLines(ls, Logicals(blocks)) == Outside(ls, blocks, 0, |ls|)
  {
    LayoutIsLayout(ls, 0);
    FirstBlocksOutside(ls, blocks, |blocks|);
    assert blocks[..|blocks|] == blocks;
  }

  /** A walk that hands every region on unchanged. */
  function AsIs(n: nat, parts: seq<string>): seq<string> {
    parts
  }

  lemma {:induction false} AsIsRows(ls: seq<Line>, xs: seq<Logical>)
    ensures RowsOf(AsIs, ls, xs) == CodeLines(ls, xs)
  {
    if xs != [] {
      AsIsRows(ls, xs[..|xs| - 1]);
    }
  }

  /** The two scanners fail together, and one emits what the other classifies, in the same order. */
  method ScanBoth(hits: string -> seq<Hit>, raws: seq<string>) returns (classified: Outcome<seq<string>>, text: Outcome<string>)
    ensures text == match classified
      case StillOpen(delim) => StillOpen(delim)
      case Scanned(parts) => Scanned(Join(parts, '\n'))
    ensures classified.Scanned? <==> exists blocks :: IsLayout(LinesOf(hits, raws), 0, blocks)
    ensures forall blocks :: IsLayout(LinesOf(hits, raws), 0, blocks) ==>
      classified == Scanned(Outside(LinesOf(hits, raws), blocks, 0, |raws|))
  {
    var ls := ReadLines(hits, raws);
    classified := WalkScript(AsIs, ls);
    text := WalkText(ls);
    ghost var layout := Layout(ls, 0);
    if layout.Scanned? {
      AsIsRows(ls, Logicals(layout.value));
      NothingExecutedIsLost(ls, layout.value);
      LayoutIsExact(ls, layout.value);
    }
    forall blocks | IsLayout(ls, 0, blocks) ensures layout == Scanned(blocks) {
      LayoutIsExact(ls, blocks);
    }
  }
}
