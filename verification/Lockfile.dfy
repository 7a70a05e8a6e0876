/**
 The pnpm lock file reader of ci/osv/shipped_reachability.py: a line-by-line state
 machine over indentation, and the round trip from rendered tables back to the same
 tables.
 */
module Lockfile {
  import opened Text
  import opened Folds

  type Versions = map<string, Option<string>>
  type Kinds = map<string, Versions>
  type Edges = seq<(string, Option<string>)>

  const IMPORTER_KINDS := ["dependencies", "optionalDependencies", "devDependencies"]
  const SNAPSHOT_EDGE_KINDS := ["dependencies", "optionalDependencies"]

  // ----- One entry -----

  predicate IsQuote(c: char) {
    c == '\'' || c == '"'
  }

  function Unquote(text: string): string {
    if |text| >= 2 && text[0] == text[|text| - 1] && IsQuote(text[0]) then text[1..|text| - 1] else text
  }

  /** The first `: `; -1 when absent. */
  function FindColonSpace(s: string, from: nat): (r: int)
    ensures r == -1 || from <= r < |s| - 1
    ensures r >= 0 ==> s[r] == ':' && s[r + 1] == ' '
    ensures forall i, j :: from <= i && j == i + 1 && j < |s| && (r >= 0 ==> i < r) ==> !(s[i] == ':' && s[j] == ' ')
    decreases |s| - from
  {
    if from + 1 >= |s| then -1
    else if s[from] == ':' && s[from + 1] == ' ' then from
    else FindColonSpace(s, from + 1)
  }

  /** Where a quoted key ends that a colon follows; -1 when the body starts with none. */
  function KeyEnd(body: string): int
    requires body != []
  {
    var end := if IsQuote(body[0]) then Find(body, body[0], 1) else -1;
    if end > 0 && end + 1 < |body| && body[end + 1] == ':' then end else -1
  }

  function KeyedEntry(body: string, end: int): (string, Option<string>)
    requires 0 < end && end + 1 < |body|
  {
    var rest := Trim(body[end + 2..], IsSpace);
    (body[1..end], if rest == [] then None else Some(Unquote(rest)))
  }

  function PairEntry(body: string, at: int): (string, Option<string>)
    requires 0 <= at < |body| - 1
  {
    (Unquote(Trim(body[..at], IsSpace)), Some(Unquote(Trim(body[at + 2..], IsSpace))))
  }

  function PlainEntry(body: string): (string, Option<string>)
    requires body != []
  {
    if body[|body| - 1] == ':' then (body[..|body| - 1], None)
    else
      var at := FindColonSpace(body, 0);
      if at < 0 then (body, None) else PairEntry(body, at)
  }

  /** `key: value` or `key:`, indent already removed. */
  function SplitEntry(body: string): (string, Option<string>)
    requires body != []
  {
    var end := KeyEnd(body);
    if end > 0 then KeyedEntry(body, end) else PlainEntry(body)
  }

  // ----- What an entry says -----

  /** `text` is `inner` between two quotes of one kind. */
  ghost predicate IsInQuotes(text: string, inner: string) {
    text == ['\''] + inner + ['\''] || text == ['"'] + inner + ['"']
  }

  /** One pair of quotes around the text is gone, if there is one. */
  ghost predicate IsUnquoted(text: string, r: string) {
    IsInQuotes(text, r) || (r == text && forall inner :: !IsInQuotes(text, inner))
  }

  lemma InQuotesIs(text: string, inner: string)
    ensures IsInQuotes(text, inner) <==> |text| >= 2 && text[0] == text[|text| - 1] && IsQuote(text[0]) && text[1..|text| - 1] == inner
  {
    if |text| >= 2 && text[0] == text[|text| - 1] && text[1..|text| - 1] == inner {
      assert text == [text[0]] + inner + [text[0]];
    }
  }

  lemma UnquoteIsExact(text: string, r: string)
    ensures Unquote(text) == r <==> IsUnquoted(text, r)
  {
    InQuotesIs(text, r);
    forall inner ensures IsInQuotes(text, inner) <==>
      |text| >= 2 && text[0] == text[|text| - 1] && IsQuote(text[0]) && text[1..|text| - 1] == inner
    {
      InQuotesIs(text, inner);
    }
    if |text| >= 2 {
      assert IsInQuotes(text, text[1..|text| - 1]) <==> text[0] == text[|text| - 1] && IsQuote(text[0]);
    }
  }

  /** The body starts with a quoted key that ends at `end`, and a colon. */
  ghost predicate HasQuotedKey(body: string, end: int) {
    && 0 < end && end + 1 < |body| && (body[0] == '\'' || body[0] == '"')
    && body[end] == body[0] && (forall i :: 0 < i < end ==> body[i] != body[0]) && body[end + 1] == ':'
  }

  /** The first colon with a blank behind it. */
  ghost predicate IsFirstColon(body: string, at: int) {
    && 0 <= at < |body| - 1 && body[at] == ':' && body[at + 1] == ' '
    && forall i, j :: 0 <= i < at && j == i + 1 ==> !(body[i] == ':' && body[j] == ' ')
  }

  ghost predicate IsValueOf(rest: string, value: Option<string>) {
    var core := Trim(rest, IsSpace);
    if core == "" then value == None else value.Some? && IsUnquoted(core, value.value)
  }

  ghost predicate IsKeyAt(body: string, end: int, key: string, value: Option<string>)
    requires 0 < end && end + 1 < |body|
  {
    key == body[1..end] && IsValueOf(body[end + 2..], value)
  }

  ghost predicate IsPairAt(body: string, at: int, key: string, value: Option<string>)
    requires 0 <= at < |body| - 1
  {
    IsUnquoted(Trim(body[..at], IsSpace), key) && value.Some? && IsUnquoted(Trim(body[at + 2..], IsSpace), value.value)
  }

  /** A quoted key with what follows its colon; else a key that the final colon ends; else the texts
      on the two sides of the first colon and blank; else a key alone. */
  ghost predicate IsEntry(body: string, key: string, value: Option<string>) {
    if exists end :: HasQuotedKey(body, end) then
      exists end :: HasQuotedKey(body, end) && IsKeyAt(body, end, key, value)
    else if body != "" && body[|body| - 1] == ':' then body == key + [':'] && value == None
    else if exists at :: IsFirstColon(body, at) then
      exists at :: IsFirstColon(body, at) && IsPairAt(body, at, key, value)
    else key == body && value == None
  }

  lemma KeyEndIs(body: string, end: int)
    requires body != ""
    ensures HasQuotedKey(body, end) <==> end > 0 && KeyEnd(body) == end
  {
  }

  lemma FirstColonIs(body: string, at: int)
    ensures IsFirstColon(body, at) <==> at >= 0 && at == FindColonSpace(body, 0)
  {
  }

  lemma ValueIs(rest: string, value: Option<string>)
    ensures IsValueOf(rest, value) <==> value == (if Trim(rest, IsSpace) == "" then None else Some(Unquote(Trim(rest, IsSpace))))
  {
    if value.Some? {
      UnquoteIsExact(Trim(rest, IsSpace), value.value);
    }
  }

  lemma KeyedIs(body: string, end: int, key: string, value: Option<string>)
    requires 0 < end && end + 1 < |body|
    ensures KeyedEntry(body, end) == (key, value) <==> IsKeyAt(body, end, key, value)
  {
    ValueIs(body[end + 2..], value);
  }

  lemma QuotedEntry(body: string, end: int, key: string, value: Option<string>)
    requires HasQuotedKey(body, end)
    ensures IsEntry(body, key, value) <==> IsKeyAt(body, end, key, value)
  {
    KeyEndIs(body, end);
    if e :| HasQuotedKey(body, e) && IsKeyAt(body, e, key, value) {
      KeyEndIs(body, e);
    }
  }

  lemma PairIs(body: string, at: int, key: string, value: Option<string>)
    requires 0 <= at < |body| - 1
    ensures PairEntry(body, at) == (key, value) <==> IsPairAt(body, at, key, value)
  {
    UnquoteIsExact(Trim(body[..at], IsSpace), key);
    if value.Some? {
      UnquoteIsExact(Trim(body[at + 2..], IsSpace), value.value);
    }
  }

  lemma PairEntryIs(body: string, at: int, key: string, value: Option<string>)
    requires (forall end :: !HasQuotedKey(body, end)) && IsFirstColon(body, at) && body[|body| - 1] != ':'
    ensures IsEntry(body, key, value) <==> IsPairAt(body, at, key, value)
  {
    FirstColonIs(body, at);
    if a :| IsFirstColon(body, a) && IsPairAt(body, a, key, value) {
      FirstColonIs(body, a);
    }
  }

  lemma EndsInColon(body: string, key: string)
    requires body != "" && body[|body| - 1] == ':'
    ensures body == key + [':'] <==> key == body[..|body| - 1]
  {
    assert body == body[..|body| - 1] + [':'];
  }

  /** Without a quoted key. */
  lemma PlainIs(body: string, key: string, value: Option<string>)
    requires body != "" && forall end :: !HasQuotedKey(body, end)
    ensures PlainEntry(body) == (key, value) <==> IsEntry(body, key, value)
  {
    var at := FindColonSpace(body, 0);
    FirstColonIs(body, at);
    if body[|body| - 1] == ':' {
      EndsInColon(body, key);
    } else if at >= 0 {
      PairEntryIs(body, at, key, value);
      PairIs(body, at, key, value);
    } else {
      forall a ensures !IsFirstColon(body, a) {
        FirstColonIs(body, a);
      }
    }
  }

  /** `split_entry` reads exactly that. */
  lemma EntryIsExact(body: string, key: string, value: Option<string>)
    requires body != ""
    ensures SplitEntry(body) == (key, value) <==> IsEntry(body, key, value)
  {
    var end := KeyEnd(body);
    if end > 0 {
      KeyEndIs(body, end);
      KeyedIs(body, end, key, value);
      QuotedEntry(body, end, key, value);
    } else {
      forall e ensures !HasQuotedKey(body, e) {
        KeyEndIs(body, e);
      }
      PlainIs(body, key, value);
    }
  }

  // ----- The state machine -----

  datatype State = State(
    version: Option<string>,
    importers: map<string, Kinds>,
    snapshots: map<string, Edges>,
    section: string,
    importer: Option<string>,
    kind: Option<string>,
    dep: Option<string>,
    snap: Option<string>,
    inEdges: bool,
    broken: bool)  // a nested line came before the line it belongs under: an uncaught KeyError

  ghost const START := State(None, map[], map[], "", None, None, None, None, false, false)

  function EmptyKinds(): Kinds {
    map k | k in IMPORTER_KINDS :: map[]
  }

  function Indent(raw: string): nat {
    |raw| - |TrimLeft(raw, c => c == ' ')|
  }

  /** One line as the reader sees it: blank or a comment, or an indented entry. */
  datatype Line = Noise | Entry(indent: nat, key: string, value: Option<string>)

  function Lex(raw: string): Line {
    var body := Trim(raw, IsSpace);
    if body == [] || body[0] == '#' then Noise
    else var entry := SplitEntry(body); Entry(Indent(raw), entry.0, entry.1)
  }

  function LexAll(lines: seq<string>): seq<Line> {
    MapAll(Lex, lines)
  }

  ghost function SetVersion(s: State, kind: string, dep: string, v: Option<string>): State {
    if s.importer.Some? && s.importer.value in s.importers && kind in s.importers[s.importer.value]
    then
      var i := s.importer.value;
      var kinds := s.importers[i];
      s.(importers := s.importers[i := kinds[kind := kinds[kind][dep := v]]])
    else s.(broken := true)
  }

  ghost function TopLevel(s: State, key: string, value: Option<string>): State {
    State(if key == "lockfileVersion" then value else s.version,
          s.importers, s.snapshots, key, None, None, None, None, false, s.broken)
  }

  ghost function InImporters(s: State, indent: nat, key: string, value: Option<string>): State {
    if indent == 2 then
      s.(importer := Some(key), kind := None, dep := None, importers := s.importers[key := EmptyKinds()])
    else if indent == 4 then
      s.(kind := if key in IMPORTER_KINDS then Some(key) else None, dep := None)
    else if indent == 6 && s.kind.Some? then
      SetVersion(s.(dep := Some(key)), s.kind.value, key, None)
    else if indent == 8 && s.kind.Some? && s.dep.Some? && key == "version" then
      SetVersion(s, s.kind.value, s.dep.value, value)
    else s
  }

  ghost function InSnapshots(s: State, indent: nat, key: string, value: Option<string>): State {
    if indent == 2 then
      s.(snap := Some(key), inEdges := false, snapshots := s.snapshots[key := []])
    else if indent == 4 then
      s.(inEdges := key in SNAPSHOT_EDGE_KINDS && value.None?)
    else if indent == 6 && s.inEdges then
      if s.snap.Some? && s.snap.value in s.snapshots
      then s.(snapshots := s.snapshots[s.snap.value := s.snapshots[s.snap.value] + [(key, value)]])
      else s.(broken := true)
    else s
  }

  ghost function Consume(s: State, line: Line): State {
    match line
    case Noise => s
    case Entry(indent, key, value) =>
      if s.broken then s
      else if indent == 0 then TopLevel(s, key, value)
      else if s.section == "importers" then InImporters(s, indent, key, value)
      else if s.section == "snapshots" then InSnapshots(s, indent, key, value)
      else s
  }

  ghost function Feed(s: State, lines: seq<Line>): State {
    Fold(Consume, s, lines)
  }

  datatype Parsed = Crashed | Tables(version: Option<string>, importers: map<string, Kinds>, snapshots: map<string, Edges>)

  ghost function Outcome(s: State): Parsed {
    if s.broken then Crashed else Tables(s.version, s.importers, s.snapshots)
  }

  ghost predicate IsReadStep(step: (State, string) -> State) {
    forall s: State, raw: string {:trigger step(s, raw)} :: step(s, raw) == Consume(s, Lex(raw))
  }

  ghost predicate KeepsBroken(step: (State, string) -> State) {
    forall s: State, raw: string {:trigger step(s, raw)} :: s.broken ==> step(s, raw).broken
  }

  lemma {:induction false} StaysBroken(step: (State, string) -> State, start: State, lines: seq<string>, i: nat, j: nat)
    requires i <= j <= |lines| && KeepsBroken(step) && FoldAt(step, start, lines, i).broken
    ensures FoldAt(step, start, lines, j).broken
  {
    if i < j {
      StaysBroken(step, start, lines, i, j - 1);
    }
  }

  lemma ConsumeKeepsBroken(step: (State, string) -> State)
    requires IsReadStep(step)
    ensures KeepsBroken(step)
  {
  }

  /** The importer under which a line of indent 6 or 8 is filed, if there is one. */
  method FileVersion(importers: map<string, Kinds>, importer: Option<string>, kind: string, dep: string, v: Option<string>)
      returns (ok: bool, out: map<string, Kinds>)
    ensures ok <==> importer.Some? && importer.value in importers && kind in importers[importer.value]
    ensures ok ==> out == importers[importer.value := importers[importer.value][kind := importers[importer.value][kind][dep := v]]]
  {
    if importer.None? || importer.value !in importers || kind !in importers[importer.value] {
      return false, importers;
    }
    var kinds := importers[importer.value];
    return true, importers[importer.value := kinds[kind := kinds[kind][dep := v]]];
  }

  /** A line without indent starts a section. */
  method ReadTopLine(s0: State, key: string, value: Option<string>) returns (s: State)
    ensures s == TopLevel(s0, key, value)
  {
    s := s0.(section := key, importer := None, kind := None, dep := None, snap := None, inEdges := false);
    if key == "lockfileVersion" {
      s := s.(version := value);
    }
  }

  /** A line of the `importers` section. */
  method ReadImporterLine(s0: State, indent: nat, key: string, value: Option<string>) returns (s: State)
    ensures s == InImporters(s0, indent, key, value)
  {
    s := s0;
    if indent == 2 {
      s := s.(importer := Some(key), kind := None, dep := None);
      s := s.(importers := s.importers[key := map k | k in IMPORTER_KINDS :: map[]]);
    } else if indent == 4 {
      s := s.(kind := if key in IMPORTER_KINDS then Some(key) else None, dep := None);
    } else if indent == 6 && s.kind.Some? {
      s := s.(dep := Some(key));
      var ok, filed := FileVersion(s.importers, s.importer, s.kind.value, key, None);
      s := if ok then s.(importers := filed) else s.(broken := true);
    } else if indent == 8 && s.kind.Some? && s.dep.Some? && key == "version" {
      var ok, filed := FileVersion(s.importers, s.importer, s.kind.value, s.dep.value, value);
      s := if ok then s.(importers := filed) else s.(broken := true);
    }
  }

  /** A line of the `snapshots` section. */
  method ReadSnapshotLine(s0: State, indent: nat, key: string, value: Option<string>) returns (s: State)
    ensures s == InSnapshots(s0, indent, key, value)
  {
    s := s0;
    if indent == 2 {
      s := s.(snap := Some(key), inEdges := false, snapshots := s.snapshots[key := []]);
    } else if indent == 4 {
      s := s.(inEdges := key in SNAPSHOT_EDGE_KINDS && value.None?);
    } else if indent == 6 && s.inEdges {
      if s.snap.None? || s.snap.value !in s.snapshots {
        s := s.(broken := true);
      } else {
        s := s.(snapshots := s.snapshots[s.snap.value := s.snapshots[s.snap.value] + [(key, value)]]);
      }
    }
  }

  /** One line that is neither blank nor a comment. */
  method ReadBody(raw: string) returns (skip: bool, indent: nat, key: string, value: Option<string>)
    ensures Lex(raw) == if skip then Noise else Entry(indent, key, value)
  {
    var body := Trim(raw, IsSpace);
    indent, key, value := 0, "", None;
    if body == "" || body[0] == '#' {
      return true, indent, key, value;
    }
    var entry := SplitEntry(body);
    return false, Indent(raw), entry.0, entry.1;
  }

  /** One turn of the reading loop. */
  method ReadLine(s0: State, raw: string, ghost step: (State, string) -> State) returns (s: State)
    requires !s0.broken && IsReadStep(step)
    ensures s == step(s0, raw)
  {
    var skip, indent, key, value := ReadBody(raw);
    s := s0;
    if skip {
      return;
    }
    if indent == 0 {
      s := ReadTopLine(s, key, value);
    } else if s.section == "importers" {
      s := ReadImporterLine(s, indent, key, value);
    } else if s.section == "snapshots" {
      s := ReadSnapshotLine(s, indent, key, value);
    }
  }

  /** The reading loop, which stops where a line cannot be nested. */
  method ReadAll(lines: seq<string>, ghost step: (State, string) -> State) returns (r: Parsed)
    requires IsReadStep(step) && KeepsBroken(step)
    ensures r == Outcome(FoldAt(step, START, lines, |lines|))
  {
    var s := State(None, map[], map[], "", None, None, None, None, false, false);
    for i := 0 to |lines|
      invariant FoldAt(step, START, lines, i) == s && !s.broken
    {
      s := ReadLine(s, lines[i], step);
      if s.broken {
        StaysBroken(step, START, lines, i + 1, |lines|);
        return Crashed;
      }
    }
    return Tables(s.version, s.importers, s.snapshots);
  }

  /** `parse_lockfile` over the lines of the file. */
  method ParseLockfile(lines: seq<string>) returns (r: Parsed)
    ensures r == Outcome(Feed(START, LexAll(lines)))
  {
    ghost var step := (s: State, raw: string) => Consume(s, Lex(raw));
    ConsumeKeepsBroken(step);
    FoldOfMapped(Consume, Lex, step, START, lines, |lines|);
    assert lines[..|lines|] == lines;
    r := ReadAll(lines, step);
  }
}
