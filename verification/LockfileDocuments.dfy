/**
 Lock file documents: the tables, and everything the reader must skip between their
 lines. Reading a rendered document gives back the document's own tables.
 */
module LockfileDocuments {
  import opened Text
  import opened Folds
  import opened Lockfile
  import opened LockfileRoundTrip

  datatype Dep = Dep(name: Word, specifier: Option<Word>, version: Option<Word>)

  /** A block of an importer: a dependency kind, or any other key with its nested lines. */
  datatype Block = KindBlock(kind: string, deps: seq<Dep>) | OtherBlock(header: string, nested: seq<string>)
  datatype Importer = Importer(name: Word, blocks: seq<Block>)

  datatype Edge = Edge(name: Word, version: Option<Word>)
  datatype SnapBlock = EdgeBlock(kind: string, edges: seq<Edge>) | OtherSnapBlock(header: string, nested: seq<string>)
  datatype Snapshot = Snapshot(key: Word, blocks: seq<SnapBlock>)

  datatype Section =
    | VersionLine(version: Word)
    | ImportersSection(importers: seq<Importer>)
    | SnapshotsSection(snapshots: seq<Snapshot>)
    | SkippedSection(header: string, nested: seq<string>)

  // ----- Rendering -----

  function RenderField(key: string, value: Option<Word>): seq<string> {
    if value.Some? then [EntryLine(8, Keyword(key), value.value)] else []
  }

  function RenderDep(d: Dep): seq<string> {
    [KeyLine(6, d.name)] + RenderField("specifier", d.specifier) + RenderField("version", d.version)
  }

  function RenderDeps(ds: seq<Dep>): seq<string> {
    if ds == [] then [] else RenderDep(ds[0]) + RenderDeps(ds[1..])
  }

  function RenderBlock(b: Block): seq<string> {
    match b
    case KindBlock(kind, deps) => [KeyLine(4, Keyword(kind))] + RenderDeps(deps)
    case OtherBlock(header, nested) => [header] + nested
  }

  function RenderBlocks(bs: seq<Block>): seq<string> {
    if bs == [] then [] else RenderBlock(bs[0]) + RenderBlocks(bs[1..])
  }

  function RenderImporters(es: seq<Importer>): seq<string> {
    if es == [] then []
    else [KeyLine(2, es[0].name)] + RenderBlocks(es[0].blocks) + RenderImporters(es[1..])
  }

  function RenderEdge(e: Edge): string {
    match e.version
    case None => KeyLine(6, e.name)
    case Some(v) => EntryLine(6, e.name, v)
  }

  function RenderEdges(es: seq<Edge>): seq<string> {
    if es == [] then [] else [RenderEdge(es[0])] + RenderEdges(es[1..])
  }

  function RenderSnapBlock(b: SnapBlock): seq<string> {
    match b
    case EdgeBlock(kind, edges) => [KeyLine(4, Keyword(kind))] + RenderEdges(edges)
    case OtherSnapBlock(header, nested) => [header] + nested
  }

  function RenderSnapBlocks(bs: seq<SnapBlock>): seq<string> {
    if bs == [] then [] else RenderSnapBlock(bs[0]) + RenderSnapBlocks(bs[1..])
  }

  function RenderSnapshots(es: seq<Snapshot>): seq<string> {
    if es == [] then []
    else [KeyLine(2, es[0].key)] + RenderSnapBlocks(es[0].blocks) + RenderSnapshots(es[1..])
  }

  function RenderSection(x: Section): seq<string> {
    match x
    case VersionLine(v) => [EntryLine(0, Keyword("lockfileVersion"), v)]
    case ImportersSection(es) => [KeyLine(0, Keyword("importers"))] + RenderImporters(es)
    case SnapshotsSection(es) => [KeyLine(0, Keyword("snapshots"))] + RenderSnapshots(es)
    case SkippedSection(header, nested) => [header] + nested
  }

  function Render(doc: seq<Section>): seq<string> {
    if doc == [] then [] else RenderSection(doc[0]) + Render(doc[1..])
  }

  // ----- What a document means -----

  datatype Contents = Contents(version: Option<string>, importers: map<string, Kinds>, snapshots: map<string, Edges>)

  function TextOf(w: Option<Word>): Option<string> {
    match w
    case None => None
    case Some(word) => Some(word.text)
  }

  function DepTable(table: Versions, ds: seq<Dep>): Versions
    decreases |ds|
  {
    if ds == [] then table else DepTable(table[ds[0].name.text := TextOf(ds[0].version)], ds[1..])
  }

  function AddBlock(kinds: Kinds, b: Block): Kinds {
    if b.KindBlock? && b.kind in kinds then kinds[b.kind := DepTable(kinds[b.kind], b.deps)] else kinds
  }

  function BlockTable(kinds: Kinds, bs: seq<Block>): Kinds
    decreases |bs|
  {
    if bs == [] then kinds else BlockTable(AddBlock(kinds, bs[0]), bs[1..])
  }

  function ImporterTable(table: map<string, Kinds>, es: seq<Importer>): map<string, Kinds>
    decreases |es|
  {
    if es == [] then table
    else ImporterTable(table[es[0].name.text := BlockTable(EmptyKinds(), es[0].blocks)], es[1..])
  }

  function EdgeList(es: seq<Edge>): Edges {
    if es == [] then [] else [(es[0].name.text, TextOf(es[0].version))] + EdgeList(es[1..])
  }

  function SnapEdges(bs: seq<SnapBlock>): Edges {
    if bs == [] then []
    else (if bs[0].EdgeBlock? then EdgeList(bs[0].edges) else []) + SnapEdges(bs[1..])
  }

  function SnapshotTable(table: map<string, Edges>, es: seq<Snapshot>): map<string, Edges>
    decreases |es|
  {
    if es == [] then table else SnapshotTable(table[es[0].key.text := SnapEdges(es[0].blocks)], es[1..])
  }

  function AddSection(c: Contents, x: Section): Contents {
    match x
    case VersionLine(v) => c.(version := Some(v.text))
    case ImportersSection(es) => c.(importers := ImporterTable(c.importers, es))
    case SnapshotsSection(es) => c.(snapshots := SnapshotTable(c.snapshots, es))
    case SkippedSection(_, _) => c
  }

  function Meaning(c: Contents, doc: seq<Section>): Contents
    decreases |doc|
  {
    if doc == [] then c else Meaning(AddSection(c, doc[0]), doc[1..])
  }

  // ----- Well-formed documents -----

  /** A line at this indent whose key is none of `keys`. */
  predicate HeaderAt(raw: string, indent: nat, keys: seq<string>) {
    Lex(raw).Entry? && Lex(raw).indent == indent && Lex(raw).key !in keys
  }

  predicate Nested(lines: seq<string>, outer: seq<nat>) {
    forall i :: 0 <= i < |lines| ==> Lex(lines[i]).Noise? || Lex(lines[i]).indent !in outer
  }

  predicate ValidDep(d: Dep) {
    ValidKey(d.name) && (d.specifier.Some? ==> ValidValue(d.specifier.value))
    && (d.version.Some? ==> ValidValue(d.version.value))
  }

  predicate ValidBlock(b: Block) {
    match b
    case KindBlock(kind, deps) =>
      kind in IMPORTER_KINDS && forall i :: 0 <= i < |deps| ==> ValidDep(deps[i])
    case OtherBlock(header, nested) => HeaderAt(header, 4, IMPORTER_KINDS) && Nested(nested, [0, 2, 4])
  }

  predicate ValidImporter(e: Importer) {
    ValidKey(e.name) && forall i :: 0 <= i < |e.blocks| ==> ValidBlock(e.blocks[i])
  }

  predicate ValidEdge(e: Edge) {
    ValidKey(e.name) && (e.version.Some? ==> ValidValue(e.version.value))
  }

  /** Any key other than an edge kind ends an edge block; so does an edge kind that
      carries a value on its own line. */
  predicate EndsEdges(raw: string) {
    Lex(raw).Entry? && Lex(raw).indent == 4
    && (Lex(raw).key in SNAPSHOT_EDGE_KINDS ==> Lex(raw).value.Some?)
  }

  predicate ValidSnapBlock(b: SnapBlock) {
    match b
    case EdgeBlock(kind, edges) =>
      kind in SNAPSHOT_EDGE_KINDS && forall i :: 0 <= i < |edges| ==> ValidEdge(edges[i])
    case OtherSnapBlock(header, nested) => EndsEdges(header) && Nested(nested, [0, 2, 4])
  }

  predicate ValidSnapshot(e: Snapshot) {
    ValidKey(e.key) && forall i :: 0 <= i < |e.blocks| ==> ValidSnapBlock(e.blocks[i])
  }

  predicate ValidSection(x: Section) {
    match x
    case VersionLine(v) => ValidValue(v)
    case ImportersSection(es) => forall i :: 0 <= i < |es| ==> ValidImporter(es[i])
    case SnapshotsSection(es) => forall i :: 0 <= i < |es| ==> ValidSnapshot(es[i])
    case SkippedSection(header, nested) =>
      HeaderAt(header, 0, ["lockfileVersion", "importers", "snapshots"]) && Nested(nested, [0])
  }

  predicate ValidDocument(doc: seq<Section>) {
    forall i :: 0 <= i < |doc| ==> ValidSection(doc[i])
  }

  // ----- The entries of the rendered lines -----

  function FieldTokens(key: string, value: Option<Word>): seq<Line> {
    if value.Some? then [Entry(8, key, TextOf(value))] else []
  }

  function DepTokens(d: Dep): seq<Line> {
    [Entry(6, d.name.text, None)] + FieldTokens("specifier", d.specifier) + FieldTokens("version", d.version)
  }

  function DepsTokens(ds: seq<Dep>): seq<Line> {
    if ds == [] then [] else DepTokens(ds[0]) + DepsTokens(ds[1..])
  }

  function BlockTokens(b: Block): seq<Line> {
    match b
    case KindBlock(kind, deps) => [Entry(4, kind, None)] + DepsTokens(deps)
    case OtherBlock(header, nested) => [Lex(header)] + LexAll(nested)
  }

  function BlocksTokens(bs: seq<Block>): seq<Line> {
    if bs == [] then [] else BlockTokens(bs[0]) + BlocksTokens(bs[1..])
  }

  function ImportersTokens(es: seq<Importer>): seq<Line> {
    if es == [] then []
    else [Entry(2, es[0].name.text, None)] + BlocksTokens(es[0].blocks) + ImportersTokens(es[1..])
  }

  function EdgesTokens(es: seq<Edge>): seq<Line> {
    if es == [] then [] else [Entry(6, es[0].name.text, TextOf(es[0].version))] + EdgesTokens(es[1..])
  }

  function SnapBlockTokens(b: SnapBlock): seq<Line> {
    match b
    case EdgeBlock(kind, edges) => [Entry(4, kind, None)] + EdgesTokens(edges)
    case OtherSnapBlock(header, nested) => [Lex(header)] + LexAll(nested)
  }

  function SnapBlocksTokens(bs: seq<SnapBlock>): seq<Line> {
    if bs == [] then [] else SnapBlockTokens(bs[0]) + SnapBlocksTokens(bs[1..])
  }

  function SnapshotsTokens(es: seq<Snapshot>): seq<Line> {
    if es == [] then []
    else [Entry(2, es[0].key.text, None)] + SnapBlocksTokens(es[0].blocks) + SnapshotsTokens(es[1..])
  }

  function SectionTokens(x: Section): seq<Line> {
    match x
    case VersionLine(v) => [Entry(0, "lockfileVersion", Some(v.text))]
    case ImportersSection(es) => [Entry(0, "importers", None)] + ImportersTokens(es)
    case SnapshotsSection(es) => [Entry(0, "snapshots", None)] + SnapshotsTokens(es)
    case SkippedSection(header, nested) => [Lex(header)] + LexAll(nested)
  }

  function Tokens(doc: seq<Section>): seq<Line> {
    if doc == [] then [] else SectionTokens(doc[0]) + Tokens(doc[1..])
  }

  lemma LexConcat(a: seq<string>, b: seq<string>)
    ensures LexAll(a + b) == LexAll(a) + LexAll(b)
  {
    MapConcat(Lex, a, b);
  }

  lemma LexOne(raw: string)
    ensures LexAll([raw]) == [Lex(raw)]
  {
    MapOne(Lex, raw);
  }

  lemma KindsAreLetters(k: string)
    requires k in IMPORTER_KINDS || k in SNAPSHOT_EDGE_KINDS
    ensures Letters(k)
  {
    assert k == "dependencies" || k == "optionalDependencies" || k == "devDependencies";
  }

  lemma LexField(key: string, value: Option<Word>)
    requires Letters(key) && (value.Some? ==> ValidValue(value.value))
    ensures LexAll(RenderField(key, value)) == FieldTokens(key, value)
  {
    if value.Some? {
      LexOne(EntryLine(8, Keyword(key), value.value));
      LexKeywordEntry(8, key, value.value);
    }
  }

  lemma LexFields(d: Dep)
    requires ValidDep(d)
    ensures LexAll(RenderField("specifier", d.specifier)) == FieldTokens("specifier", d.specifier)
    ensures LexAll(RenderField("version", d.version)) == FieldTokens("version", d.version)
  {
    LexField("specifier", d.specifier);
    LexField("version", d.version);
  }

  lemma LexDep(d: Dep)
    requires ValidDep(d)
    ensures LexAll(RenderDep(d)) == DepTokens(d)
  {
    var name, spec, vers := [KeyLine(6, d.name)], RenderField("specifier", d.specifier), RenderField("version", d.version);
    LexConcat(name + spec, vers);
    LexConcat(name, spec);
    LexOne(name[0]);
    LexKeyLine(6, d.name);
    LexFields(d);
  }

  lemma {:induction false} LexDeps(ds: seq<Dep>)
    requires forall i :: 0 <= i < |ds| ==> ValidDep(ds[i])
    ensures LexAll(RenderDeps(ds)) == DepsTokens(ds)
  {
    if ds != [] {
      LexDep(ds[0]);
      LexDeps(ds[1..]);
      LexConcat(RenderDep(ds[0]), RenderDeps(ds[1..]));
    }
  }

  lemma LexBlock(b: Block)
    requires ValidBlock(b)
    ensures LexAll(RenderBlock(b)) == BlockTokens(b)
  {
    match b
    case KindBlock(kind, deps) =>
      KindsAreLetters(kind);
      LexKeyword(4, kind);
      LexDeps(deps);
      LexOne(KeyLine(4, Keyword(kind)));
      LexConcat([KeyLine(4, Keyword(kind))], RenderDeps(deps));
    case OtherBlock(header, nested) =>
      LexOne(header);
      LexConcat([header], nested);
  }

  lemma {:induction false} LexBlocks(bs: seq<Block>)
    requires forall i :: 0 <= i < |bs| ==> ValidBlock(bs[i])
    ensures LexAll(RenderBlocks(bs)) == BlocksTokens(bs)
  {
    if bs != [] {
      LexBlock(bs[0]);
      LexBlocks(bs[1..]);
      LexConcat(RenderBlock(bs[0]), RenderBlocks(bs[1..]));
    }
  }

  lemma {:induction false} LexImporters(es: seq<Importer>)
    requires forall i :: 0 <= i < |es| ==> ValidImporter(es[i])
    ensures LexAll(RenderImporters(es)) == ImportersTokens(es)
  {
    if es != [] {
      var head := KeyLine(2, es[0].name);
      LexOne(head);
      LexKeyLine(2, es[0].name);
      LexBlocks(es[0].blocks);
      LexImporters(es[1..]);
      LexConcat([head], RenderBlocks(es[0].blocks));
      LexConcat([head] + RenderBlocks(es[0].blocks), RenderImporters(es[1..]));
    }
  }

  lemma {:induction false} LexEdges(es: seq<Edge>)
    requires forall i :: 0 <= i < |es| ==> ValidEdge(es[i])
    ensures LexAll(RenderEdges(es)) == EdgesTokens(es)
  {
    if es != [] {
      var e := es[0];
      LexOne(RenderEdge(e));
      if e.version.None? {
        LexKeyLine(6, e.name);
      } else {
        LexEntryLine(6, e.name, e.version.value);
      }
      LexEdges(es[1..]);
      LexConcat([RenderEdge(e)], RenderEdges(es[1..]));
    }
  }

  lemma LexSnapBlock(b: SnapBlock)
    requires ValidSnapBlock(b)
    ensures LexAll(RenderSnapBlock(b)) == SnapBlockTokens(b)
  {
    match b
    case EdgeBlock(kind, edges) =>
      KindsAreLetters(kind);
      LexKeyword(4, kind);
      LexEdges(edges);
      LexOne(KeyLine(4, Keyword(kind)));
      LexConcat([KeyLine(4, Keyword(kind))], RenderEdges(edges));
    case OtherSnapBlock(header, nested) =>
      LexOne(header);
      LexConcat([header], nested);
  }

  lemma {:induction false} LexSnapBlocks(bs: seq<SnapBlock>)
    requires forall i :: 0 <= i < |bs| ==> ValidSnapBlock(bs[i])
    ensures LexAll(RenderSnapBlocks(bs)) == SnapBlocksTokens(bs)
  {
    if bs != [] {
      LexSnapBlock(bs[0]);
      LexSnapBlocks(bs[1..]);
      LexConcat(RenderSnapBlock(bs[0]), RenderSnapBlocks(bs[1..]));
    }
  }

  lemma {:induction false} LexSnapshots(es: seq<Snapshot>)
    requires forall i :: 0 <= i < |es| ==> ValidSnapshot(es[i])
    ensures LexAll(RenderSnapshots(es)) == SnapshotsTokens(es)
  {
    if es != [] {
      var head := KeyLine(2, es[0].key);
      LexOne(head);
      LexKeyLine(2, es[0].key);
      LexSnapBlocks(es[0].blocks);
      LexSnapshots(es[1..]);
      LexConcat([head], RenderSnapBlocks(es[0].blocks));
      LexConcat([head] + RenderSnapBlocks(es[0].blocks), RenderSnapshots(es[1..]));
    }
  }

  lemma LexSection(x: Section)
    requires ValidSection(x)
    ensures LexAll(RenderSection(x)) == SectionTokens(x)
  {
    match x
    case VersionLine(v) =>
      LexKeywordEntry(0, "lockfileVersion", v);
      LexOne(EntryLine(0, Keyword("lockfileVersion"), v));
    case ImportersSection(es) =>
      LexKeyword(0, "importers");
      LexOne(KeyLine(0, Keyword("importers")));
      LexImporters(es);
      LexConcat([KeyLine(0, Keyword("importers"))], RenderImporters(es));
    case SnapshotsSection(es) =>
      LexKeyword(0, "snapshots");
      LexOne(KeyLine(0, Keyword("snapshots")));
      LexSnapshots(es);
      LexConcat([KeyLine(0, Keyword("snapshots"))], RenderSnapshots(es));
    case SkippedSection(header, nested) =>
      LexOne(header);
      LexConcat([header], nested);
  }

  lemma {:induction false} LexDocument(doc: seq<Section>)
    requires ValidDocument(doc)
    ensures LexAll(Render(doc)) == Tokens(doc)
  {
    if doc != [] {
      LexSection(doc[0]);
      LexDocument(doc[1..]);
      LexConcat(RenderSection(doc[0]), Render(doc[1..]));
    }
  }
}
