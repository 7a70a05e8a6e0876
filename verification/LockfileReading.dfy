/**
 The round trip: reading the lines of a document, however comments and blank lines are
 spread over them, gives exactly the document's tables.
 */
module LockfileReading {
  import opened Text
  import opened Folds
  import opened Lockfile
  import opened LockfileDocuments

  /** The reader is in the given section and has read exactly these contents. */
  ghost predicate At(s: State, c: Contents, section: string) {
    !s.broken && s.version == c.version && s.importers == c.importers && s.snapshots == c.snapshots
    && s.section == section
  }

  // ----- Lines that change nothing -----

  ghost predicate Skipping(s: State, outer: seq<nat>) {
    0 in outer
    && (s.section == "importers" ==> s.kind.None? && 2 in outer && 4 in outer)
    && (s.section == "snapshots" ==> !s.inEdges && 2 in outer && 4 in outer)
  }

  lemma SkipOne(s: State, line: Line, outer: seq<nat>)
    requires Skipping(s, outer) && (line.Entry? ==> line.indent !in outer)
    ensures Consume(s, line) == s
  {
  }

  lemma {:induction false} SkipNested(s: State, lines: seq<string>, outer: seq<nat>)
    requires Nested(lines, outer) && Skipping(s, outer)
    ensures Feed(s, LexAll(lines)) == s
    decreases |lines|
  {
    if lines != [] {
      SkipOne(s, Lex(lines[0]), outer);
      FoldCons(Consume, s, Lex(lines[0]), LexAll(lines[1..]));
      SkipNested(s, lines[1..], outer);
    }
  }

  // ----- Importers -----

  ghost predicate InKind(s: State, c: Contents, i: string, k: string) {
    At(s, c, "importers") && s.importer == Some(i) && s.kind == Some(k) && i in c.importers && k in c.importers[i]
  }

  function WithKind(c: Contents, i: string, k: string, table: Versions): Contents
    requires i in c.importers
  {
    c.(importers := c.importers[i := c.importers[i][k := table]])
  }

  lemma WithKindTwice(c: Contents, i: string, k: string, a: Versions, b: Versions)
    requires i in c.importers
    ensures WithKind(WithKind(c, i, k, a), i, k, b) == WithKind(c, i, k, b)
  {
    var kinds := c.importers[i];
    assert kinds[k := a][k := b] == kinds[k := b];
  }

  lemma FeedDepName(s: State, c: Contents, i: string, k: string, name: string)
    requires InKind(s, c, i, k)
    ensures
      var s' := Consume(s, Entry(6, name, None));
      InKind(s', WithKind(c, i, k, c.importers[i][k][name := None]), i, k) && s'.dep == Some(name)
  {
  }

  lemma FeedDepVersion(s: State, c: Contents, i: string, k: string, name: string, v: Option<string>)
    requires InKind(s, c, i, k) && s.dep == Some(name)
    ensures InKind(Consume(s, Entry(8, "version", v)), WithKind(c, i, k, c.importers[i][k][name := v]), i, k)
  {
  }

  lemma FeedSpecifier(s: State, v: Option<string>)
    requires s.section == "importers"
    ensures Consume(s, Entry(8, "specifier", v)) == s
  {
    assert |"specifier"| != |"version"|;
  }

  lemma FeedDep(s: State, c: Contents, i: string, k: string, d: Dep)
    requires InKind(s, c, i, k)
    ensures InKind(Feed(s, DepTokens(d)), WithKind(c, i, k, c.importers[i][k][d.name.text := TextOf(d.version)]), i, k)
  {
    var name, table := d.name.text, c.importers[i][k];
    var spec, vers := FieldTokens("specifier", d.specifier), FieldTokens("version", d.version);
    var first := Entry(6, name, None);
    var s1, c1 := Consume(s, first), WithKind(c, i, k, table[name := None]);
    FeedDepName(s, c, i, k, name);
    assert DepTokens(d) == [first] + (spec + vers);
    FoldCons(Consume, s, first, spec + vers);
    FoldConcat(Consume, s1, spec, vers);
    assert Feed(s1, spec) == s1 by {
      if d.specifier.Some? {
        FeedSpecifier(s1, TextOf(d.specifier));
        FoldOne(Consume, s1, spec[0]);
      }
    }
    if d.version.Some? {
      FoldOne(Consume, s1, vers[0]);
      FeedDepVersion(s1, c1, i, k, name, TextOf(d.version));
      assert table[name := None][name := TextOf(d.version)] == table[name := TextOf(d.version)];
      WithKindTwice(c, i, k, table[name := None], table[name := TextOf(d.version)]);
    }
  }

  lemma {:induction false} FeedDeps(s: State, c: Contents, i: string, k: string, ds: seq<Dep>)
    requires InKind(s, c, i, k)
    ensures InKind(Feed(s, DepsTokens(ds)), WithKind(c, i, k, DepTable(c.importers[i][k], ds)), i, k)
    decreases |ds|
  {
    var table := c.importers[i][k];
    if ds == [] {
      assert c.importers[i][k := table] == c.importers[i];
      assert c.importers[i := c.importers[i]] == c.importers;
    } else {
      var first := table[ds[0].name.text := TextOf(ds[0].version)];
      FeedDep(s, c, i, k, ds[0]);
      FoldConcat(Consume, s, DepTokens(ds[0]), DepsTokens(ds[1..]));
      FeedDeps(Feed(s, DepTokens(ds[0])), WithKind(c, i, k, first), i, k, ds[1..]);
      WithKindTwice(c, i, k, first, DepTable(first, ds[1..]));
    }
  }

  ghost predicate InImporter(s: State, c: Contents, i: string) {
    At(s, c, "importers") && s.importer == Some(i) && i in c.importers
    && forall k :: k in IMPORTER_KINDS ==> k in c.importers[i]
  }

  lemma FeedKindBlock(s: State, c: Contents, i: string, k: string, ds: seq<Dep>)
    requires InImporter(s, c, i) && k in IMPORTER_KINDS
    ensures InImporter(Feed(s, [Entry(4, k, None)] + DepsTokens(ds)), WithKind(c, i, k, DepTable(c.importers[i][k], ds)), i)
  {
    var s1 := Consume(s, Entry(4, k, None));
    FoldCons(Consume, s, Entry(4, k, None), DepsTokens(ds));
    assert InKind(s1, c, i, k);
    FeedDeps(s1, c, i, k, ds);
  }

  lemma FeedOtherBlock(s: State, c: Contents, i: string, header: string, nested: seq<string>)
    requires InImporter(s, c, i) && HeaderAt(header, 4, IMPORTER_KINDS) && Nested(nested, [0, 2, 4])
    ensures InImporter(Feed(s, [Lex(header)] + LexAll(nested)), c, i)
  {
    FoldCons(Consume, s, Lex(header), LexAll(nested));
    SkipNested(Consume(s, Lex(header)), nested, [0, 2, 4]);
  }

  function WithImporter(c: Contents, i: string, kinds: Kinds): Contents {
    c.(importers := c.importers[i := kinds])
  }

  lemma WithImporterTwice(c: Contents, i: string, a: Kinds, b: Kinds)
    ensures WithImporter(WithImporter(c, i, a), i, b) == WithImporter(c, i, b)
  {
    assert c.importers[i := a][i := b] == c.importers[i := b];
  }

  lemma WithOwnImporter(c: Contents, i: string)
    requires i in c.importers
    ensures WithImporter(c, i, c.importers[i]) == c
  {
    assert c.importers[i := c.importers[i]] == c.importers;
  }

  /** One block of an importer, whichever kind it is. */
  lemma FeedBlock(s: State, c: Contents, i: string, b: Block)
    requires InImporter(s, c, i) && ValidBlock(b)
    ensures InImporter(Feed(s, BlockTokens(b)), WithImporter(c, i, AddBlock(c.importers[i], b)), i)
  {
    if b.KindBlock? {
      FeedKindBlock(s, c, i, b.kind, b.deps);
    } else {
      FeedOtherBlock(s, c, i, b.header, b.nested);
      WithOwnImporter(c, i);
    }
  }

  lemma {:induction false} FeedBlocks(s: State, c: Contents, i: string, bs: seq<Block>)
    requires InImporter(s, c, i) && forall j :: 0 <= j < |bs| ==> ValidBlock(bs[j])
    ensures InImporter(Feed(s, BlocksTokens(bs)), WithImporter(c, i, BlockTable(c.importers[i], bs)), i)
    decreases |bs|
  {
    if bs == [] {
      WithOwnImporter(c, i);
    } else {
      var first := AddBlock(c.importers[i], bs[0]);
      FeedBlock(s, c, i, bs[0]);
      FoldConcat(Consume, s, BlockTokens(bs[0]), BlocksTokens(bs[1..]));
      FeedBlocks(Feed(s, BlockTokens(bs[0])), WithImporter(c, i, first), i, bs[1..]);
      WithImporterTwice(c, i, first, BlockTable(first, bs[1..]));
    }
  }

  lemma FeedImporter(s: State, c: Contents, e: Importer)
    requires At(s, c, "importers") && ValidImporter(e)
    ensures At(Feed(s, [Entry(2, e.name.text, None)] + BlocksTokens(e.blocks)),
               WithImporter(c, e.name.text, BlockTable(EmptyKinds(), e.blocks)), "importers")
  {
    var i := e.name.text;
    var c1 := WithImporter(c, i, EmptyKinds());
    var s1 := Consume(s, Entry(2, i, None));
    FoldCons(Consume, s, Entry(2, i, None), BlocksTokens(e.blocks));
    assert InImporter(s1, c1, i);
    FeedBlocks(s1, c1, i, e.blocks);
    WithImporterTwice(c, i, EmptyKinds(), BlockTable(EmptyKinds(), e.blocks));
  }

  lemma {:induction false} FeedImporters(s: State, c: Contents, es: seq<Importer>)
    requires At(s, c, "importers") && forall j :: 0 <= j < |es| ==> ValidImporter(es[j])
    ensures At(Feed(s, ImportersTokens(es)), c.(importers := ImporterTable(c.importers, es)), "importers")
    decreases |es|
  {
    if es != [] {
      var e, rest := es[0], es[1..];
      var lines := [Entry(2, e.name.text, None)] + BlocksTokens(e.blocks);
      FeedImporter(s, c, e);
      FoldConcat(Consume, s, lines, ImportersTokens(rest));
      FeedImporters(Feed(s, lines), WithImporter(c, e.name.text, BlockTable(EmptyKinds(), e.blocks)), rest);
    }
  }

  // ----- Snapshots -----

  ghost predicate InSnapshot(s: State, c: Contents, key: string) {
    At(s, c, "snapshots") && s.snap == Some(key) && key in c.snapshots
  }

  function WithEdges(c: Contents, key: string, edges: Edges): Contents {
    c.(snapshots := c.snapshots[key := edges])
  }

  lemma WithEdgesTwice(c: Contents, key: string, a: Edges, b: Edges)
    ensures WithEdges(WithEdges(c, key, a), key, b) == WithEdges(c, key, b)
  {
    assert c.snapshots[key := a][key := b] == c.snapshots[key := b];
  }

  lemma WithOwnEdges(c: Contents, key: string)
    requires key in c.snapshots
    ensures WithEdges(c, key, c.snapshots[key] + []) == c
  {
    assert c.snapshots[key] + [] == c.snapshots[key];
    assert c.snapshots[key := c.snapshots[key]] == c.snapshots;
  }

  lemma FeedOneEdge(s: State, c: Contents, key: string, name: string, v: Option<string>)
    requires InSnapshot(s, c, key) && s.inEdges
    ensures var s1 := Consume(s, Entry(6, name, v));
      InSnapshot(s1, WithEdges(c, key, c.snapshots[key] + [(name, v)]), key) && s1.inEdges
  {
  }

  lemma EdgesGrow(c: Contents, key: string, e: Edge, rest: seq<Edge>)
    requires key in c.snapshots
    ensures var more := c.snapshots[key] + [(e.name.text, TextOf(e.version))];
      WithEdges(WithEdges(c, key, more), key, more + EdgeList(rest)) == WithEdges(c, key, c.snapshots[key] + EdgeList([e] + rest))
  {
    var edge := (e.name.text, TextOf(e.version));
    var more := c.snapshots[key] + [edge];
    assert ([e] + rest)[1..] == rest;
    Assoc(c.snapshots[key], [edge], EdgeList(rest));
    WithEdgesTwice(c, key, more, more + EdgeList(rest));
  }

  lemma {:induction false} FeedEdges(s: State, c: Contents, key: string, es: seq<Edge>)
    requires InSnapshot(s, c, key) && s.inEdges
    ensures InSnapshot(Feed(s, EdgesTokens(es)), WithEdges(c, key, c.snapshots[key] + EdgeList(es)), key)
    decreases |es|
  {
    if es == [] {
      WithOwnEdges(c, key);
    } else {
      var e, rest := es[0], es[1..];
      var line := Entry(6, e.name.text, TextOf(e.version));
      var more := c.snapshots[key] + [(e.name.text, TextOf(e.version))];
      assert es == [e] + rest;
      FoldCons(Consume, s, line, EdgesTokens(rest));
      FeedOneEdge(s, c, key, e.name.text, TextOf(e.version));
      FeedEdges(Consume(s, line), WithEdges(c, key, more), key, rest);
      EdgesGrow(c, key, e, rest);
    }
  }

  lemma FeedEdgeBlock(s: State, c: Contents, key: string, kind: string, edges: seq<Edge>)
    requires InSnapshot(s, c, key) && kind in SNAPSHOT_EDGE_KINDS
    ensures InSnapshot(Feed(s, [Entry(4, kind, None)] + EdgesTokens(edges)), WithEdges(c, key, c.snapshots[key] + EdgeList(edges)), key)
  {
    var s1 := Consume(s, Entry(4, kind, None));
    FoldCons(Consume, s, Entry(4, kind, None), EdgesTokens(edges));
    assert InSnapshot(s1, c, key) && s1.inEdges;
    FeedEdges(s1, c, key, edges);
  }

  lemma ConsumeOtherHeader(s: State, c: Contents, key: string, line: Line)
    requires InSnapshot(s, c, key) && line.Entry? && line.indent == 4 && (line.key in SNAPSHOT_EDGE_KINDS ==> line.value.Some?)
    ensures InSnapshot(Consume(s, line), c, key) && !Consume(s, line).inEdges
  {
  }

  lemma FeedOtherSnapBlock(s: State, c: Contents, key: string, header: string, nested: seq<string>)
    requires InSnapshot(s, c, key) && EndsEdges(header) && Nested(nested, [0, 2, 4])
    ensures InSnapshot(Feed(s, [Lex(header)] + LexAll(nested)), c, key)
  {
    var line := Lex(header);
    FoldCons(Consume, s, line, LexAll(nested));
    ConsumeOtherHeader(s, c, key, line);
    SkipNested(Consume(s, line), nested, [0, 2, 4]);
  }

  function OwnEdges(b: SnapBlock): Edges {
    if b.EdgeBlock? then EdgeList(b.edges) else []
  }

  lemma FeedSnapBlock(s: State, c: Contents, key: string, b: SnapBlock)
    requires InSnapshot(s, c, key) && ValidSnapBlock(b)
    ensures InSnapshot(Feed(s, SnapBlockTokens(b)), WithEdges(c, key, c.snapshots[key] + OwnEdges(b)), key)
  {
    match b
    case EdgeBlock(kind, edges) => FeedEdgeBlock(s, c, key, kind, edges);
    case OtherSnapBlock(header, nested) =>
      FeedOtherSnapBlock(s, c, key, header, nested);
      WithOwnEdges(c, key);
  }

  lemma {:induction false} FeedSnapBlocks(s: State, c: Contents, key: string, bs: seq<SnapBlock>)
    requires InSnapshot(s, c, key) && forall j :: 0 <= j < |bs| ==> ValidSnapBlock(bs[j])
    ensures InSnapshot(Feed(s, SnapBlocksTokens(bs)), WithEdges(c, key, c.snapshots[key] + SnapEdges(bs)), key)
    decreases |bs|
  {
    if bs == [] {
      WithOwnEdges(c, key);
    } else {
      var own := OwnEdges(bs[0]);
      var more := c.snapshots[key] + own;
      FeedSnapBlock(s, c, key, bs[0]);
      FoldConcat(Consume, s, SnapBlockTokens(bs[0]), SnapBlocksTokens(bs[1..]));
      FeedSnapBlocks(Feed(s, SnapBlockTokens(bs[0])), WithEdges(c, key, more), key, bs[1..]);
      Assoc(c.snapshots[key], own, SnapEdges(bs[1..]));
      WithEdgesTwice(c, key, more, more + SnapEdges(bs[1..]));
    }
  }

  lemma FeedSnapshot(s: State, c: Contents, e: Snapshot)
    requires At(s, c, "snapshots") && ValidSnapshot(e)
    ensures At(Feed(s, [Entry(2, e.key.text, None)] + SnapBlocksTokens(e.blocks)),
               WithEdges(c, e.key.text, SnapEdges(e.blocks)), "snapshots")
  {
    var key := e.key.text;
    var s1 := Consume(s, Entry(2, key, None));
    FoldCons(Consume, s, Entry(2, key, None), SnapBlocksTokens(e.blocks));
    assert InSnapshot(s1, WithEdges(c, key, []), key);
    FeedSnapBlocks(s1, WithEdges(c, key, []), key, e.blocks);
    assert [] + SnapEdges(e.blocks) == SnapEdges(e.blocks);
    WithEdgesTwice(c, key, [], SnapEdges(e.blocks));
  }

  lemma {:induction false} FeedSnapshots(s: State, c: Contents, es: seq<Snapshot>)
    requires At(s, c, "snapshots") && forall j :: 0 <= j < |es| ==> ValidSnapshot(es[j])
    ensures At(Feed(s, SnapshotsTokens(es)), c.(snapshots := SnapshotTable(c.snapshots, es)), "snapshots")
    decreases |es|
  {
    if es != [] {
      var e, rest := es[0], es[1..];
      var lines := [Entry(2, e.key.text, None)] + SnapBlocksTokens(e.blocks);
      FeedSnapshot(s, c, e);
      FoldConcat(Consume, s, lines, SnapshotsTokens(rest));
      FeedSnapshots(Feed(s, lines), WithEdges(c, e.key.text, SnapEdges(e.blocks)), rest);
    }
  }

  // ----- Whole documents -----

  ghost predicate Holds(s: State, c: Contents) {
    At(s, c, s.section)
  }

  lemma FeedSection(s: State, c: Contents, x: Section)
    requires Holds(s, c) && ValidSection(x)
    ensures Holds(Feed(s, SectionTokens(x)), AddSection(c, x))
  {
    match x
    case VersionLine(v) => FoldOne(Consume, s, Entry(0, "lockfileVersion", Some(v.text)));
    case ImportersSection(es) =>
      FoldCons(Consume, s, Entry(0, "importers", None), ImportersTokens(es));
      FeedImporters(Consume(s, Entry(0, "importers", None)), c, es);
    case SnapshotsSection(es) =>
      FoldCons(Consume, s, Entry(0, "snapshots", None), SnapshotsTokens(es));
      FeedSnapshots(Consume(s, Entry(0, "snapshots", None)), c, es);
    case SkippedSection(header, nested) =>
      FoldCons(Consume, s, Lex(header), LexAll(nested));
      SkipNested(Consume(s, Lex(header)), nested, [0]);
  }

  lemma {:induction false} FeedDocument(s: State, c: Contents, doc: seq<Section>)
    requires Holds(s, c) && ValidDocument(doc)
    ensures Holds(Feed(s, Tokens(doc)), Meaning(c, doc))
    decreases |doc|
  {
    if doc != [] {
      FeedSection(s, c, doc[0]);
      FoldConcat(Consume, s, SectionTokens(doc[0]), Tokens(doc[1..]));
      FeedDocument(Feed(s, SectionTokens(doc[0])), AddSection(c, doc[0]), doc[1..]);
    }
  }

  /** The lines that are neither blank nor comments. */
  function WithoutNoise(lines: seq<string>): seq<string> {
    if lines == [] then []
    else (if Lex(lines[0]).Noise? then [] else [lines[0]]) + WithoutNoise(lines[1..])
  }

  lemma {:induction false} NoiseStep(lines: seq<string>)
    requires lines != []
    ensures var rest := WithoutNoise(lines[1..]);
      if Lex(lines[0]).Noise? then LexAll(WithoutNoise(lines)) == LexAll(rest)
      else LexAll(WithoutNoise(lines)) == [Lex(lines[0])] + LexAll(rest)
  {
    var rest := WithoutNoise(lines[1..]);
    if Lex(lines[0]).Noise? {
      assert WithoutNoise(lines) == rest;
    } else {
      MapCons(Lex, lines[0], rest);
    }
  }

  lemma {:induction false} NoiseIsIgnored(s: State, lines: seq<string>)
    ensures Feed(s, LexAll(lines)) == Feed(s, LexAll(WithoutNoise(lines)))
    decreases |lines|
  {
    if lines != [] {
      var first, rest := Lex(lines[0]), lines[1..];
      FoldCons(Consume, s, first, LexAll(rest));
      NoiseIsIgnored(Consume(s, first), rest);
      NoiseStep(lines);
      if !first.Noise? {
        FoldCons(Consume, s, first, LexAll(WithoutNoise(rest)));
      }
    }
  }

  const NOTHING := Contents(None, map[], map[])

  /** Lock file round trip: whatever blank lines and comments are spread over the rendered
      lines of a document, the reader returns exactly the tables the document holds. */
  lemma RoundTrip(doc: seq<Section>, lines: seq<string>)
    requires ValidDocument(doc) && WithoutNoise(lines) == WithoutNoise(Render(doc))
    ensures
      var c := Meaning(NOTHING, doc);
      Outcome(Feed(START, LexAll(lines))) == Tables(c.version, c.importers, c.snapshots)
  {
    NoiseIsIgnored(START, lines);
    NoiseIsIgnored(START, Render(doc));
    LexDocument(doc);
    FeedDocument(START, NOTHING, doc);
  }
}
