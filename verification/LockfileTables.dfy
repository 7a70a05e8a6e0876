/**
 Documents and tables: under distinct keys the tables hold exactly the document's entries, and
 every pair of tables whose keys can be written at all is what some document reads back as.
 */
module LockfileTables {
  import opened Text
  import opened Folds
  import opened Lockfile
  import opened LockfileRoundTrip
  import opened LockfileDocuments
  import opened LockfileReading

  // ----- Tables filled from lists of pairs -----

  function Build<V>(table: map<string, V>, ps: seq<(string, V)>): map<string, V>
    decreases |ps|
  {
    if ps == [] then table else Build(table[ps[0].0 := ps[0].1], ps[1..])
  }

  predicate DistinctKeys<V>(ps: seq<(string, V)>) {
    forall i, j :: 0 <= i < j < |ps| ==> ps[i].0 != ps[j].0
  }

  ghost predicate IsKey<V>(ps: seq<(string, V)>, k: string) {
    exists i :: 0 <= i < |ps| && ps[i].0 == k
  }

  lemma {:induction false} BuildConcat<V>(table: map<string, V>, a: seq<(string, V)>, b: seq<(string, V)>)
    ensures Build(table, a + b) == Build(Build(table, a), b)
    decreases |a|
  {
    if a == [] {
      assert a + b == b;
    } else {
      BuildConcat(table[a[0].0 := a[0].1], a[1..], b);
      assert (a + b)[1..] == a[1..] + b;
    }
  }

  /** Under distinct keys the table holds exactly the pairs, and what it held under other keys. */
  lemma {:induction false} BuildIs<V>(table: map<string, V>, ps: seq<(string, V)>, k: string, v: V)
    requires DistinctKeys(ps)
    ensures (k in Build(table, ps) && Build(table, ps)[k] == v) <==>
      (k, v) in ps || (!IsKey(ps, k) && k in table && table[k] == v)
    decreases |ps|
  {
    if ps != [] {
      var rest := ps[1..];
      assert ps == [ps[0]] + rest;
      assert forall i :: 0 <= i < |rest| ==> rest[i] == ps[i + 1];
      BuildIs(table[ps[0].0 := ps[0].1], rest, k, v);
      if IsKey(rest, k) {
        var i :| 0 <= i < |rest| && rest[i].0 == k;
        assert ps[i + 1].0 == k;
      }
      if (k, v) in rest {
        var i :| 0 <= i < |rest| && rest[i] == (k, v);
        assert ps[i + 1].0 == k;
      }
    }
  }

  /** Every table is filled from some list of its own pairs. */
  lemma {:induction false} SomePairs<V>(m: map<string, V>) returns (ps: seq<(string, V)>)
    ensures Build(map[], ps) == m && forall i :: 0 <= i < |ps| ==> ps[i].0 in m && m[ps[i].0] == ps[i].1
    decreases |m|
  {
    if m == map[] {
      ps := [];
    } else {
      var k :| k in m;
      var less := map x | x in m && x != k :: m[x];
      assert m.Keys == less.Keys + {k};
      var qs := SomePairs(less);
      ps := qs + [(k, m[k])];
      BuildConcat(map[], qs, [(k, m[k])]);
      assert [(k, m[k])][1..] == [];
      assert less[k := m[k]] == m;
    }
  }

  // ----- The document's own pairs -----

  function DepPair(d: Dep): (string, Option<string>) {
    (d.name.text, TextOf(d.version))
  }

  function ImporterPair(e: Importer): (string, Kinds) {
    (e.name.text, BlockTable(EmptyKinds(), e.blocks))
  }

  function SnapshotPair(e: Snapshot): (string, Edges) {
    (e.key.text, SnapEdges(e.blocks))
  }

  lemma {:induction false} DepTableIsBuild(table: Versions, ds: seq<Dep>)
    ensures DepTable(table, ds) == Build(table, MapAll(DepPair, ds))
    decreases |ds|
  {
    if ds != [] {
      DepTableIsBuild(table[ds[0].name.text := TextOf(ds[0].version)], ds[1..]);
      assert MapAll(DepPair, ds)[1..] == MapAll(DepPair, ds[1..]);
    }
  }

  lemma {:induction false} ImporterTableIsBuild(table: map<string, Kinds>, es: seq<Importer>)
    ensures ImporterTable(table, es) == Build(table, MapAll(ImporterPair, es))
    decreases |es|
  {
    if es != [] {
      ImporterTableIsBuild(table[es[0].name.text := BlockTable(EmptyKinds(), es[0].blocks)], es[1..]);
      assert MapAll(ImporterPair, es)[1..] == MapAll(ImporterPair, es[1..]);
    }
  }

  lemma {:induction false} SnapshotTableIsBuild(table: map<string, Edges>, es: seq<Snapshot>)
    ensures SnapshotTable(table, es) == Build(table, MapAll(SnapshotPair, es))
    decreases |es|
  {
    if es != [] {
      SnapshotTableIsBuild(table[es[0].key.text := SnapEdges(es[0].blocks)], es[1..]);
      assert MapAll(SnapshotPair, es)[1..] == MapAll(SnapshotPair, es[1..]);
    }
  }

  /** All importers of a document, over all its sections; likewise all snapshots. */
  function ImportersOf(doc: seq<Section>): seq<Importer> {
    if doc == [] then [] else (if doc[0].ImportersSection? then doc[0].importers else []) + ImportersOf(doc[1..])
  }

  function SnapshotsOf(doc: seq<Section>): seq<Snapshot> {
    if doc == [] then [] else (if doc[0].SnapshotsSection? then doc[0].snapshots else []) + SnapshotsOf(doc[1..])
  }

  lemma {:induction false} MeaningIsBuild(c: Contents, doc: seq<Section>)
    ensures Meaning(c, doc).importers == Build(c.importers, MapAll(ImporterPair, ImportersOf(doc)))
    ensures Meaning(c, doc).snapshots == Build(c.snapshots, MapAll(SnapshotPair, SnapshotsOf(doc)))
    decreases |doc|
  {
    if doc != [] {
      var x, rest := doc[0], doc[1..];
      var next := AddSection(c, x);
      MeaningIsBuild(next, rest);
      if x.ImportersSection? {
        ImporterTableIsBuild(c.importers, x.importers);
        MapConcat(ImporterPair, x.importers, ImportersOf(rest));
        BuildConcat(c.importers, MapAll(ImporterPair, x.importers), MapAll(ImporterPair, ImportersOf(rest)));
        assert [] + SnapshotsOf(rest) == SnapshotsOf(rest);
      } else if x.SnapshotsSection? {
        SnapshotTableIsBuild(c.snapshots, x.snapshots);
        MapConcat(SnapshotPair, x.snapshots, SnapshotsOf(rest));
        BuildConcat(c.snapshots, MapAll(SnapshotPair, x.snapshots), MapAll(SnapshotPair, SnapshotsOf(rest)));
        assert [] + ImportersOf(rest) == ImportersOf(rest);
      } else {
        assert [] + ImportersOf(rest) == ImportersOf(rest);
        assert [] + SnapshotsOf(rest) == SnapshotsOf(rest);
      }
    }
  }

  /** No importer and no snapshot twice. */
  ghost predicate DistinctDocument(doc: seq<Section>) {
    DistinctKeys(MapAll(ImporterPair, ImportersOf(doc))) && DistinctKeys(MapAll(SnapshotPair, SnapshotsOf(doc)))
  }

  /** With distinct keys the document's tables hold exactly its importers and its snapshots. */
  lemma TablesHoldTheEntries(doc: seq<Section>, i: string, kinds: Kinds, key: string, edges: Edges)
    requires DistinctDocument(doc)
    ensures var c := Meaning(NOTHING, doc);
      && ((i in c.importers && c.importers[i] == kinds) <==> (i, kinds) in MapAll(ImporterPair, ImportersOf(doc)))
      && ((key in c.snapshots && c.snapshots[key] == edges) <==> (key, edges) in MapAll(SnapshotPair, SnapshotsOf(doc)))
  {
    MeaningIsBuild(NOTHING, doc);
    BuildIs(map[], MapAll(ImporterPair, ImportersOf(doc)), i, kinds);
    BuildIs(map[], MapAll(SnapshotPair, SnapshotsOf(doc)), key, edges);
  }

  /** The dependencies of one kind, when its names are distinct. */
  lemma DepTableHoldsTheEntries(ds: seq<Dep>, name: string, v: Option<string>)
    requires DistinctKeys(MapAll(DepPair, ds))
    ensures (name in DepTable(map[], ds) && DepTable(map[], ds)[name] == v) <==> (name, v) in MapAll(DepPair, ds)
  {
    DepTableIsBuild(map[], ds);
    BuildIs(map[], MapAll(DepPair, ds), name, v);
  }

  ghost predicate DistinctKinds(bs: seq<Block>) {
    forall i, j :: 0 <= i < j < |bs| && bs[i].KindBlock? && bs[j].KindBlock? ==> bs[i].kind != bs[j].kind
  }

  ghost predicate HasKind(bs: seq<Block>, k: string) {
    exists i :: 0 <= i < |bs| && bs[i].KindBlock? && bs[i].kind == k
  }

  /** Each kind of an importer holds the dependencies of its one block, and none without a block. */
  lemma {:induction false} KindsHoldTheBlocks(kinds: Kinds, bs: seq<Block>, k: string)
    requires DistinctKinds(bs) && k in kinds
    ensures BlockTable(kinds, bs).Keys == kinds.Keys
    ensures forall i :: 0 <= i < |bs| && bs[i].KindBlock? && bs[i].kind == k ==>
      BlockTable(kinds, bs)[k] == DepTable(kinds[k], bs[i].deps)
    ensures !HasKind(bs, k) ==> BlockTable(kinds, bs)[k] == kinds[k]
    decreases |bs|
  {
    if bs != [] {
      var b, rest := bs[0], bs[1..];
      assert forall i :: 0 <= i < |rest| ==> rest[i] == bs[i + 1];
      KindsHoldTheBlocks(AddBlock(kinds, b), rest, k);
      if HasKind(rest, k) {
        var i :| 0 <= i < |rest| && rest[i].KindBlock? && rest[i].kind == k;
        assert bs[i + 1].kind == k;
      }
      assert !HasKind(bs, k) ==> !(b.KindBlock? && b.kind == k);
    }
  }

  // ----- A document for given tables -----

  /** The text written as a key in the first style that can hold it. */
  function KeyWord(text: string): Word {
    if ValidKey(Word(text, Plain)) then Word(text, Plain)
    else if '\'' !in text then Word(text, Single)
    else Word(text, Double)
  }

  /** Some style can hold the text as a key. */
  predicate Writable(text: string) {
    exists quote :: ValidKey(Word(text, quote))
  }

  lemma WritableKey(text: string)
    requires Writable(text)
    ensures ValidKey(KeyWord(text)) && KeyWord(text).text == text
  {
    var quote :| ValidKey(Word(text, quote));
    match quote
    case Plain =>
    case Single =>
    case Double =>
  }

  /** Any text can be a value, in quotes. */
  function ValueWord(v: Option<string>): (w: Option<Word>)
    ensures TextOf(w) == v && (w.Some? ==> ValidValue(w.value))
  {
    match v
    case None => None
    case Some(text) => Some(Word(text, Single))
  }

  function DepFor(p: (string, Option<string>)): Dep {
    Dep(KeyWord(p.0), None, ValueWord(p.1))
  }

  function EdgeFor(p: (string, Option<string>)): Edge {
    Edge(KeyWord(p.0), ValueWord(p.1))
  }

  lemma {:induction false} DepsFor(ps: seq<(string, Option<string>)>)
    requires forall i :: 0 <= i < |ps| ==> Writable(ps[i].0)
    ensures MapAll(DepPair, MapAll(DepFor, ps)) == ps
    ensures forall i :: 0 <= i < |MapAll(DepFor, ps)| ==> ValidDep(MapAll(DepFor, ps)[i])
    decreases |ps|
  {
    if ps != [] {
      var rest := MapAll(DepFor, ps[1..]);
      DepsFor(ps[1..]);
      WritableKey(ps[0].0);
      assert MapAll(DepFor, ps) == [DepFor(ps[0])] + rest;
      MapCons(DepPair, DepFor(ps[0]), rest);
    }
  }

  lemma {:induction false} EdgesFor(ps: Edges)
    requires forall i :: 0 <= i < |ps| ==> Writable(ps[i].0)
    ensures EdgeList(MapAll(EdgeFor, ps)) == ps
    ensures forall i :: 0 <= i < |MapAll(EdgeFor, ps)| ==> ValidEdge(MapAll(EdgeFor, ps)[i])
    decreases |ps|
  {
    if ps != [] {
      var rest := MapAll(EdgeFor, ps[1..]);
      EdgesFor(ps[1..]);
      WritableKey(ps[0].0);
      assert MapAll(EdgeFor, ps) == [EdgeFor(ps[0])] + rest;
      assert ([EdgeFor(ps[0])] + rest)[1..] == rest;
    }
  }

  predicate WritableVersions(table: Versions) {
    forall name :: name in table ==> Writable(name)
  }

  lemma KindBlockFor(k: string, table: Versions) returns (b: Block)
    requires WritableVersions(table) && k in IMPORTER_KINDS
    ensures ValidBlock(b) && b.KindBlock? && b.kind == k && DepTable(map[], b.deps) == table
  {
    var ps := SomePairs(table);
    DepsFor(ps);
    b := KindBlock(k, MapAll(DepFor, ps));
    DepTableIsBuild(map[], b.deps);
  }

  ghost predicate WritableKinds(kinds: Kinds) {
    kinds.Keys == EmptyKinds().Keys && forall k :: k in kinds ==> WritableVersions(kinds[k])
  }

  lemma KindNamesDiffer()
    ensures IMPORTER_KINDS[0] != IMPORTER_KINDS[1] && IMPORTER_KINDS[0] != IMPORTER_KINDS[2] && IMPORTER_KINDS[1] != IMPORTER_KINDS[2]
    ensures EmptyKinds().Keys == {IMPORTER_KINDS[0], IMPORTER_KINDS[1], IMPORTER_KINDS[2]}
    ensures forall k :: k in EmptyKinds() ==> EmptyKinds()[k] == map[]
  {
    assert |IMPORTER_KINDS[0]| == 12 && |IMPORTER_KINDS[1]| == 20 && |IMPORTER_KINDS[2]| == 15;
  }

  lemma ThreeBlocks(kinds: Kinds, a: Block, b: Block, c: Block)
    requires kinds.Keys == EmptyKinds().Keys && a.KindBlock? && b.KindBlock? && c.KindBlock?
    requires a.kind == IMPORTER_KINDS[0] && b.kind == IMPORTER_KINDS[1] && c.kind == IMPORTER_KINDS[2]
    requires DepTable(map[], a.deps) == kinds[a.kind] && DepTable(map[], b.deps) == kinds[b.kind] && DepTable(map[], c.deps) == kinds[c.kind]
    ensures BlockTable(EmptyKinds(), [a, b, c]) == kinds
  {
    KindNamesDiffer();
    var bs := [a, b, c];
    forall k | k in kinds ensures k in BlockTable(EmptyKinds(), bs) && BlockTable(EmptyKinds(), bs)[k] == kinds[k] {
      KindsHoldTheBlocks(EmptyKinds(), bs, k);
      if k == a.kind {
        assert bs[0].kind == k;
      } else if k == b.kind {
        assert bs[1].kind == k;
      } else {
        assert bs[2].kind == k;
      }
    }
    KindsHoldTheBlocks(EmptyKinds(), bs, a.kind);
  }

  lemma ImporterFor(i: string, kinds: Kinds) returns (e: Importer)
    requires Writable(i) && WritableKinds(kinds)
    ensures ValidImporter(e) && ImporterPair(e) == (i, kinds)
  {
    KindNamesDiffer();
    WritableKey(i);
    var a := KindBlockFor(IMPORTER_KINDS[0], kinds[IMPORTER_KINDS[0]]);
    var b := KindBlockFor(IMPORTER_KINDS[1], kinds[IMPORTER_KINDS[1]]);
    var c := KindBlockFor(IMPORTER_KINDS[2], kinds[IMPORTER_KINDS[2]]);
    e := Importer(KeyWord(i), [a, b, c]);
    ThreeBlocks(kinds, a, b, c);
  }

  lemma ImportersFor(ps: seq<(string, Kinds)>) returns (es: seq<Importer>)
    requires forall i :: 0 <= i < |ps| ==> Writable(ps[i].0) && WritableKinds(ps[i].1)
    ensures MapAll(ImporterPair, es) == ps && forall i :: 0 <= i < |es| ==> ValidImporter(es[i])
  {
    var valid: Importer -> bool, pair := ValidImporter, ImporterPair;
    forall i | 0 <= i < |ps| ensures HasPreimage(valid, pair, ps[i]) {
      var e := ImporterFor(ps[i].0, ps[i].1);
      assert valid(e) && pair(e) == ps[i];
    }
    es := Preimages(valid, pair, ps);
  }

  predicate WritableEdges(edges: Edges) {
    forall i :: 0 <= i < |edges| ==> Writable(edges[i].0)
  }

  lemma SnapshotFor(key: string, edges: Edges) returns (e: Snapshot)
    requires Writable(key) && WritableEdges(edges)
    ensures ValidSnapshot(e) && SnapshotPair(e) == (key, edges)
  {
    EdgesFor(edges);
    WritableKey(key);
    var b := EdgeBlock(SNAPSHOT_EDGE_KINDS[0], MapAll(EdgeFor, edges));
    e := Snapshot(KeyWord(key), [b]);
    assert [b][1..] == [] && SnapEdges([]) == [];
    assert SnapEdges([b]) == edges + [];
    assert edges + [] == edges;
    assert SNAPSHOT_EDGE_KINDS[0] in SNAPSHOT_EDGE_KINDS;
    assert ValidSnapBlock(b);
  }

  lemma SnapshotsFor(ps: seq<(string, Edges)>) returns (es: seq<Snapshot>)
    requires forall i :: 0 <= i < |ps| ==> Writable(ps[i].0) && WritableEdges(ps[i].1)
    ensures MapAll(SnapshotPair, es) == ps && forall i :: 0 <= i < |es| ==> ValidSnapshot(es[i])
  {
    var valid: Snapshot -> bool, pair := ValidSnapshot, SnapshotPair;
    forall i | 0 <= i < |ps| ensures HasPreimage(valid, pair, ps[i]) {
      var e := SnapshotFor(ps[i].0, ps[i].1);
      assert valid(e) && pair(e) == ps[i];
    }
    es := Preimages(valid, pair, ps);
  }

  /** Tables as the reader makes them, with every key writable in some style. */
  ghost predicate WritableTables(c: Contents) {
    && (forall i :: i in c.importers ==> Writable(i) && WritableKinds(c.importers[i]))
    && (forall key :: key in c.snapshots ==> Writable(key) && WritableEdges(c.snapshots[key]))
  }

  /** Round trip from the tables: they have a document, and its rendered lines, with any blank lines
      and comments spread over them, read back as exactly these tables. */
  lemma TablesReadBack(c: Contents) returns (doc: seq<Section>)
    requires WritableTables(c)
    ensures ValidDocument(doc) && Meaning(NOTHING, doc) == c
    ensures forall lines :: WithoutNoise(lines) == WithoutNoise(Render(doc)) ==>
      Outcome(Feed(START, LexAll(lines))) == Tables(c.version, c.importers, c.snapshots)
  {
    var importers := SomePairs(c.importers);
    var snapshots := SomePairs(c.snapshots);
    var es := ImportersFor(importers);
    var ss := SnapshotsFor(snapshots);
    doc := SectionsFor(c, es, ss);
    forall lines | WithoutNoise(lines) == WithoutNoise(Render(doc))
      ensures Outcome(Feed(START, LexAll(lines))) == Tables(c.version, c.importers, c.snapshots)
    {
      RoundTrip(doc, lines);
    }
  }

  lemma SectionsFor(c: Contents, es: seq<Importer>, ss: seq<Snapshot>) returns (doc: seq<Section>)
    requires Build(map[], MapAll(ImporterPair, es)) == c.importers && Build(map[], MapAll(SnapshotPair, ss)) == c.snapshots
    requires forall i :: 0 <= i < |es| ==> ValidImporter(es[i])
    requires forall i :: 0 <= i < |ss| ==> ValidSnapshot(ss[i])
    ensures ValidDocument(doc) && Meaning(NOTHING, doc) == c
  {
    var a, b := ImportersSection(es), SnapshotsSection(ss);
    assert ValidSection(a) && ValidSection(b);
    if c.version.None? {
      doc := [a, b];
      TwoSections(NOTHING, es, ss, c);
    } else {
      var v := VersionLine(Word(c.version.value, Single));
      doc := [v, a, b];
      assert ValidSection(v) && doc[1..] == [a, b];
      TwoSections(AddSection(NOTHING, v), es, ss, c);
    }
  }

  lemma TwoSections(start: Contents, es: seq<Importer>, ss: seq<Snapshot>, c: Contents)
    requires start == Contents(c.version, map[], map[])
    requires Build(map[], MapAll(ImporterPair, es)) == c.importers && Build(map[], MapAll(SnapshotPair, ss)) == c.snapshots
    ensures Meaning(start, [ImportersSection(es), SnapshotsSection(ss)]) == c
  {
    var a, b := ImportersSection(es), SnapshotsSection(ss);
    ImporterTableIsBuild(map[], es);
    SnapshotTableIsBuild(map[], ss);
    var next := AddSection(start, a);
    assert [a, b][1..] == [b] && [b][1..] == [];
    assert Meaning(next, [b]) == AddSection(next, b);
  }
}
