/**
 The reachability guard of ci/osv/shipped_reachability.py: the graph of importers and
 snapshots that a lock file defines, and the verdict on which shipped importer reaches a
 waived package.
 */
module ShippedReachability {
  import opened Text
  import opened Lockfile
  import opened Paths

  datatype Node = ImporterNode(path: string) | SnapshotNode(key: string)

  // ----- Nodes and names -----

  /** `s.split(c, 1)[0]`: the text before the first `c`. */
  function Before(s: string, c: char): (r: string)
    ensures c !in r && |r| <= |s| && r == s[..|r|]
    ensures |r| == |s| || s[|r|] == c
  {
    var at := Find(s, c, 0);
    if at < 0 then s else s[..at]
  }

  function BeforeScheme(s: string): (r: string)
    ensures |r| <= |s| && r == s[..|r|]
  {
    if |s| < 3 then s
    else if s[..3] == "://" then ""
    else [s[0]] + BeforeScheme(s[1..])
  }

  /** `name: realname@version`: an `@` after the first character, before any URL scheme mark. */
  predicate IsAlias(value: string) {
    Find(BeforeScheme(Before(value, '(')), '@', 1) >= 0
  }

  function NodeFor(importer: string, name: string, value: Option<string>): Node {
    match value
    case None => SnapshotNode(name + "@<no version>")
    case Some(v) =>
      if StartsWith(v, "link:") then ImporterNode(NormPath(JoinPath(importer, v[5..])))
      else if StartsWith(v, "file:") then SnapshotNode(name + "@" + v)
      else if IsAlias(v) then SnapshotNode(v)
      else SnapshotNode(name + "@" + v)
  }

  /** The name in a key: the text up to the first parenthesis or the first `@` behind the first
      character. */
  ghost predicate IsNamed(key: string, n: int) {
    && 0 <= n <= |key| && (forall i :: 0 <= i < n ==> key[i] != '(' && (key[i] == '@' ==> i == 0))
    && (n < |key| ==> key[n] == '(' || (n > 0 && key[n] == '@'))
  }

  lemma NameIsExact(key: string, n: int)
    requires IsNamed(key, n)
    ensures PackageName(key) == key[..n]
  {
    var head := Before(key, '(');
    assert forall i :: 0 <= i < |head| ==> head[i] == key[i];
    assert n <= |head|;
    assert n < |head| ==> key[n] == '@';
  }

  function PackageName(key: string): (name: string)
    ensures |name| <= |key| && name == key[..|name|] && IsNamed(key, |name|)
  {
    var head := Before(key, '(');
    var at := Find(head, '@', 1);
    if at > 0 then head[..at] else head
  }

  /** A package name: scoped or not, it has an `@` at its start at most and no parenthesis. */
  predicate ValidName(name: string) {
    name != "" && '(' !in name && forall i :: 1 <= i < |name| ==> name[i] != '@'
  }

  lemma NameOfVersioned(name: string, v: string)
    requires ValidName(name)
    ensures PackageName(name + "@" + v) == name
  {
    var key := name + "@" + v;
    var head := Before(key, '(');
    assert key[|name|] == '@';
    assert forall i :: 0 <= i < |name| ==> key[i] == name[i];
    assert |head| > |name|;
    assert head[|name|] == '@';
    assert Find(head, '@', 1) == |name|;
    assert head[..|name|] == name;
  }

  lemma {:induction false} FirstScheme(s: string)
    ensures |BeforeScheme(s)| < |s| ==> OccursAt(s, "://", |BeforeScheme(s)|)
    ensures forall k :: 0 <= k < |BeforeScheme(s)| ==> !OccursAt(s, "://", k)
  {
    if |s| >= 3 && s[..3] != "://" {
      var t := s[1..];
      FirstScheme(t);
      var n := |BeforeScheme(t)|;
      if n < |t| {
        assert s[n + 1..n + 4] == t[n..n + 3];
      }
      forall k | 0 <= k < n + 1 ensures !OccursAt(s, "://", k) {
        if k > 0 && k + 3 <= |s| {
          assert s[k..k + 3] == t[k - 1..k + 2];
          assert !OccursAt(t, "://", k - 1);
        }
      }
    }
  }

  /** An `@` behind the first character, with neither a parenthesis nor a whole `://` in front of it. */
  predicate AliasMark(v: string, i: int) {
    1 <= i < |v| && v[i] == '@' && '(' !in v[..i] && !Contains(v[..i], "://")
  }

  lemma OccursInPrefix(s: string, sub: string, n: nat, k: int)
    requires n <= |s| && 0 <= k && k + |sub| <= n
    ensures OccursAt(s[..n], sub, k) <==> OccursAt(s, sub, k)
  {
    assert s[..n][k..k + |sub|] == s[k..k + |sub|];
  }

  /** In front of an `@`, a scheme mark of the head is a whole one. */
  lemma SchemeBeforeAt(head: string, i: nat)
    requires i < |head| && head[i] == '@'
    ensures i < |BeforeScheme(head)| <==> !Contains(head[..i], "://")
  {
    var cut := |BeforeScheme(head)|;
    FirstScheme(head);
    if cut <= i {
      assert OccursAt(head, "://", cut);
      assert head[cut..cut + 3][0] == ':' && head[cut..cut + 3][1] == '/' && head[cut..cut + 3][2] == '/';
      assert cut + 3 <= i;
      OccursInPrefix(head, "://", i, cut);
    } else {
      forall k | 0 <= k <= i ensures !OccursAt(head[..i], "://", k) {
        if k + 3 <= i {
          OccursInPrefix(head, "://", i, k);
        }
      }
    }
  }

  lemma HeadBeforeAt(v: string, i: nat)
    requires i < |v| && v[i] == '@'
    ensures i < |Before(v, '(')| <==> '(' !in v[..i]
  {
    var n := |Before(v, '(')|;
    if n <= i {
      assert n < |v| && v[n] == '(' && n != i;
      assert v[..i][n] == '(';
    } else {
      assert forall k :: 0 <= k < i ==> v[..i][k] == Before(v, '(')[k];
    }
  }

  lemma AliasMarkInHead(v: string, i: nat)
    requires 1 <= i < |v| && v[i] == '@'
    ensures AliasMark(v, i) <==> i < |BeforeScheme(Before(v, '('))|
  {
    var head := Before(v, '(');
    HeadBeforeAt(v, i);
    if i < |head| {
      SchemeBeforeAt(head, i);
      assert head[..i] == v[..i];
    }
  }

  /** The code's test is exactly the presence of such an `@`. */
  lemma AliasesAreExact(v: string)
    ensures IsAlias(v) <==> exists i :: AliasMark(v, i)
  {
    var pre := BeforeScheme(Before(v, '('));
    if IsAlias(v) {
      var i := Find(pre, '@', 1);
      assert v[i] == '@';
      AliasMarkInHead(v, i);
    }
    if i :| AliasMark(v, i) {
      AliasMarkInHead(v, i);
      assert pre[i] == '@';
    }
  }

  /** A version, with or without peer suffixes, is not an alias. */
  lemma VersionsAreNoAliases(version: string, peers: string)
    requires '@' !in version && (peers == "" || peers[0] == '(')
    ensures !IsAlias(version + peers)
  {
    var v := version + peers;
    AliasesAreExact(v);
    forall i ensures !AliasMark(v, i) {
      if 1 <= i < |v| && v[i] == '@' {
        assert i > |version| && v[..i][|version|] == '(';
      }
    }
  }

  lemma SchemeInFront(scheme: string, rest: string, i: nat)
    requires '@' !in scheme && i < |scheme + "://" + rest| && (scheme + "://" + rest)[i] == '@'
    ensures Contains((scheme + "://" + rest)[..i], "://")
  {
    var head := scheme + "://";
    assert i >= |head| by {
      assert forall k :: 0 <= k < |head| ==> (head + rest)[k] == head[k] != '@';
    }
    OccursInPrefix(head + rest, "://", i, |scheme|);
    assert OccursAt((head + rest)[..i], "://", |scheme|);
  }

  /** Nor is a URL, whatever `@` it holds behind its scheme. */
  lemma UrlsAreNoAliases(scheme: string, rest: string)
    requires '@' !in scheme
    ensures !IsAlias(scheme + "://" + rest)
  {
    var v := scheme + "://" + rest;
    AliasesAreExact(v);
    forall i ensures !AliasMark(v, i) {
      if 1 <= i < |v| && v[i] == '@' {
        SchemeInFront(scheme, rest, i);
      }
    }
  }

  /** `realname@version` is an alias whatever follows the `@`: peer suffixes, URLs and further
      `@` signs included. */
  lemma AliasesAreRecognised(actual: string, rest: string)
    requires ValidName(actual) && !Contains(actual, "://")
    ensures IsAlias(actual + "@" + rest)
  {
    var v := actual + "@" + rest;
    assert v[..|actual|] == actual;
    assert AliasMark(v, |actual|);
    AliasesAreExact(v);
  }

  /** The real name an alias stands for: the text in front of its first mark. */
  predicate StandsFor(value: string, actual: string) {
    ValidName(actual) && AliasMark(value, |actual|) && value[..|actual|] == actual
  }

  lemma FirstMark(v: string, i: int) returns (j: int)
    requires AliasMark(v, i)
    ensures AliasMark(v, j) && StandsFor(v, v[..j])
    decreases i
  {
    if k :| 1 <= k < i && v[k] == '@' {
      AliasMarkInHead(v, i);
      AliasMarkInHead(v, k);
      j := FirstMark(v, k);
    } else {
      j := i;
      assert forall k :: 1 <= k < i ==> v[..i][k] == v[k];
    }
  }

  lemma NameOfAlias(v: string, actual: string)
    requires StandsFor(v, actual)
    ensures PackageName(v) == actual
  {
    var rest := v[|actual| + 1..];
    assert v == actual + "@" + rest;
    NameOfVersioned(actual, rest);
  }

  /** The node an entry leads to, said without the code's test: for `link:` the importer at the one
      normal path to where the link leads from this one; for `file:` and every value without an
      alias mark the snapshot of the declared name at the value as it stands, peer suffixes
      included; for an alias the snapshot the value itself names. */
  ghost predicate IsTarget(importer: string, name: string, value: Option<string>, node: Node) {
    match value
    case None => node == SnapshotNode(name + "@<no version>")
    case Some(v) =>
      if StartsWith(v, "link:") then node.ImporterNode? && LeadsTo(importer, v[5..], node.path)
      else if StartsWith(v, "file:") || forall i :: !AliasMark(v, i) then node == SnapshotNode(name + "@" + v)
      else node == SnapshotNode(v)
  }

  /** `node_for` gives that node and no other. */
  lemma NodeIsExact(importer: string, name: string, value: Option<string>, node: Node)
    ensures NodeFor(importer, name, value) == node <==> IsTarget(importer, name, value, node)
  {
    if value.Some? {
      var v := value.value;
      AliasesAreExact(v);
      if StartsWith(v, "link:") {
        var path := NormPath(JoinPath(importer, v[5..]));
        JoinedAndNormalised(importer, v[5..]);
        if node.ImporterNode? && LeadsTo(importer, v[5..], node.path) {
          OnePathLeadsThere(importer, v[5..], path, node.path);
        }
      }
    }
  }

  /** The package of that node: the real name for an alias, the declared name for every other
      entry that is no link. */
  lemma PackageOfNode(importer: string, name: string, value: Option<string>, node: Node)
    requires ValidName(name) && IsTarget(importer, name, value, node) && node.SnapshotNode?
    ensures
      if value.None? || StartsWith(value.value, "file:") || forall i :: !AliasMark(value.value, i) then
        PackageName(node.key) == name
      else
        && StandsFor(value.value, PackageName(node.key))
        && forall actual :: StandsFor(value.value, actual) ==> PackageName(node.key) == actual
  {
    match value
    case None =>
      NameOfVersioned(name, "<no version>");
      assert name + "@<no version>" == name + "@" + "<no version>";
    case Some(v) =>
      NameOfVersioned(name, v);
      forall actual | StandsFor(v, actual) ensures PackageName(v) == actual {
        NameOfAlias(v, actual);
      }
      if i :| AliasMark(v, i) {
        var j := FirstMark(v, i);
        NameOfAlias(v, v[..j]);
      }
  }

  // ----- The graph -----

  type Importers = map<string, Kinds>
  type Snapshots = map<string, Edges>

  /** Every importer lists all three kinds, as the reader creates them. */
  ghost predicate FullKinds(importers: Importers) {
    forall i, k :: i in importers && k in IMPORTER_KINDS ==> k in importers[i]
  }

  predicate Defined(importers: Importers, snapshots: Snapshots, n: Node) {
    match n
    case ImporterNode(i) => i in importers
    case SnapshotNode(k) => k in snapshots
  }

  /** The child that one entry of one dependency kind stands for. */
  ghost predicate IsKindChild(i: string, versions: Versions, child: Node) {
    exists name :: name in versions && IsTarget(i, name, versions[name], child)
  }

  ghost predicate IsEdgeChild(edges: Edges, child: Node) {
    exists e :: e in edges && IsTarget(".", e.0, e.1, child)
  }

  ghost predicate IsChild(importers: Importers, snapshots: Snapshots, n: Node, child: Node) {
    match n
    case ImporterNode(i) =>
      i in importers
      && exists k :: k in IMPORTER_KINDS && k in importers[i] && IsKindChild(i, importers[i][k], child)
    case SnapshotNode(key) => key in snapshots && IsEdgeChild(snapshots[key], child)
  }

  /** The children found so far: those of the names no longer in `todo`. */
  ghost predicate IsChildBeyond(i: string, versions: Versions, todo: set<string>, child: Node) {
    exists name :: name in versions && name !in todo && IsTarget(i, name, versions[name], child)
  }

  lemma OneNameLess(i: string, versions: Versions, todo: set<string>, name: string, child: Node)
    requires name in todo && name in versions
    ensures IsChildBeyond(i, versions, todo - {name}, child) <==>
      IsChildBeyond(i, versions, todo, child) || child == NodeFor(i, name, versions[name])
  {
    NodeIsExact(i, name, versions[name], child);
    if m :| m in versions && m !in todo && IsTarget(i, m, versions[m], child) {
      assert m !in todo - {name};
    }
    if child == NodeFor(i, name, versions[name]) {
      assert name !in todo - {name};
    }
  }

  method KindChildren(i: string, versions: Versions) returns (out: seq<Node>)
    ensures forall c :: c in out <==> IsKindChild(i, versions, c)
  {
    out := [];
    var todo := versions.Keys;
    while todo != {}
      invariant todo <= versions.Keys
      invariant forall c :: c in out <==> IsChildBeyond(i, versions, todo, c)
      decreases todo
    {
      var name :| name in todo;
      forall c ensures IsChildBeyond(i, versions, todo - {name}, c) <==> c in out || c == NodeFor(i, name, versions[name]) {
        OneNameLess(i, versions, todo, name, c);
      }
      out := out + [NodeFor(i, name, versions[name])];
      todo := todo - {name};
    }
  }

  method ImporterChildren(i: string, kinds: Kinds) returns (out: seq<Node>)
    requires forall k :: k in IMPORTER_KINDS ==> k in kinds
    ensures forall c :: c in out <==> exists k :: k in IMPORTER_KINDS && k in kinds && IsKindChild(i, kinds[k], c)
  {
    out := [];
    for j := 0 to |IMPORTER_KINDS|
      invariant forall c :: c in out <==> exists m :: 0 <= m < j && IsKindChild(i, kinds[IMPORTER_KINDS[m]], c)
    {
      var more := KindChildren(i, kinds[IMPORTER_KINDS[j]]);
      out := out + more;
    }
  }

  lemma OneEdgeMore(edges: Edges, k: nat, child: Node)
    requires k < |edges|
    ensures IsEdgeChild(edges[..k + 1], child) <==>
      IsEdgeChild(edges[..k], child) || child == NodeFor(".", edges[k].0, edges[k].1)
  {
    var e := edges[k];
    assert edges[..k + 1] == edges[..k] + [e];
    NodeIsExact(".", e.0, e.1, child);
    if f :| f in edges[..k] && IsTarget(".", f.0, f.1, child) {
      assert f in edges[..k + 1];
    }
    assert e in edges[..k + 1];
  }

  method EdgeChildren(edges: Edges) returns (out: seq<Node>)
    ensures forall c :: c in out <==> IsEdgeChild(edges, c)
  {
    out := [];
    for k := 0 to |edges|
      invariant forall c :: c in out <==> IsEdgeChild(edges[..k], c)
    {
      var node := NodeFor(".", edges[k].0, edges[k].1);
      forall c ensures IsEdgeChild(edges[..k + 1], c) <==> c in out || c == node {
        OneEdgeMore(edges, k, c);
      }
      out := out + [node];
    }
    assert edges[..|edges|] == edges;
  }
}
