/**
 The verdict of the reachability guard: once the lock file can be trusted, a finding
 exactly when a shipped importer reaches a waived package, and a pass only with proof that
 the walk follows snapshot edges to that package.
 */
module ShippedVerdict {
  import opened Text
  import opened Graphs
  import opened BreadthFirst
  import opened Lockfile
  import opened ShippedReachability

  /** The graph holds exactly the defined nodes, each with exactly its entries' nodes. */
  ghost predicate GraphOf(importers: Importers, snapshots: Snapshots, g: Graph<Node>) {
    && (forall n :: n in g <==> Defined(importers, snapshots, n))
    && (forall n, c :: n in g ==> (c in g[n] <==> IsChild(importers, snapshots, n, c)))
  }

  ghost predicate NoDangling(g: Graph<Node>) {
    forall n, c :: n in g && c in g[n] ==> c in g
  }

  method AddImporters(importers: Importers) returns (g: Graph<Node>)
    requires FullKinds(importers)
    ensures forall n :: n in g <==> n.ImporterNode? && n.path in importers
    ensures forall n, c :: n in g ==> (c in g[n] <==> IsChild(importers, map[], n, c))
  {
    g := map[];
    var todo := importers.Keys;
    while todo != {}
      invariant todo <= importers.Keys
      invariant forall n :: n in g <==> n.ImporterNode? && n.path in importers && n.path !in todo
      invariant forall n, c :: n in g ==> (c in g[n] <==> IsChild(importers, map[], n, c))
      decreases todo
    {
      var i :| i in todo;
      var children := ImporterChildren(i, importers[i]);
      g := g[ImporterNode(i) := children];
      todo := todo - {i};
    }
  }

  /** `build_graph`: the graph, or `None` for an edge to a node the lock file does not define. */
  method BuildGraph(importers: Importers, snapshots: Snapshots) returns (r: Option<Graph<Node>>)
    requires FullKinds(importers)
    ensures r.Some? ==> GraphOf(importers, snapshots, r.value) && NoDangling(r.value)
    ensures r.None? ==> exists n, c :: IsChild(importers, snapshots, n, c) && !Defined(importers, snapshots, c)
  {
    var g := AddImporters(importers);
    var todo := snapshots.Keys;
    while todo != {}
      invariant todo <= snapshots.Keys
      invariant forall n :: n in g <==>
                  (n.ImporterNode? && n.path in importers)
                  || (n.SnapshotNode? && n.key in snapshots && n.key !in todo)
      invariant forall n, c :: n in g ==> (c in g[n] <==> IsChild(importers, snapshots, n, c))
      decreases todo
    {
      var key :| key in todo;
      var children := EdgeChildren(snapshots[key]);
      g := g[SnapshotNode(key) := children];
      todo := todo - {key};
    }
    assert GraphOf(importers, snapshots, g);
    if n :| n in g && exists c :: c in g[n] && c !in g {
      ghost var c :| c in g[n] && c !in g;
      assert IsChild(importers, snapshots, n, c);
      return None;
    }
    return Some(g);
  }

  // ----- Walks that the tables themselves declare -----

  /** The two tables of a lock file. */
  datatype Lock = Lock(importers: Importers, snapshots: Snapshots)

  /** Each node of the list is an entry of the node before it. */
  ghost predicate Declares(lock: Lock, p: seq<Node>) {
    |p| > 0 && forall i, j :: 0 <= i && j == i + 1 && j < |p| ==> IsChild(lock.importers, lock.snapshots, p[i], p[j])
  }

  ghost predicate DeclaresFromTo(lock: Lock, a: Node, b: Node, p: seq<Node>) {
    Declares(lock, p) && p[0] == a && p[|p| - 1] == b
  }

  ghost predicate Leads(lock: Lock, a: Node, b: Node) {
    exists p :: DeclaresFromTo(lock, a, b, p)
  }

  ghost predicate IsGraph(lock: Lock, g: Graph<Node>) {
    GraphOf(lock.importers, lock.snapshots, g)
  }

  lemma GraphHasDeclaredEdges(lock: Lock, g: Graph<Node>, n: Node, c: Node)
    requires IsGraph(lock, g)
    ensures Edge(g, n, c) <==> IsChild(lock.importers, lock.snapshots, n, c)
  {
  }

  /** The walks of the graph are the walks the tables declare. */
  lemma GraphWalksAreDeclared(lock: Lock, g: Graph<Node>, p: seq<Node>)
    requires IsGraph(lock, g)
    ensures IsWalk(g, p) <==> Declares(lock, p)
  {
    forall i, j | 0 <= i && j == i + 1 && j < |p|
      ensures Edge(g, p[i], p[j]) <==> IsChild(lock.importers, lock.snapshots, p[i], p[j])
    {
      GraphHasDeclaredEdges(lock, g, p[i], p[j]);
    }
  }

  lemma GraphReachIsDeclared(lock: Lock, g: Graph<Node>, a: Node, b: Node)
    requires IsGraph(lock, g)
    ensures Reaches(g, a, b) <==> Leads(lock, a, b)
  {
    if Reaches(g, a, b) {
      var p :| WalkFromTo(g, a, b, p);
      GraphWalksAreDeclared(lock, g, p);
      assert DeclaresFromTo(lock, a, b, p);
    }
    if Leads(lock, a, b) {
      var p :| DeclaresFromTo(lock, a, b, p);
      GraphWalksAreDeclared(lock, g, p);
      assert WalkFromTo(g, a, b, p);
    }
  }

  // ----- Which packages are reached -----

  /** A shipped importer lies below `apps/`. */
  ghost predicate IsApp(path: string) {
    |path| >= 5 && path[..5] == "apps/"
  }

  /** The key of the snapshot starts with the name of the package, and the name ends there. */
  ghost predicate IsPackage(n: Node, package: string) {
    n.SnapshotNode? && |package| <= |n.key| && n.key[..|package|] == package && IsNamed(n.key, |package|)
  }

  predicate UnderApps(path: string)
    ensures UnderApps(path) <==> IsApp(path)
  {
    StartsWith(path, "apps/")
  }

  predicate IsSnapshotOf(package: string, n: Node)
    ensures IsSnapshotOf(package, n) <==> IsPackage(n, package)
  {
    NamesAgree(n, package);
    n.SnapshotNode? && PackageName(n.key) == package
  }

  lemma NamesAgree(n: Node, package: string)
    ensures IsPackage(n, package) <==> n.SnapshotNode? && PackageName(n.key) == package
  {
    if IsPackage(n, package) {
      NameIsExact(n.key, |package|);
    }
  }

  ghost predicate ReachesPackage(g: Graph<Node>, importer: string, package: string) {
    exists n :: IsPackage(n, package) && Reaches(g, ImporterNode(importer), n)
  }

  /** Some snapshot that an importer reaches has an edge to the package. */
  ghost predicate EdgeControl(g: Graph<Node>, importers: set<string>, package: string) {
    exists i: string, n: Node, c: Node :: i in importers && n.SnapshotNode? && Reaches(g, ImporterNode(i), n)
                      && Edge(g, n, c) && IsPackage(c, package)
  }

  ghost predicate AppReaches(g: Graph<Node>, importers: set<string>, package: string) {
    exists i :: i in importers && IsApp(i) && ReachesPackage(g, i, package)
  }

  datatype Waiver = Waiver(advisory: string, package: string)

  /** The checks that answer with an infrastructure failure, in the order in which they are made. */
  datatype Failure = LockfileVersion | EmptySection | NoShippedImporter | DanglingEdge | TableStale | EdgeControlLost

  datatype Verdict =
    | Pass
    | Infra(failure: Failure)
    | Shipped(package: string, paths: seq<seq<Node>>)
    | Crash  // the reader meets a line it cannot nest

  method ImporterNodes(names: set<string>) returns (out: seq<Node>)
    ensures forall n :: n in out <==> n.ImporterNode? && n.path in names
  {
    out := [];
    var todo := names;
    while todo != {}
      invariant todo <= names
      invariant forall n :: n in out <==> n.ImporterNode? && n.path in names && n.path !in todo
      decreases todo
    {
      var i :| i in todo;
      out := out + [ImporterNode(i)];
      todo := todo - {i};
    }
  }

  /** The `via` list of one waiver is not empty. */
  method HasEdgeControl(g: Graph<Node>, importers: set<string>, control: map<Node, Option<Node>>, package: string)
      returns (found: bool)
    requires forall n :: n in control <==> exists i :: i in importers && Reaches(g, ImporterNode(i), n)
    ensures found <==> EdgeControl(g, importers, package)
  {
    found := exists n :: n in control && n.SnapshotNode? && exists c :: c in Children(g, n) && IsSnapshotOf(package, c);
    if found {
      ghost var n :| n in control && n.SnapshotNode? && exists c :: c in Children(g, n) && IsSnapshotOf(package, c);
      ghost var c :| c in Children(g, n) && IsSnapshotOf(package, c);
      ghost var i :| i in importers && Reaches(g, ImporterNode(i), n);
      assert Edge(g, n, c);
    }
    if EdgeControl(g, importers, package) {
      ghost var i: string, n: Node, c: Node :| i in importers && n.SnapshotNode? && Reaches(g, ImporterNode(i), n)
                           && Edge(g, n, c) && IsPackage(c, package);
      assert c in Children(g, n) && IsSnapshotOf(package, c);
      assert n in control;
    }
  }

  /** The path of every hit: a shortest walk from a shipped importer to the package. */
  method HitPaths(g: Graph<Node>, apps: seq<Node>, shipped: map<Node, Option<Node>>, ghost depth: map<Node, nat>, package: string)
      returns (paths: seq<seq<Node>>)
    requires Walked(g, apps, shipped, depth)
    requires forall n :: n in apps ==> n.ImporterNode? && IsApp(n.path)
    ensures forall n :: n in shipped && IsPackage(n, package) ==> EndsSome(paths, n)
    ensures forall p :: p in paths ==> IsHitPath(g, apps, package, p)
  {
    paths := [];
    var hits := set n | n in shipped && IsSnapshotOf(package, n);
    ghost var all := hits;
    while hits != {}
      invariant hits <= all
      invariant forall p :: p in paths ==> IsHitPath(g, apps, package, p)
      invariant forall n :: n in all && n !in hits ==> EndsSome(paths, n)
      decreases hits
    {
      var hit :| hit in hits;
      var p := PathTo(g, apps, shipped, depth, hit);
      paths := OneMorePath(paths, p);
      assert EndsAt(p, hit);
      hits := hits - {hit};
    }
  }

  predicate EndsAt(p: seq<Node>, n: Node) {
    p != [] && p[|p| - 1] == n
  }

  ghost predicate EndsSome(paths: seq<seq<Node>>, n: Node) {
    exists p :: p in paths && EndsAt(p, n)
  }

  function OneMorePath(paths: seq<seq<Node>>, p: seq<Node>): (r: seq<seq<Node>>)
    ensures forall q :: q in r <==> q in paths || q == p
  {
    paths + [p]
  }

  /** A walk from a start to the package, and no walk from any start to its end is shorter. */
  ghost predicate IsHitPath(g: Graph<Node>, apps: seq<Node>, package: string, p: seq<Node>) {
    && IsWalk(g, p) && p[0] in apps && IsPackage(p[|p| - 1], package)
    && forall a, q :: a in apps && WalkFromTo(g, a, p[|p| - 1], q) ==> |p| <= |q|
  }

  // ----- The verdict -----

  method FirstStale(configured: set<string>, waivers: seq<Waiver>) returns (stale: bool)
    ensures stale <==> exists w :: w in waivers && w.advisory !in configured
  {
    stale := false;
    for j := 0 to |waivers|
      invariant forall m :: 0 <= m < j ==> waivers[m].advisory in configured
    {
      if waivers[j].advisory !in configured {
        return true;
      }
    }
  }

  lemma ControlIsImporterReach(g: Graph<Node>, importers: set<string>, starts: seq<Node>, control: map<Node, Option<Node>>)
    requires forall n :: n in starts <==> n.ImporterNode? && n.path in importers
    requires forall n :: n in control <==> ReachesFromAny(g, starts, n)
    ensures forall n :: n in control <==> exists i :: i in importers && Reaches(g, ImporterNode(i), n)
  {
    forall n
      ensures n in control <==> exists i :: i in importers && Reaches(g, ImporterNode(i), n)
    {
      if ReachesFromAny(g, starts, n) {
        var a :| a in starts && Reaches(g, a, n);
        assert a == ImporterNode(a.path);
      }
      if i :| i in importers && Reaches(g, ImporterNode(i), n) {
        assert ImporterNode(i) in starts;
      }
    }
  }

  method ControlledFrom(g: Graph<Node>, importers: set<string>, control: map<Node, Option<Node>>, waivers: seq<Waiver>)
      returns (ok: bool)
    requires forall n :: n in control <==> exists i :: i in importers && Reaches(g, ImporterNode(i), n)
    ensures ok <==> forall w :: w in waivers ==> EdgeControl(g, importers, w.package)
  {
    for j := 0 to |waivers|
      invariant forall m :: 0 <= m < j ==> EdgeControl(g, importers, waivers[m].package)
    {
      var found := HasEdgeControl(g, importers, control, waivers[j].package);
      if !found {
        return false;
      }
    }
    return true;
  }

  method AllControlled(g: Graph<Node>, importers: set<string>, waivers: seq<Waiver>) returns (ok: bool)
    ensures ok <==> forall w :: w in waivers ==> EdgeControl(g, importers, w.package)
  {
    var starts := ImporterNodes(importers);
    var control, depth := Walk(g, starts);
    ControlIsImporterReach(g, importers, starts, control);
    ok := ControlledFrom(g, importers, control, waivers);
  }

  /** The shipped walk: its nodes are exactly those the `apps/` importers reach. */
  ghost predicate ShippedWalk(g: Graph<Node>, importers: set<string>, apps: seq<Node>, shipped: map<Node, Option<Node>>, depth: map<Node, nat>) {
    && Walked(g, apps, shipped, depth)
    && (forall n :: n in shipped <==> ReachesFromAny(g, apps, n))
    && (forall n :: n in apps <==> n.ImporterNode? && n.path in importers && IsApp(n.path))
  }

  /** The hits of one package: a path for each of them, and none without an `apps/` importer that reaches it. */
  ghost predicate AreHits(g: Graph<Node>, apps: seq<Node>, package: string, paths: seq<seq<Node>>) {
    && (forall p :: p in paths ==> IsHitPath(g, apps, package, p))
    && (forall n :: IsPackage(n, package) && ReachesFromAny(g, apps, n) ==> EndsSome(paths, n))
  }

  method HitsOf(g: Graph<Node>, importers: set<string>, apps: seq<Node>, shipped: map<Node, Option<Node>>, ghost depth: map<Node, nat>, package: string)
      returns (paths: seq<seq<Node>>)
    requires ShippedWalk(g, importers, apps, shipped, depth)
    ensures paths != [] <==> AppReaches(g, importers, package)
    ensures AreHits(g, apps, package, paths)
  {
    paths := HitPaths(g, apps, shipped, depth, package);
    PathsAreHits(g, apps, shipped, package, paths);
    HitIffAppReaches(g, importers, apps, shipped, package);
  }

  lemma PathsAreHits(g: Graph<Node>, apps: seq<Node>, shipped: map<Node, Option<Node>>, package: string, paths: seq<seq<Node>>)
    requires forall n :: n in shipped <==> ReachesFromAny(g, apps, n)
    requires forall n :: n in shipped && IsPackage(n, package) ==> EndsSome(paths, n)
    requires forall p :: p in paths ==> IsHitPath(g, apps, package, p)
    ensures AreHits(g, apps, package, paths)
    ensures paths != [] <==> exists n :: n in shipped && IsPackage(n, package)
  {
    if paths != [] {
      var p := paths[0];
      assert p in paths;
      var n := p[|p| - 1];
      assert WalkFromTo(g, p[0], n, p);
      assert ReachesFromAny(g, apps, n);
    }
  }

  /** The first waiver whose package is shipped decides. */
  ghost predicate IsFirstHit(g: Graph<Node>, importers: set<string>, waivers: seq<Waiver>, m: int, package: string) {
    && 0 <= m < |waivers| && waivers[m].package == package && AppReaches(g, importers, package)
    && forall k :: 0 <= k < m ==> !AppReaches(g, importers, waivers[k].package)
  }

  /** The verdict of the last loop over one graph. */
  ghost predicate IsScan(g: Graph<Node>, importers: set<string>, apps: seq<Node>, waivers: seq<Waiver>, v: Verdict) {
    match v
    case Pass => forall m :: 0 <= m < |waivers| ==> !AppReaches(g, importers, waivers[m].package)
    case Shipped(package, paths) => (exists m :: IsFirstHit(g, importers, waivers, m, package)) && AreHits(g, apps, package, paths)
    case _ => false
  }

  lemma FirstHitDecides(g: Graph<Node>, importers: set<string>, apps: seq<Node>, waivers: seq<Waiver>, j: nat, package: string, paths: seq<seq<Node>>)
    requires j < |waivers| && waivers[j].package == package && AppReaches(g, importers, package) && AreHits(g, apps, package, paths)
    requires forall m :: 0 <= m < j ==> !AppReaches(g, importers, waivers[m].package)
    ensures IsScan(g, importers, apps, waivers, Shipped(package, paths))
  {
    assert IsFirstHit(g, importers, waivers, j, package);
  }

  method ScanWaivers(g: Graph<Node>, importers: set<string>, apps: seq<Node>, shipped: map<Node, Option<Node>>, ghost depth: map<Node, nat>, waivers: seq<Waiver>)
      returns (v: Verdict)
    requires ShippedWalk(g, importers, apps, shipped, depth)
    ensures IsScan(g, importers, apps, waivers, v)
  {
    for j := 0 to |waivers|
      invariant forall m :: 0 <= m < j ==> !AppReaches(g, importers, waivers[m].package)
    {
      var package := waivers[j].package;
      var paths := HitsOf(g, importers, apps, shipped, depth, package);
      if paths != [] {
        v := Shipped(package, paths);
        FirstHitDecides(g, importers, apps, waivers, j, package, paths);
        return;
      }
    }
    return Pass;
  }

  ghost predicate AreApps(importers: set<string>, apps: seq<Node>) {
    forall n :: n in apps <==> n.ImporterNode? && n.path in importers && IsApp(n.path)
  }

  method ShippedHits(g: Graph<Node>, importers: set<string>, waivers: seq<Waiver>) returns (v: Verdict, ghost apps: seq<Node>)
    ensures AreApps(importers, apps) && IsScan(g, importers, apps, waivers, v)
  {
    var starts := ImporterNodes(set i | i in importers && UnderApps(i));
    apps := starts;
    var shipped, depth := Walk(g, starts);
    v := ScanWaivers(g, importers, starts, shipped, depth, waivers);
  }

  lemma HitIffAppReaches(g: Graph<Node>, importers: set<string>, apps: seq<Node>, shipped: map<Node, Option<Node>>, package: string)
    requires forall n :: n in apps <==> n.ImporterNode? && n.path in importers && IsApp(n.path)
    requires forall n :: n in shipped <==> ReachesFromAny(g, apps, n)
    ensures (exists n :: n in shipped && IsPackage(n, package)) <==> AppReaches(g, importers, package)
  {
    if n :| n in shipped && IsPackage(n, package) {
      var a :| a in apps && Reaches(g, a, n);
      assert a == ImporterNode(a.path);
      assert ReachesPackage(g, a.path, package);
    }
    if AppReaches(g, importers, package) {
      var i :| i in importers && IsApp(i) && ReachesPackage(g, i, package);
      var n :| IsPackage(n, package) && Reaches(g, ImporterNode(i), n);
      assert ImporterNode(i) in apps;
    }
  }

  /** An importer reaches the package through at least two edges. */
  ghost predicate ReachedThroughTwoEdges(g: Graph<Node>, importers: set<string>, package: string) {
    exists i, n, p :: i in importers && IsPackage(n, package) && WalkFromTo(g, ImporterNode(i), n, p) && |p| >= 3
  }

  /** No importer that reaches the package is shipped: none is an `apps/` importer and none is
      reachable from one. */
  ghost predicate OnlyUnshippedReach(g: Graph<Node>, importers: set<string>, package: string) {
    forall i :: i in importers && ReachesPackage(g, i, package) ==>
      !IsApp(i) && forall a :: a in importers && IsApp(a) ==> !Reaches(g, ImporterNode(a), ImporterNode(i))
  }

  lemma ControlGivesTwoEdges(g: Graph<Node>, importers: set<string>, package: string)
    requires EdgeControl(g, importers, package)
    ensures ReachedThroughTwoEdges(g, importers, package)
  {
    var i: string, n: Node, c: Node :| i in importers && n.SnapshotNode? && Reaches(g, ImporterNode(i), n)
                                       && Edge(g, n, c) && IsPackage(c, package);
    var p :| WalkFromTo(g, ImporterNode(i), n, p);
    assert |p| >= 2 by { assert p[0] != p[|p| - 1]; }
    var last := [n, c];
    assert WalkFromTo(g, n, c, last);
    WalkConcat(g, ImporterNode(i), n, c, p, last);
    assert |p + last[1..]| >= 3;
  }

  lemma NoAppMeansOnlyUnshipped(g: Graph<Node>, importers: set<string>, package: string)
    requires !AppReaches(g, importers, package)
    ensures OnlyUnshippedReach(g, importers, package)
  {
    forall i, a | i in importers && ReachesPackage(g, i, package) && a in importers && IsApp(a)
      ensures !Reaches(g, ImporterNode(a), ImporterNode(i))
    {
      assert !ReachesPackage(g, a, package);
      if Reaches(g, ImporterNode(a), ImporterNode(i)) {
        var n :| IsPackage(n, package) && Reaches(g, ImporterNode(i), n);
        ReachesTransitive(g, ImporterNode(a), ImporterNode(i), n);
      }
    }
  }

  // ----- The verdict, in terms of the tables alone -----

  ghost predicate LeadsToPackage(lock: Lock, importer: string, package: string) {
    exists n :: IsPackage(n, package) && Leads(lock, ImporterNode(importer), n)
  }

  /** Some snapshot that an importer leads to has an entry for the package. */
  ghost predicate Controlled(lock: Lock, package: string) {
    exists i: string, n: Node, c: Node :: i in lock.importers && n.SnapshotNode? && Leads(lock, ImporterNode(i), n)
                      && IsChild(lock.importers, lock.snapshots, n, c) && IsPackage(c, package)
  }

  ghost predicate AppLeads(lock: Lock, package: string) {
    exists i :: i in lock.importers && IsApp(i) && LeadsToPackage(lock, i, package)
  }

  ghost predicate AppLeadsTo(lock: Lock, n: Node) {
    exists i :: i in lock.importers && IsApp(i) && Leads(lock, ImporterNode(i), n)
  }

  /** An importer leads to the package through at least two entries. */
  ghost predicate ThroughTwoEdges(lock: Lock, package: string) {
    exists i, n, p :: i in lock.importers && IsPackage(n, package) && DeclaresFromTo(lock, ImporterNode(i), n, p) && |p| >= 3
  }

  /** No importer that leads to the package is shipped: none is an `apps/` importer and none is
      led to by one. */
  ghost predicate OnlyUnshipped(lock: Lock, package: string) {
    forall i :: i in lock.importers && LeadsToPackage(lock, i, package) ==>
      !IsApp(i) && forall a :: a in lock.importers && IsApp(a) ==> !Leads(lock, ImporterNode(a), ImporterNode(i))
  }

  ghost predicate Dangling(lock: Lock) {
    exists n, c :: IsChild(lock.importers, lock.snapshots, n, c) && !Defined(lock.importers, lock.snapshots, c)
  }

  ghost predicate HasApp(lock: Lock) {
    exists i :: i in lock.importers && IsApp(i)
  }

  /** The first check that fails. */
  ghost function FirstFailure(version: Option<string>, lock: Lock, configured: set<string>, waivers: seq<Waiver>): Option<Failure> {
    if version != Some("9.0") then Some(LockfileVersion)
    else if lock.importers == map[] || lock.snapshots == map[] then Some(EmptySection)
    else if !HasApp(lock) then Some(NoShippedImporter)
    else if Dangling(lock) then Some(DanglingEdge)
    else if exists w :: w in waivers && w.advisory !in configured then Some(TableStale)
    else if exists w :: w in waivers && !Controlled(lock, w.package) then Some(EdgeControlLost)
    else None
  }

  /** A walk from a shipped importer to the package that no shorter one from any of them replaces. */
  ghost predicate IsShippedPath(lock: Lock, package: string, p: seq<Node>) {
    && Declares(lock, p) && p[0].ImporterNode? && p[0].path in lock.importers && IsApp(p[0].path)
    && IsPackage(p[|p| - 1], package)
    && forall i, q :: i in lock.importers && IsApp(i) && DeclaresFromTo(lock, ImporterNode(i), p[|p| - 1], q) ==> |p| <= |q|
  }

  /** The first waiver in the table whose package a shipped importer leads to. */
  ghost predicate IsFirstShipped(lock: Lock, waivers: seq<Waiver>, m: int, package: string) {
    && 0 <= m < |waivers| && waivers[m].package == package && AppLeads(lock, package)
    && forall k :: 0 <= k < m ==> !AppLeads(lock, waivers[k].package)
  }

  ghost predicate IsFinding(lock: Lock, waivers: seq<Waiver>, package: string, paths: seq<seq<Node>>) {
    && (exists m :: IsFirstShipped(lock, waivers, m, package))
    && (forall p :: p in paths ==> IsShippedPath(lock, package, p))
    && (forall n :: IsPackage(n, package) && AppLeadsTo(lock, n) ==> EndsSome(paths, n))
  }

  ghost predicate IsPass(lock: Lock, waivers: seq<Waiver>) {
    forall w :: w in waivers ==>
      !AppLeads(lock, w.package) && ThroughTwoEdges(lock, w.package) && OnlyUnshipped(lock, w.package)
  }

  /** What the guard must answer on these tables: the first failing check; with none, the first
      shipped waiver with a shortest path to each of its snapshots; with none, a pass. */
  ghost predicate IsVerdict(version: Option<string>, lock: Lock, configured: set<string>, waivers: seq<Waiver>, v: Verdict) {
    match FirstFailure(version, lock, configured, waivers)
    case Some(failure) => v == Infra(failure)
    case None =>
      match v
      case Pass => IsPass(lock, waivers)
      case Shipped(package, paths) => IsFinding(lock, waivers, package, paths)
      case _ => false
  }

  lemma PackageReachIsDeclared(lock: Lock, g: Graph<Node>, importer: string, package: string)
    requires IsGraph(lock, g)
    ensures ReachesPackage(g, importer, package) <==> LeadsToPackage(lock, importer, package)
  {
    forall n ensures Reaches(g, ImporterNode(importer), n) <==> Leads(lock, ImporterNode(importer), n) {
      GraphReachIsDeclared(lock, g, ImporterNode(importer), n);
    }
  }

  lemma AppReachIsDeclared(lock: Lock, g: Graph<Node>, package: string)
    requires IsGraph(lock, g)
    ensures AppReaches(g, lock.importers.Keys, package) <==> AppLeads(lock, package)
  {
    forall i ensures ReachesPackage(g, i, package) <==> LeadsToPackage(lock, i, package) {
      PackageReachIsDeclared(lock, g, i, package);
    }
  }

  lemma ControlIsDeclared(lock: Lock, g: Graph<Node>, package: string)
    requires IsGraph(lock, g)
    ensures EdgeControl(g, lock.importers.Keys, package) <==> Controlled(lock, package)
  {
    forall a, b ensures Reaches(g, a, b) <==> Leads(lock, a, b) {
      GraphReachIsDeclared(lock, g, a, b);
    }
    forall n, c ensures Edge(g, n, c) <==> IsChild(lock.importers, lock.snapshots, n, c) {
      GraphHasDeclaredEdges(lock, g, n, c);
    }
    if EdgeControl(g, lock.importers.Keys, package) {
      var i: string, n: Node, c: Node :| i in lock.importers.Keys && n.SnapshotNode? && Reaches(g, ImporterNode(i), n)
                                         && Edge(g, n, c) && IsPackage(c, package);
      assert Leads(lock, ImporterNode(i), n) && IsChild(lock.importers, lock.snapshots, n, c);
    }
    if Controlled(lock, package) {
      var i: string, n: Node, c: Node :| i in lock.importers && n.SnapshotNode? && Leads(lock, ImporterNode(i), n)
                        && IsChild(lock.importers, lock.snapshots, n, c) && IsPackage(c, package);
      assert Reaches(g, ImporterNode(i), n) && Edge(g, n, c);
    }
  }

  lemma TwoEdgesAreDeclared(lock: Lock, g: Graph<Node>, package: string)
    requires IsGraph(lock, g) && ReachedThroughTwoEdges(g, lock.importers.Keys, package)
    ensures ThroughTwoEdges(lock, package)
  {
    var i, n, p :| i in lock.importers.Keys && IsPackage(n, package) && WalkFromTo(g, ImporterNode(i), n, p) && |p| >= 3;
    GraphWalksAreDeclared(lock, g, p);
    assert DeclaresFromTo(lock, ImporterNode(i), n, p);
  }

  lemma UnshippedIsDeclared(lock: Lock, g: Graph<Node>, package: string)
    requires IsGraph(lock, g) && OnlyUnshippedReach(g, lock.importers.Keys, package)
    ensures OnlyUnshipped(lock, package)
  {
    forall i | i in lock.importers && LeadsToPackage(lock, i, package)
      ensures !IsApp(i) && forall a :: a in lock.importers && IsApp(a) ==> !Leads(lock, ImporterNode(a), ImporterNode(i))
    {
      PackageReachIsDeclared(lock, g, i, package);
      forall a | a in lock.importers && IsApp(a) ensures !Leads(lock, ImporterNode(a), ImporterNode(i)) {
        GraphReachIsDeclared(lock, g, ImporterNode(a), ImporterNode(i));
      }
    }
  }

  lemma PassIsDeclared(lock: Lock, g: Graph<Node>, w: Waiver)
    requires IsGraph(lock, g) && Controlled(lock, w.package) && !AppReaches(g, lock.importers.Keys, w.package)
    ensures !AppLeads(lock, w.package) && ThroughTwoEdges(lock, w.package) && OnlyUnshipped(lock, w.package)
  {
    AppReachIsDeclared(lock, g, w.package);
    ControlIsDeclared(lock, g, w.package);
    ControlGivesTwoEdges(g, lock.importers.Keys, w.package);
    TwoEdgesAreDeclared(lock, g, w.package);
    NoAppMeansOnlyUnshipped(g, lock.importers.Keys, w.package);
    UnshippedIsDeclared(lock, g, w.package);
  }

  lemma HitPathIsDeclared(lock: Lock, g: Graph<Node>, apps: seq<Node>, package: string, p: seq<Node>)
    requires IsGraph(lock, g) && AreApps(lock.importers.Keys, apps) && IsHitPath(g, apps, package, p)
    ensures IsShippedPath(lock, package, p)
  {
    GraphWalksAreDeclared(lock, g, p);
    forall i, q | i in lock.importers && IsApp(i) && DeclaresFromTo(lock, ImporterNode(i), p[|p| - 1], q)
      ensures |p| <= |q|
    {
      GraphWalksAreDeclared(lock, g, q);
      assert ImporterNode(i) in apps && WalkFromTo(g, ImporterNode(i), p[|p| - 1], q);
    }
  }

  lemma HitsAreDeclared(lock: Lock, g: Graph<Node>, apps: seq<Node>, package: string, paths: seq<seq<Node>>)
    requires IsGraph(lock, g) && AreApps(lock.importers.Keys, apps) && AreHits(g, apps, package, paths)
    ensures forall p :: p in paths ==> IsShippedPath(lock, package, p)
    ensures forall n :: IsPackage(n, package) && AppLeadsTo(lock, n) ==> EndsSome(paths, n)
  {
    forall p | p in paths ensures IsShippedPath(lock, package, p) {
      HitPathIsDeclared(lock, g, apps, package, p);
    }
    forall n | IsPackage(n, package) && AppLeadsTo(lock, n) ensures EndsSome(paths, n) {
      var i :| i in lock.importers && IsApp(i) && Leads(lock, ImporterNode(i), n);
      GraphReachIsDeclared(lock, g, ImporterNode(i), n);
      assert ImporterNode(i) in apps && ReachesFromAny(g, apps, n);
    }
  }

  /** The verdict of the last loop is the verdict on the tables. */
  lemma ScanIsVerdict(version: Option<string>, lock: Lock, configured: set<string>, waivers: seq<Waiver>,
                      g: Graph<Node>, apps: seq<Node>, v: Verdict)
    requires FirstFailure(version, lock, configured, waivers).None? && IsGraph(lock, g)
    requires AreApps(lock.importers.Keys, apps) && IsScan(g, lock.importers.Keys, apps, waivers, v)
    ensures IsVerdict(version, lock, configured, waivers, v)
  {
    forall package ensures AppReaches(g, lock.importers.Keys, package) <==> AppLeads(lock, package) {
      AppReachIsDeclared(lock, g, package);
    }
    if v.Pass? {
      forall w | w in waivers
        ensures !AppLeads(lock, w.package) && ThroughTwoEdges(lock, w.package) && OnlyUnshipped(lock, w.package)
      {
        PassIsDeclared(lock, g, w);
      }
    } else {
      var m :| IsFirstHit(g, lock.importers.Keys, waivers, m, v.package);
      assert IsFirstShipped(lock, waivers, m, v.package);
      HitsAreDeclared(lock, g, apps, v.package, v.paths);
    }
  }

  /** `_check` on the tables of a lock file gives exactly the verdict on them. */
  method Check(version: Option<string>, importers: Importers, snapshots: Snapshots,
               configured: set<string>, waivers: seq<Waiver>) returns (v: Verdict)
    requires FullKinds(importers)
    ensures IsVerdict(version, Lock(importers, snapshots), configured, waivers, v)
  {
    ghost var lock := Lock(importers, snapshots);
    if version != Some("9.0") {
      return Infra(LockfileVersion);
    }
    if importers == map[] || snapshots == map[] {
      return Infra(EmptySection);
    }
    if !exists i :: i in importers && UnderApps(i) {
      return Infra(NoShippedImporter);
    }
    assert HasApp(lock);
    var built := BuildGraph(importers, snapshots);
    if built.None? {
      assert Dangling(lock);
      return Infra(DanglingEdge);
    }
    GraphIsNotDangling(lock, built.value);
    var stale := FirstStale(configured, waivers);
    if stale {
      return Infra(TableStale);
    }
    var ok := AllControlled(built.value, importers.Keys, waivers);
    forall package ensures EdgeControl(built.value, importers.Keys, package) <==> Controlled(lock, package) {
      ControlIsDeclared(lock, built.value, package);
    }
    if !ok {
      return Infra(EdgeControlLost);
    }
    ghost var apps;
    v, apps := ShippedHits(built.value, importers.Keys, waivers);
    ScanIsVerdict(version, lock, configured, waivers, built.value, apps, v);
  }

  lemma GraphIsNotDangling(lock: Lock, g: Graph<Node>)
    requires IsGraph(lock, g) && NoDangling(g)
    ensures !Dangling(lock)
  {
  }

  /** Once no check fails: a finding exactly when a shipped importer leads to a waived package. */
  lemma FindingIffShipped(version: Option<string>, lock: Lock, configured: set<string>, waivers: seq<Waiver>, v: Verdict)
    requires IsVerdict(version, lock, configured, waivers, v) && !v.Infra?
    ensures v.Shipped? <==> exists w :: w in waivers && AppLeads(lock, w.package)
    ensures v.Shipped? ==> v.paths != [] && exists w :: w in waivers && w.package == v.package
  {
    if v.Shipped? {
      var m :| IsFirstShipped(lock, waivers, m, v.package);
      assert waivers[m] in waivers;
      var i :| i in lock.importers && IsApp(i) && LeadsToPackage(lock, i, v.package);
      var n :| IsPackage(n, v.package) && Leads(lock, ImporterNode(i), n);
      assert AppLeadsTo(lock, n);
      assert EndsSome(v.paths, n);
    }
  }

  lemma ConsumeKeepsKinds(s: State, line: Line)
    requires FullKinds(s.importers)
    ensures FullKinds(Consume(s, line).importers)
  {
    if line.Entry? {
      ImportersKeepKinds(s, line.indent, line.key, line.value);
    }
  }

  lemma ImportersKeepKinds(s: State, indent: nat, key: string, value: Option<string>)
    requires FullKinds(s.importers)
    ensures FullKinds(InImporters(s, indent, key, value).importers)
  {
    if indent == 6 && s.kind.Some? {
      VersionKeepsKinds(s.(dep := Some(key)), s.kind.value, key, None);
    } else if indent == 8 && s.kind.Some? && s.dep.Some? {
      VersionKeepsKinds(s, s.kind.value, s.dep.value, value);
    }
  }

  lemma VersionKeepsKinds(s: State, kind: string, dep: string, v: Option<string>)
    requires FullKinds(s.importers)
    ensures FullKinds(SetVersion(s, kind, dep, v).importers)
  {
  }

  lemma {:induction false} FeedKeepsKinds(s: State, lines: seq<Line>)
    requires FullKinds(s.importers)
    ensures FullKinds(Feed(s, lines).importers)
    decreases |lines|
  {
    if lines != [] {
      ConsumeKeepsKinds(s, lines[0]);
      FeedKeepsKinds(Consume(s, lines[0]), lines[1..]);
    }
  }

  /** The guard on the lines of a lock file: a crash exactly where the reader meets a line it
      cannot nest, and otherwise exactly the verdict on the tables it reads. */
  method CheckLines(lines: seq<string>, configured: set<string>, waivers: seq<Waiver>) returns (v: Verdict)
    ensures
      match Outcome(Feed(START, LexAll(lines)))
      case Crashed => v == Crash
      case Tables(version, importers, snapshots) => IsVerdict(version, Lock(importers, snapshots), configured, waivers, v)
  {
    var parsed := ParseLockfile(lines);
    FeedKeepsKinds(START, LexAll(lines));
    if parsed.Crashed? {
      return Crash;
    }
    v := Check(parsed.version, parsed.importers, parsed.snapshots, configured, waivers);
  }
}
