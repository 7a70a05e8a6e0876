/**
 The crate closure of ci/affected-graph/cargo_moon_parity.py: a depth-first walk whose
 visited set is shared by all its recursive calls.
 */
module CrateClosure {
  import opened Text
  import opened Graphs

  /** A Moon project. A task that a bucket does not mention is absent from the map; a
      bucket that Moon reported without a list is `None`. */
  datatype Project = Project(
    sourceDir: string,
    language: string,
    deps: seq<string>,
    inputFiles: map<string, Option<seq<string>>>,
    inputGlobs: map<string, Option<seq<string>>>)

  type Projects = map<string, Project>

  const NON_CARGO_PARENTS := {"contracts"}

  /** A dependency the closure may enter at all: a Rust project that is not one of Moon's own parents. */
  ghost predicate Eligible(projects: Projects, dep: string) {
    dep in projects && projects[dep].language == "rust" && dep != "contracts"
  }

  function DepsOf(projects: Projects, pid: string): seq<string> {
    if pid in projects then projects[pid].deps else []
  }

  ghost function Select(projects: Projects, deps: seq<string>, barred: set<string>): (r: seq<string>)
    ensures forall d :: d in r <==> d in deps && Eligible(projects, d) && d !in barred
  {
    if deps == [] then []
    else (if Eligible(projects, deps[0]) && deps[0] !in barred then [deps[0]] else []) + Select(projects, deps[1..], barred)
  }

  /** The dependency edges between eligible projects; none leads into `barred`. */
  ghost function RustGraph(projects: Projects, barred: set<string>): Graph<string> {
    map p | p in projects :: Select(projects, projects[p].deps, barred)
  }

  lemma RustEdge(projects: Projects, barred: set<string>, p: string, d: string)
    ensures Edge(RustGraph(projects, barred), p, d) <==>
            d in DepsOf(projects, p) && Eligible(projects, d) && d !in barred
  {
  }

  /** A walk that comes back to its origin need not: what is reachable at all is reachable
      without entering the origin again. */
  lemma ReachableWithoutReturning(projects: Projects, origin: string, x: string)
    requires x != origin
    ensures Reaches(RustGraph(projects, {}), origin, x) <==> Reaches(RustGraph(projects, {origin}), origin, x)
  {
    var full, open := RustGraph(projects, {}), RustGraph(projects, {origin});
    if Reaches(full, origin, x) {
      var p :| WalkFromTo(full, origin, x, p);
      var q := SimpleWalk(full, origin, x, p);
      forall i, j | 0 <= i && j == i + 1 && j < |q|
        ensures Edge(open, q[i], q[j])
      {
        assert Edge(full, q[i], q[j]);
        RustEdge(projects, {}, q[i], q[j]);
        RustEdge(projects, {origin}, q[i], q[j]);
        assert q[j] != q[0];
      }
      assert WalkFromTo(open, origin, x, q);
    }
    if Reaches(open, origin, x) {
      var p :| WalkFromTo(open, origin, x, p);
      forall i, j | 0 <= i && j == i + 1 && j < |p|
        ensures Edge(full, p[i], p[j])
      {
        assert Edge(open, p[i], p[j]);
        RustEdge(projects, {}, p[i], p[j]);
        RustEdge(projects, {origin}, p[i], p[j]);
      }
      assert WalkFromTo(full, origin, x, p);
    }
  }

  /** Every successor of every node of `s` is in `all`. */
  ghost predicate Covered(g: Graph<string>, s: set<string>, all: set<string>) {
    forall u, v :: u in s && Edge(g, u, v) ==> v in all
  }

  /** From `before` to `after`: only nodes that `from` reaches were added, and nothing that an
      added node leads to is left out. */
  ghost predicate Grown(g: Graph<string>, from: string, before: set<string>, after: set<string>) {
    before <= after && Covered(g, after - before, after)
    && forall x :: x in after - before ==> Reaches(g, from, x)
  }

  lemma GrowThrough(g: Graph<string>, from: string, start: set<string>, mid: set<string>, dep: string, after: set<string>)
    requires Grown(g, from, start, mid) && Edge(g, from, dep)
    requires Grown(g, dep, mid + {dep}, after) && Covered(g, {dep}, after)
    ensures Grown(g, from, start, after)
  {
    ReachesEdge(g, from, dep);
    forall x | x in after - start
      ensures Reaches(g, from, x)
    {
      if x !in mid && x != dep {
        ReachesTransitive(g, from, dep, x);
      }
    }
  }

  /** The visited set, shared by the whole recursion. */
  class Visited {
    var seen: set<string>

    constructor ()
      ensures seen == {}
    {
      seen := {};
    }

    /** The recursion of `rust_closure`. */
    method Visit(projects: Projects, pid: string, origin: string)
      requires seen <= projects.Keys && origin !in seen
      modifies this
      ensures seen <= projects.Keys && origin !in seen
      ensures Grown(RustGraph(projects, {origin}), pid, old(seen), seen)
      ensures Covered(RustGraph(projects, {origin}), {pid}, seen)
      decreases |projects.Keys - seen|
    {
      var deps := DepsOf(projects, pid);
      ghost var g, start := RustGraph(projects, {origin}), seen;
      for i := 0 to |deps|
        invariant seen <= projects.Keys && origin !in seen
        invariant Grown(g, pid, start, seen)
        invariant forall j :: 0 <= j < i && Eligible(projects, deps[j]) && deps[j] != origin ==> deps[j] in seen
      {
        var dep := deps[i];
        if dep == origin || dep in NON_CARGO_PARENTS || dep !in projects {
          continue;
        }
        if projects[dep].language != "rust" || dep in seen {
          continue;
        }
        ghost var mid := seen;
        seen := seen + {dep};
        SmallerSet(projects.Keys - seen, projects.Keys - start);
        Visit(projects, dep, origin);
        RustEdge(projects, {origin}, pid, dep);
        GrowThrough(g, pid, start, mid, dep, seen);
      }
      forall v | Edge(g, pid, v)
        ensures v in seen
      {
        RustEdge(projects, {origin}, pid, v);
      }
    }
  }

  lemma SmallerSet(a: set<string>, b: set<string>)
    requires a < b
    ensures |a| < |b|
  {
    assert b == a + (b - a);
    var x :| x in b - a;
  }

  /** The Rust projects that `pid` depends on, directly or not. */
  ghost predicate IsUpstream(projects: Projects, pid: string, x: string) {
    x != pid && Reaches(RustGraph(projects, {}), pid, x)
  }

  /** `rust_closure`: exactly the eligible projects reachable from the origin, without the
      origin, whatever the order of the dependencies and whatever cycles they form. */
  method RustClosure(projects: Projects, pid: string) returns (closure: set<string>)
    ensures forall x :: x in closure <==> IsUpstream(projects, pid, x)
    ensures closure <= projects.Keys
  {
    var visited := new Visited();
    visited.Visit(projects, pid, pid);
    closure := visited.seen;
    ghost var g := RustGraph(projects, {pid});
    assert closure - {} == closure;
    assert Closed(g, closure + {pid});
    forall x
      ensures x in closure <==> IsUpstream(projects, pid, x)
    {
      if x != pid {
        ReachableWithoutReturning(projects, pid, x);
        if Reaches(g, pid, x) {
          ClosedContainsReachable(g, closure + {pid}, pid, x);
        }
      }
    }
  }
}
