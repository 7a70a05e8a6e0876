/**
 The multi-source breadth-first walk of ci/osv/shipped_reachability.py and the path
 reconstruction that follows its parent map.
 */
module BreadthFirst {
  import opened Text
  import opened Graphs

  function Children<V(==)>(g: Graph<V>, u: V): seq<V> {
    if u in g then g[u] else []
  }

  /** Every node the walk can ever meet. */
  ghost function Universe<V(!new)>(g: Graph<V>, starts: seq<V>): set<V> {
    (set s | s in starts) + (set u, v | u in g && v in g[u] :: v)
  }

  /** The node is a start, or its parent is one edge and one level above it. */
  ghost predicate Linked<V>(g: Graph<V>, starts: seq<V>, parent: map<V, Option<V>>, depth: map<V, nat>, x: V)
    requires x in parent && depth.Keys == parent.Keys
  {
    match parent[x]
    case None => x in starts && depth[x] == 0
    case Some(p) => p in parent && Edge(g, p, x) && depth[x] == depth[p] + 1
  }

  /** The parent map is a forest of graph edges rooted in the starts; `depth` counts the
      edges to the root. */
  ghost predicate Forest<V(!new)>(g: Graph<V>, starts: seq<V>, parent: map<V, Option<V>>, depth: map<V, nat>) {
    depth.Keys == parent.Keys
    && forall x {:trigger Linked(g, starts, parent, depth, x)} :: x in parent ==> Linked(g, starts, parent, depth, x)
  }

  ghost predicate Rooted<V(!new)>(starts: seq<V>, depth: map<V, nat>) {
    forall s :: s in starts ==> s in depth && depth[s] == 0
  }

  /** The node's successors are all met, at most one level further down. */
  ghost predicate Expanded<V(!new)>(g: Graph<V>, depth: map<V, nat>, u: V)
    requires u in depth
  {
    forall v :: Edge(g, u, v) ==> v in depth && depth[v] <= depth[u] + 1
  }

  /** The waiting nodes lie on two adjacent levels, in order, and nothing met so far lies
      deeper than one below `level`. */
  ghost predicate Levelled<V(!new)>(queue: seq<V>, depth: map<V, nat>, level: nat) {
    && (forall i :: 0 <= i < |queue| ==> queue[i] in depth && level <= depth[queue[i]])
    && (forall i, j :: 0 <= i < j < |queue| ==> depth[queue[i]] <= depth[queue[j]])
    && (forall x :: x in depth ==> depth[x] <= level + 1)
  }

  /** The result of a finished walk. */
  ghost predicate Walked<V(!new)>(g: Graph<V>, starts: seq<V>, parent: map<V, Option<V>>, depth: map<V, nat>) {
    Forest(g, starts, parent, depth) && Rooted(starts, depth)
    && forall u :: u in depth ==> Expanded(g, depth, u)
  }

  lemma MeetKeepsForest<V(!new)>(g: Graph<V>, starts: seq<V>, parent: map<V, Option<V>>, depth: map<V, nat>, u: V, v: V)
    requires Forest(g, starts, parent, depth) && Rooted(starts, depth)
    requires u in parent && v !in parent && Edge(g, u, v)
    ensures Forest(g, starts, parent[v := Some(u)], depth[v := depth[u] + 1])
    ensures Rooted(starts, depth[v := depth[u] + 1])
  {
    var parent', depth' := parent[v := Some(u)], depth[v := depth[u] + 1];
    forall x | x in parent'
      ensures Linked(g, starts, parent', depth', x)
    {
      assert x != v ==> Linked(g, starts, parent, depth, x);
    }
  }

  lemma MeetKeepsLevels<V(!new)>(queue: seq<V>, depth: map<V, nat>, u: V, v: V)
    requires u in depth && v !in depth && Levelled(queue, depth, depth[u])
    ensures Levelled(queue + [v], depth[v := depth[u] + 1], depth[u])
  {
  }

  lemma MeetKeepsExpanded<V(!new)>(g: Graph<V>, depth: map<V, nat>, v: V, d: nat, u: V)
    requires v !in depth && u in depth && Expanded(g, depth, u)
    ensures Expanded(g, depth[v := d], u)
  {
  }

  /** Every met node waits in the queue or has all its successors met. */
  ghost predicate Pending<V(!new)>(g: Graph<V>, depth: map<V, nat>, queue: seq<V>) {
    forall x {:trigger Expanded(g, depth, x)} :: x in depth ==> x in queue || Expanded(g, depth, x)
  }

  lemma MeetKeepsPending<V(!new)>(g: Graph<V>, depth: map<V, nat>, queue: seq<V>, v: V, d: nat)
    requires v !in depth && Pending(g, depth, queue)
    ensures Pending(g, depth[v := d], queue + [v])
  {
    forall x | x in depth && x !in queue
      ensures Expanded(g, depth[v := d], x)
    {
      MeetKeepsExpanded(g, depth, v, d, x);
    }
  }

  /** The state while the successors of `u` are being met. */
  ghost predicate Sweep<V(!new)>(g: Graph<V>, starts: seq<V>, parent: map<V, Option<V>>, depth: map<V, nat>, u: V, queue: seq<V>) {
    && Forest(g, starts, parent, depth) && Rooted(starts, depth)
    && u in depth && Levelled(queue, depth, depth[u])
    && Pending(g, depth, [u] + queue)
    && parent.Keys <= Universe(g, starts)
  }

  lemma MeetKeepsSweep<V(!new)>(g: Graph<V>, starts: seq<V>, parent: map<V, Option<V>>, depth: map<V, nat>, u: V, queue: seq<V>, v: V)
    requires Sweep(g, starts, parent, depth, u, queue) && Edge(g, u, v) && v !in parent
    ensures Sweep(g, starts, parent[v := Some(u)], depth[v := depth[u] + 1], u, queue + [v])
  {
    MeetKeepsForest(g, starts, parent, depth, u, v);
    MeetKeepsLevels(queue, depth, u, v);
    MeetKeepsPending(g, depth, [u] + queue, v, depth[u] + 1);
    assert [u] + queue + [v] == [u] + (queue + [v]);
  }

  /** One successor of `u`: met now unless it was met before. */
  method Meet<V(==,!new)>(g: Graph<V>, starts: seq<V>, parent0: map<V, Option<V>>, queue0: seq<V>, u: V, v: V, ghost depth0: map<V, nat>)
      returns (parent: map<V, Option<V>>, queue: seq<V>, ghost depth: map<V, nat>)
    requires Sweep(g, starts, parent0, depth0, u, queue0) && Edge(g, u, v)
    ensures Sweep(g, starts, parent, depth, u, queue) && depth.Keys == depth0.Keys + {v}
    ensures depth.Keys == depth0.Keys ==> queue == queue0
  {
    parent, queue, depth := parent0, queue0, depth0;
    if v !in parent {
      MeetKeepsSweep(g, starts, parent, depth, u, queue, v);
      depth := depth[v := depth[u] + 1];
      parent := parent[v := Some(u)];
      queue := queue + [v];
      assert v !in depth0.Keys;
    }
  }

  /** The first `n` nodes of the list have been met. */
  ghost predicate AllMet<V(!new)>(next: seq<V>, n: int, met: set<V>) {
    forall j :: 0 <= j < n <= |next| ==> next[j] in met
  }

  lemma OneMoreMet<V(!new)>(next: seq<V>, i: int, was: set<V>, met: set<V>)
    requires 0 <= i < |next| && AllMet(next, i, was) && was <= met && next[i] in met
    ensures AllMet(next, i + 1, met)
  {
  }

  /** One turn of the queue: every successor of `u` is met. */
  method Expand<V(==,!new)>(g: Graph<V>, starts: seq<V>, parent0: map<V, Option<V>>, queue0: seq<V>, u: V, ghost depth0: map<V, nat>)
      returns (parent: map<V, Option<V>>, queue: seq<V>, ghost depth: map<V, nat>)
    requires Sweep(g, starts, parent0, depth0, u, queue0)
    ensures Sweep(g, starts, parent, depth, u, queue)
    ensures forall v :: Edge(g, u, v) ==> v in depth
    ensures depth0.Keys <= depth.Keys && (depth.Keys == depth0.Keys ==> queue == queue0)
  {
    parent, queue, depth := parent0, queue0, depth0;
    var next := Children(g, u);
    for i := 0 to |next|
      invariant Sweep(g, starts, parent, depth, u, queue)
      invariant depth0.Keys <= depth.Keys && (depth.Keys == depth0.Keys ==> queue == queue0)
      invariant AllMet(next, i, depth.Keys)
    {
      ghost var was := depth.Keys;
      parent, queue, depth := Meet(g, starts, parent, queue, u, next[i], depth);
      OneMoreMet(next, i, was, depth.Keys);
    }
  }

  method Seed<V(==,!new)>(starts: seq<V>) returns (parent: map<V, Option<V>>, queue: seq<V>)
    ensures forall x :: x in parent <==> x in starts
    ensures forall x :: x in parent ==> parent[x].None? && x in queue
    ensures forall x :: x in queue ==> x in parent
  {
    parent, queue := map[], [];
    for i := 0 to |starts|
      invariant forall x :: x in parent <==> x in starts[..i]
      invariant forall x :: x in parent ==> parent[x].None? && x in queue
      invariant forall x :: x in queue ==> x in parent
    {
      assert starts[..i + 1] == starts[..i] + [starts[i]];
      if starts[i] !in parent {
        parent := parent[starts[i] := None];
        queue := queue + [starts[i]];
      }
    }
    assert starts[..|starts|] == starts;
  }

  /** Between two turns: the head of the queue is next, or the walk is finished. */
  ghost predicate Stage<V(!new)>(g: Graph<V>, starts: seq<V>, parent: map<V, Option<V>>, depth: map<V, nat>, queue: seq<V>) {
    if queue == [] then Walked(g, starts, parent, depth)
    else Sweep(g, starts, parent, depth, queue[0], queue[1..])
  }

  lemma FewerUnmet<V(!new)>(all: set<V>, before: set<V>, after: set<V>)
    requires before <= after <= all
    ensures |all - after| <= |all - before|
    ensures after != before ==> |all - after| < |all - before|
  {
    assert all - before == (all - after) + (after - before);
    if after != before {
      var x :| x in after && x !in before;
      assert x in after - before;
    }
  }

  lemma SeedSweep<V(!new)>(g: Graph<V>, starts: seq<V>, parent: map<V, Option<V>>, depth: map<V, nat>, queue: seq<V>)
    requires forall x :: x in parent <==> x in starts
    requires forall x :: x in parent ==> parent[x].None? && x in queue
    requires forall x :: x in queue ==> x in parent
    requires depth.Keys == parent.Keys && forall x :: x in depth ==> depth[x] == 0
    ensures Stage(g, starts, parent, depth, queue)
  {
    if queue != [] {
      assert queue == [queue[0]] + queue[1..];
    }
  }

  method Drain<V(==,!new)>(g: Graph<V>, starts: seq<V>, parent0: map<V, Option<V>>, queue0: seq<V>, ghost depth0: map<V, nat>)
      returns (parent: map<V, Option<V>>, ghost depth: map<V, nat>)
    requires Stage(g, starts, parent0, depth0, queue0)
    ensures Stage(g, starts, parent, depth, [])
  {
    var queue := queue0;
    parent, depth := parent0, depth0;
    while queue != []
      invariant Stage(g, starts, parent, depth, queue)
      decreases |Universe(g, starts) - depth.Keys|, |queue|
    {
      ghost var u, met := queue[0], depth.Keys;
      parent, queue, depth := Expand(g, starts, parent, queue[1..], queue[0], depth);
      NextSweep(g, starts, parent, depth, u, queue);
      FewerUnmet(Universe(g, starts), met, depth.Keys);
    }
  }

  /** `walk`: exactly the nodes reachable from the starts, each with a parent on a shortest
      walk. */
  method Walk<V(==,!new)>(g: Graph<V>, starts: seq<V>) returns (parent: map<V, Option<V>>, ghost depth: map<V, nat>)
    ensures Walked(g, starts, parent, depth)
    ensures forall x :: x in parent <==> ReachesFromAny(g, starts, x)
  {
    var seeded, queue := Seed(starts);
    ghost var zero: map<V, nat> := map x | x in seeded :: 0;
    SeedSweep(g, starts, seeded, zero, queue);
    parent, depth := Drain(g, starts, seeded, queue, zero);
    WalkedIsExact(g, starts, parent, depth);
  }

  /** When `u` is done, the next waiting node takes its place, or the walk is finished. */
  lemma NextSweep<V(!new)>(g: Graph<V>, starts: seq<V>, parent: map<V, Option<V>>, depth: map<V, nat>, u: V, queue: seq<V>)
    requires Sweep(g, starts, parent, depth, u, queue) && forall v :: Edge(g, u, v) ==> v in depth
    ensures Stage(g, starts, parent, depth, queue)
  {
    if queue != [] {
      assert queue == [queue[0]] + queue[1..];
      assert Pending(g, depth, queue);
    }
  }

  /** A node of a finished walk has a walk of exactly its depth from some start. */
  lemma {:induction false} ForestWalk<V(!new)>(g: Graph<V>, starts: seq<V>, parent: map<V, Option<V>>, depth: map<V, nat>, x: V)
      returns (p: seq<V>)
    requires Forest(g, starts, parent, depth) && x in parent
    ensures IsWalk(g, p) && p[0] in starts && p[|p| - 1] == x && |p| == depth[x] + 1
    decreases depth[x]
  {
    assert Linked(g, starts, parent, depth, x);
    match parent[x]
    case None => p := [x];
    case Some(y) =>
      var q := ForestWalk(g, starts, parent, depth, y);
      p := q + [x];
      forall i, j | 0 <= i && j == i + 1 && j < |p|
        ensures Edge(g, p[i], p[j])
      {
        if j < |q| {
          assert Edge(g, q[i], q[j]);
        }
      }
  }

  /** No walk from a start to a node is shorter than the node's depth. */
  lemma {:induction false} DepthIsShortest<V(!new)>(g: Graph<V>, starts: seq<V>, parent: map<V, Option<V>>, depth: map<V, nat>, p: seq<V>)
    requires Walked(g, starts, parent, depth) && IsWalk(g, p) && p[0] in starts
    ensures p[|p| - 1] in depth && depth[p[|p| - 1]] < |p|
  {
    if |p| > 1 {
      var q := p[..|p| - 1];
      SubWalk(g, p, 0, |p| - 1);
      DepthIsShortest(g, starts, parent, depth, q);
      assert Edge(g, q[|q| - 1], p[|p| - 1]);
      assert Expanded(g, depth, q[|q| - 1]);
    }
  }

  lemma WalkedIsExact<V(!new)>(g: Graph<V>, starts: seq<V>, parent: map<V, Option<V>>, depth: map<V, nat>)
    requires Walked(g, starts, parent, depth)
    ensures forall x :: x in parent <==> ReachesFromAny(g, starts, x)
  {
    forall x
      ensures x in parent <==> ReachesFromAny(g, starts, x)
    {
      if x in parent {
        var p := ForestWalk(g, starts, parent, depth, x);
        assert WalkFromTo(g, p[0], x, p);
      }
      if ReachesFromAny(g, starts, x) {
        var a :| a in starts && Reaches(g, a, x);
        var p :| WalkFromTo(g, a, x, p);
        DepthIsShortest(g, starts, parent, depth, p);
      }
    }
  }

  function Reversed<T>(s: seq<T>): (r: seq<T>)
    ensures |r| == |s|
    ensures forall i :: 0 <= i < |s| ==> r[i] == s[|s| - 1 - i]
  {
    if s == [] then [] else Reversed(s[1..]) + [s[0]]
  }

  /** `path_to`: following the parents ends at a start, every step is an edge, and no walk
      from any start to the node is shorter. */
  method PathTo<V(==,!new)>(g: Graph<V>, starts: seq<V>, parent: map<V, Option<V>>, ghost depth: map<V, nat>, node: V)
      returns (path: seq<V>)
    requires Walked(g, starts, parent, depth) && node in parent
    ensures path != [] && path[0] in starts && WalkFromTo(g, path[0], node, path)
    ensures forall a, p :: a in starts && WalkFromTo(g, a, node, p) ==> |path| <= |p|
  {
    var out := [node];
    var cur := parent[node];
    assert Linked(g, starts, parent, depth, node);
    while cur.Some?
      invariant out != [] && out[0] == node
      invariant forall i :: 0 <= i < |out| ==> out[i] in parent
      invariant |out| + depth[out[|out| - 1]] == depth[node] + 1
      invariant forall i, j :: 0 <= i && j == i + 1 && j < |out| ==> Edge(g, out[j], out[i])
      invariant cur == parent[out[|out| - 1]]
      decreases depth[out[|out| - 1]]
    {
      assert Linked(g, starts, parent, depth, out[|out| - 1]);
      out := out + [cur.value];
      cur := parent[cur.value];
    }
    assert Linked(g, starts, parent, depth, out[|out| - 1]);
    path := Reversed(out);
    ghost var n := |path|;
    forall i, j | 0 <= i && j == i + 1 && j < n
      ensures Edge(g, path[i], path[j])
    {
      assert Edge(g, out[n - 1 - i], out[n - 1 - j]);
    }
    assert path[0] == out[n - 1];
    forall a, p | a in starts && WalkFromTo(g, a, node, p)
      ensures n <= |p|
    {
      DepthIsShortest(g, starts, parent, depth, p);
    }
  }
}
