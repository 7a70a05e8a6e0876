/**
 Directed graphs given by successor lists, and the walks through them. Every
 reachability computation of the three verifiers is compared with `Reaches`.
 */
module Graphs {

  type Graph<V> = map<V, seq<V>>

  predicate Edge<V(==)>(g: Graph<V>, u: V, v: V) {
    u in g && v in g[u]
  }

  /** A nonempty list of nodes in which each follows its predecessor along an edge. */
  ghost predicate IsWalk<V>(g: Graph<V>, p: seq<V>) {
    |p| > 0 && forall i, j :: 0 <= i && j == i + 1 && j < |p| ==> Edge(g, p[i], p[j])
  }

  ghost predicate WalkFromTo<V>(g: Graph<V>, a: V, b: V, p: seq<V>) {
    IsWalk(g, p) && p[0] == a && p[|p| - 1] == b
  }

  ghost predicate Reaches<V(!new)>(g: Graph<V>, a: V, b: V) {
    exists p :: WalkFromTo(g, a, b, p)
  }

  ghost predicate ReachesFromAny<V(!new)>(g: Graph<V>, starts: seq<V>, b: V) {
    exists a :: a in starts && Reaches(g, a, b)
  }

  predicate Distinct<T(==)>(s: seq<T>) {
    forall i, j :: 0 <= i < j < |s| ==> s[i] != s[j]
  }

  ghost predicate Closed<V(!new)>(g: Graph<V>, s: set<V>) {
    forall u, v :: u in s && Edge(g, u, v) ==> v in s
  }

  lemma ReachesSelf<V(!new)>(g: Graph<V>, a: V)
    ensures Reaches(g, a, a)
  {
    assert WalkFromTo(g, a, a, [a]);
  }

  lemma WalkConcat<V(!new)>(g: Graph<V>, a: V, b: V, c: V, p: seq<V>, q: seq<V>)
    requires WalkFromTo(g, a, b, p) && WalkFromTo(g, b, c, q)
    ensures WalkFromTo(g, a, c, p + q[1..])
  {
    var r := p + q[1..];
    forall i, j | 0 <= i && j == i + 1 && j < |r|
      ensures Edge(g, r[i], r[j])
    {
      if j < |p| {
        assert Edge(g, p[i], p[j]);
      } else {
        assert Edge(g, q[i - |p| + 1], q[j - |p| + 1]);
      }
    }
  }

  lemma ReachesTransitive<V(!new)>(g: Graph<V>, a: V, b: V, c: V)
    requires Reaches(g, a, b) && Reaches(g, b, c)
    ensures Reaches(g, a, c)
  {
    var p :| WalkFromTo(g, a, b, p);
    var q :| WalkFromTo(g, b, c, q);
    WalkConcat(g, a, b, c, p, q);
  }

  lemma ReachesEdge<V(!new)>(g: Graph<V>, a: V, b: V)
    requires Edge(g, a, b)
    ensures Reaches(g, a, b)
  {
    var p := [a, b];
    assert WalkFromTo(g, a, b, p);
  }

  lemma SubWalk<V(!new)>(g: Graph<V>, p: seq<V>, lo: nat, hi: nat)
    requires IsWalk(g, p) && lo < hi <= |p|
    ensures WalkFromTo(g, p[lo], p[hi - 1], p[lo..hi])
  {
    var q := p[lo..hi];
    forall i, j | 0 <= i && j == i + 1 && j < |q|
      ensures Edge(g, q[i], q[j])
    {
      assert Edge(g, p[lo + i], p[lo + j]);
    }
  }

  /** A set closed under edges holds everything its members reach. */
  lemma {:induction false} ClosedContainsWalk<V(!new)>(g: Graph<V>, s: set<V>, p: seq<V>)
    requires Closed(g, s) && IsWalk(g, p) && p[0] in s
    ensures forall i :: 0 <= i < |p| ==> p[i] in s
  {
    if |p| > 1 {
      var q := p[..|p| - 1];
      SubWalk(g, p, 0, |p| - 1);
      ClosedContainsWalk(g, s, q);
      assert q[|p| - 2] in s;
      assert Edge(g, p[|p| - 2], p[|p| - 1]);
    }
  }

  lemma ClosedContainsReachable<V(!new)>(g: Graph<V>, s: set<V>, a: V, b: V)
    requires Closed(g, s) && a in s && Reaches(g, a, b)
    ensures b in s
  {
    var p :| WalkFromTo(g, a, b, p);
    ClosedContainsWalk(g, s, p);
  }

  /** Every walk contains a simple walk between the same two nodes. */
  lemma {:induction false} SimpleWalk<V(!new)>(g: Graph<V>, a: V, b: V, p: seq<V>) returns (q: seq<V>)
    requires WalkFromTo(g, a, b, p)
    ensures WalkFromTo(g, a, b, q) && Distinct(q)
    decreases |p|
  {
    if Distinct(p) {
      q := p;
    } else {
      var i, j :| 0 <= i < j < |p| && p[i] == p[j];
      SubWalk(g, p, 0, i + 1);
      SubWalk(g, p, j, |p|);
      WalkConcat(g, a, p[i], b, p[..i + 1], p[j..]);
      q := SimpleWalk(g, a, b, p[..i + 1] + p[j..][1..]);
    }
  }
}
