/** The queue of the parity checker that marks scripts as it takes them (`task_script_closure`). */
module Worklists {
  import opened Graphs

  lemma ReachStep<V(!new)>(g: Graph<V>, a: V, u: V, v: V)
    requires Reaches(g, a, u) && Edge(g, u, v)
    ensures Reaches(g, a, v)
  {
    ReachesEdge(g, u, v);
    ReachesTransitive(g, a, u, v);
  }

  /** Every node a walk from the starts can meet. */
  ghost function Universe<V(!new)>(g: Graph<V>, starts: seq<V>): set<V> {
    (set s | s in starts) + (set u, v | u in g && v in g[u] :: v)
  }

  // ---- Scripts and what they source ----

  function Sources<V(==)>(g: Graph<V>, v: V): seq<V> {
    if v in g then g[v] else []
  }

  /** Everything taken was reachable, and what a taken script sources is taken or waiting. */
  ghost predicate Taken<V(!new)>(g: Graph<V>, starts: seq<V>, queue: seq<V>, out: seq<V>) {
    && Distinct(out)
    && (forall v :: v in starts ==> v in out || v in queue)
    && (forall v :: v in out || v in queue ==> v in Universe(g, starts) && ReachesFromAny(g, starts, v))
    && (forall u, v :: u in out && Edge(g, u, v) ==> v in out || v in queue)
  }

  lemma TakeKeeps<V(!new)>(g: Graph<V>, starts: seq<V>, queue: seq<V>, out: seq<V>)
    requires Taken(g, starts, queue, out) && queue != []
    ensures queue[0] in out ==> Taken(g, starts, queue[1..], out)
    ensures queue[0] !in out ==> Taken(g, starts, queue[1..] + Sources(g, queue[0]), out + [queue[0]])
  {
    var key, rest := queue[0], queue[1..];
    assert queue == [key] + rest;
    if key !in out {
      var more := Sources(g, key);
      var a :| a in starts && Reaches(g, a, key);
      forall v | v in more ensures ReachesFromAny(g, starts, v) {
        ReachStep(g, a, key, v);
      }
      forall u, v | u in out + [key] && Edge(g, u, v) ensures v in out + [key] || v in rest + more {
        if u in out {
          assert v in out || v in queue;
        }
      }
    }
  }

  lemma TakenAll<V(!new)>(g: Graph<V>, starts: seq<V>, out: seq<V>, v: V)
    requires Taken(g, starts, [], out)
    ensures v in out <==> ReachesFromAny(g, starts, v)
  {
    if ReachesFromAny(g, starts, v) {
      var a :| a in starts && Reaches(g, a, v);
      var s := set u | u in out;
      assert Closed(g, s);
      ClosedContainsReachable(g, s, a, v);
    }
  }

  /** What has not been taken yet. */
  ghost function Left<V(!new)>(g: Graph<V>, starts: seq<V>, out: seq<V>): set<V> {
    Universe(g, starts) - set v | v in out
  }

  lemma LeftShrinks<V(!new)>(g: Graph<V>, starts: seq<V>, out: seq<V>, key: V)
    requires key in Universe(g, starts) && key !in out
    ensures |Left(g, starts, out + [key])| < |Left(g, starts, out)|
  {
    assert Left(g, starts, out + [key]) == Left(g, starts, out) - {key};
  }

  lemma TakenAtFirst<V(!new)>(g: Graph<V>, starts: seq<V>)
    ensures Taken(g, starts, starts, [])
  {
    forall v | v in starts ensures ReachesFromAny(g, starts, v) {
      ReachesSelf(g, v);
    }
  }

  /** `task_script_closure`: each script once, and exactly those the starts reach. */
  method ScriptClosure<V(==, !new)>(g: Graph<V>, starts: seq<V>) returns (out: seq<V>)
    ensures Distinct(out)
    ensures forall v :: v in out <==> ReachesFromAny(g, starts, v)
  {
    var queue := starts;
    out := [];
    TakenAtFirst(g, starts);
    while queue != []
      invariant Taken(g, starts, queue, out)
      decreases |Left(g, starts, out)|, |queue|
    {
      TakeKeeps(g, starts, queue, out);
      var key := queue[0];
      queue := queue[1..];
      if key !in out {
        LeftShrinks(g, starts, out, key);
        out := out + [key];
        queue := queue + Sources(g, key);
      }
    }
    forall v ensures v in out <==> ReachesFromAny(g, starts, v) {
      TakenAll(g, starts, out, v);
    }
  }
}
