/**
 The stack of the parity checker that marks packages as it meets them and returns a dictionary
 keyed by package name (`ts_closure`).
 */
module PackageClosure {
  import opened Graphs
  import opened Worklists

  /** A `workspace:` or `file:` dependency, resolved to the directory it names. */
  datatype Dep = Dep(name: string, isFile: bool, target: string)

  /** The local dependencies of every package directory, field by field, in name order. */
  type Packages = map<string, seq<Dep>>

  /** The result of the code: a dictionary keyed by package name. */
  type Closure = map<string, Dep>

  function DepsOf(pkgs: Packages, dir: string): seq<Dep> {
    if dir in pkgs then pkgs[dir] else []
  }

  function Targets(deps: seq<Dep>): (r: seq<string>)
    ensures forall t :: t in r <==> exists i :: 0 <= i < |deps| && deps[i].target == t
  {
    if deps == [] then [] else [deps[0].target] + Targets(deps[1..])
  }

  ghost function Local(pkgs: Packages): Graph<string> {
    map dir | dir in pkgs :: Targets(pkgs[dir])
  }

  // ---- The walk as a function ----

  /** The variables of the walk; `found` lists the first meeting with every directory. */
  datatype Search = Search(seen: set<string>, stack: seq<string>, found: seq<Dep>)

  function Meet(s: Search, d: Dep): Search {
    if d.target in s.seen then s else Search(s.seen + {d.target}, s.stack + [d.target], s.found + [d])
  }

  function MeetAll(s: Search, deps: seq<Dep>): Search
    decreases |deps|
  {
    if deps == [] then s else MeetAll(Meet(s, deps[0]), deps[1..])
  }

  /** One package is taken off the stack and its dependencies are met. */
  function Take(pkgs: Packages, s: Search): Search
    requires s.stack != []
  {
    var n := |s.stack| - 1;
    MeetAll(s.(stack := s.stack[..n]), DepsOf(pkgs, s.stack[n]))
  }

  ghost function AllTargets(pkgs: Packages): set<string> {
    set dir, i | dir in pkgs && 0 <= i < |pkgs[dir]| :: pkgs[dir][i].target
  }

  /** How many directories the walk can still meet. */
  ghost function Unmet(pkgs: Packages, s: Search): nat {
    |AllTargets(pkgs) - s.seen|
  }

  lemma {:induction false} MeetAllGrows(s: Search, deps: seq<Dep>, all: set<string>)
    requires forall i :: 0 <= i < |deps| ==> deps[i].target in all
    ensures s.seen <= MeetAll(s, deps).seen <= s.seen + all
    ensures MeetAll(s, deps).seen == s.seen ==> MeetAll(s, deps) == s
    decreases |deps|
  {
    if deps != [] {
      MeetAllGrows(Meet(s, deps[0]), deps[1..], all);
    }
  }

  lemma Shrinks(all: set<string>, before: set<string>, after: set<string>)
    requires before <= after <= before + all
    ensures after == before || |all - after| < |all - before|
  {
    if after != before {
      var x :| x in after && x !in before;
      assert all - after <= (all - before) - {x};
      SmallerSet(all - after, (all - before) - {x});
    }
  }

  lemma {:induction false} SmallerSet(a: set<string>, b: set<string>)
    requires a <= b
    ensures |a| <= |b|
    decreases a
  {
    if a != {} {
      var x :| x in a;
      SmallerSet(a - {x}, b - {x});
    }
  }

  lemma TakeShrinks(pkgs: Packages, s: Search)
    requires s.stack != []
    ensures Unmet(pkgs, Take(pkgs, s)) < Unmet(pkgs, s)
      || (Unmet(pkgs, Take(pkgs, s)) == Unmet(pkgs, s) && |Take(pkgs, s).stack| < |s.stack|)
  {
    var n := |s.stack| - 1;
    var popped := s.(stack := s.stack[..n]);
    MeetAllGrows(popped, DepsOf(pkgs, s.stack[n]), AllTargets(pkgs));
    Shrinks(AllTargets(pkgs), s.seen, Take(pkgs, s).seen);
  }

  ghost function Finish(pkgs: Packages, s: Search): Search
    decreases Unmet(pkgs, s), |s.stack|
  {
    if s.stack == [] then s else TakeShrinks(pkgs, s); Finish(pkgs, Take(pkgs, s))
  }

  function Start(own: string): Search {
    Search({own}, [own], [])
  }

  /** The first meetings, in the order of the walk. */
  ghost function Meetings(pkgs: Packages, own: string): seq<Dep> {
    Finish(pkgs, Start(own)).found
  }

  /** The dictionary the meetings are written into: a later one replaces an earlier one of the same name. */
  function LastWins(found: seq<Dep>): Closure {
    if found == [] then map[]
    else
      var d := found[|found| - 1];
      LastWins(found[..|found| - 1])[d.name := d]
  }

  // ---- The loops of the code ----

  method MeetDeps(s0: Search, deps: seq<Dep>, closure0: Closure) returns (s: Search, closure: Closure)
    requires closure0 == LastWins(s0.found)
    ensures s == MeetAll(s0, deps) && closure == LastWins(s.found)
  {
    s, closure := s0, closure0;
    for i := 0 to |deps|
      invariant MeetAll(s, deps[i..]) == MeetAll(s0, deps)
      invariant closure == LastWins(s.found)
    {
      var d := deps[i];
      assert deps[i..][1..] == deps[i + 1..];
      if d.target !in s.seen {
        assert (s.found + [d])[..|s.found|] == s.found;
        s := Search(s.seen + {d.target}, s.stack + [d.target], s.found + [d]);
        closure := closure[d.name := d];
      }
    }
  }

  /** `ts_closure`: the last meeting of every name. */
  method TsClosure(pkgs: Packages, own: string) returns (closure: Closure)
    ensures closure == LastWins(Meetings(pkgs, own))
  {
    var s := Start(own);
    closure := map[];
    while s.stack != []
      invariant Finish(pkgs, s) == Finish(pkgs, Start(own)) && closure == LastWins(s.found)
      decreases Unmet(pkgs, s), |s.stack|
    {
      var n := |s.stack| - 1;
      TakeShrinks(pkgs, s);
      s, closure := MeetDeps(s.(stack := s.stack[..n]), DepsOf(pkgs, s.stack[n]), closure);
    }
  }

  // ---- The meetings are exact ----

  /** Some package reachable from `own` depends on the directory under this name. */
  ghost predicate DependsAs(pkgs: Packages, own: string, d: Dep) {
    exists dir :: Reaches(Local(pkgs), own, dir) && d in DepsOf(pkgs, dir)
  }

  ghost predicate IsTarget(found: seq<Dep>, dir: string) {
    exists i :: 0 <= i < |found| && found[i].target == dir
  }

  ghost predicate DistinctTargets(found: seq<Dep>) {
    forall i, j :: 0 <= i < j < |found| ==> found[i].target != found[j].target
  }

  /** Seen is our own directory and every directory met, each met once. */
  ghost predicate Tracks(own: string, s: Search) {
    && DistinctTargets(s.found)
    && (forall dir :: dir in s.seen <==> dir == own || IsTarget(s.found, dir))
    && !IsTarget(s.found, own)
  }

  ghost predicate AllReached(pkgs: Packages, own: string, s: Search) {
    && (forall dir :: dir in s.seen ==> Reaches(Local(pkgs), own, dir))
    && (forall i :: 0 <= i < |s.found| ==> DependsAs(pkgs, own, s.found[i]))
  }

  ghost predicate Processed(pkgs: Packages, seen: set<string>, dir: string) {
    forall d :: d in DepsOf(pkgs, dir) ==> d.target in seen
  }

  /** Whatever a directory off the stack depends on has been met. */
  ghost predicate AllProcessed(pkgs: Packages, seen: set<string>, stack: seq<string>) {
    && (forall dir :: dir in stack ==> dir in seen)
    && forall dir :: dir in seen && dir !in stack ==> Processed(pkgs, seen, dir)
  }

  lemma MeetTracks(own: string, s: Search, d: Dep)
    requires Tracks(own, s)
    ensures Tracks(own, Meet(s, d))
  {
    var next := Meet(s, d);
    if d.target !in s.seen {
      forall dir ensures IsTarget(next.found, dir) <==> IsTarget(s.found, dir) || dir == d.target {
        if i :| 0 <= i < |s.found| && s.found[i].target == dir {
          assert next.found[i] == s.found[i];
        }
        assert next.found[|s.found|] == d;
      }
      forall i, j | 0 <= i < j < |next.found| ensures next.found[i].target != next.found[j].target {
        assert IsTarget(s.found, s.found[i].target);
      }
    }
  }

  lemma MeetReaches(pkgs: Packages, own: string, s: Search, cur: string, d: Dep)
    requires AllReached(pkgs, own, s) && cur in s.seen && d in DepsOf(pkgs, cur)
    ensures AllReached(pkgs, own, Meet(s, d))
  {
    var i :| 0 <= i < |pkgs[cur]| && pkgs[cur][i] == d;
    assert d.target in Targets(pkgs[cur]);
    ReachStep(Local(pkgs), own, cur, d.target);
    assert DependsAs(pkgs, own, d);
  }

  lemma MeetProcesses(pkgs: Packages, s: Search, cur: string, d: Dep)
    requires AllProcessed(pkgs, s.seen, s.stack + [cur])
    ensures AllProcessed(pkgs, Meet(s, d).seen, Meet(s, d).stack + [cur])
  {
    var next := Meet(s, d);
    forall x | x in next.seen && x !in next.stack + [cur] ensures Processed(pkgs, next.seen, x) {
      assert x !in s.stack + [cur];
      assert Processed(pkgs, s.seen, x);
    }
    forall x | x in next.stack + [cur] ensures x in next.seen {
      assert x in s.stack + [cur] || x == d.target;
    }
  }

  /** What the walk keeps; `cur` is the package being processed. */
  ghost predicate Walking(pkgs: Packages, own: string, s: Search, pending: seq<string>) {
    Tracks(own, s) && AllReached(pkgs, own, s) && AllProcessed(pkgs, s.seen, s.stack + pending)
  }

  lemma MeetKeeps(pkgs: Packages, own: string, s: Search, cur: string, d: Dep)
    requires Walking(pkgs, own, s, [cur]) && d in DepsOf(pkgs, cur)
    ensures Walking(pkgs, own, Meet(s, d), [cur])
  {
    assert cur in s.stack + [cur];
    MeetTracks(own, s, d);
    MeetReaches(pkgs, own, s, cur, d);
    MeetProcesses(pkgs, s, cur, d);
  }

  lemma {:induction false} MeetAllKeeps(pkgs: Packages, own: string, s: Search, cur: string, deps: seq<Dep>)
    requires Walking(pkgs, own, s, [cur]) && forall i :: 0 <= i < |deps| ==> deps[i] in DepsOf(pkgs, cur)
    ensures Walking(pkgs, own, MeetAll(s, deps), [cur])
    ensures forall i :: 0 <= i < |deps| ==> deps[i].target in MeetAll(s, deps).seen
    decreases |deps|
  {
    if deps != [] {
      var next, rest := Meet(s, deps[0]), deps[1..];
      MeetKeeps(pkgs, own, s, cur, deps[0]);
      MeetAllKeeps(pkgs, own, next, cur, rest);
      MeetAllSees(next, rest, deps[0].target);
      assert forall i :: 0 < i < |deps| ==> deps[i] == rest[i - 1];
    }
  }

  lemma {:induction false} MeetAllSees(s: Search, deps: seq<Dep>, dir: string)
    requires dir in s.seen
    ensures dir in MeetAll(s, deps).seen
    decreases |deps|
  {
    if deps != [] {
      MeetAllSees(Meet(s, deps[0]), deps[1..], dir);
    }
  }

  lemma TakeKeeps(pkgs: Packages, own: string, s: Search)
    requires Walking(pkgs, own, s, []) && s.stack != []
    ensures Walking(pkgs, own, Take(pkgs, s), [])
  {
    var n := |s.stack| - 1;
    var cur, popped, next := s.stack[n], s.(stack := s.stack[..n]), Take(pkgs, s);
    assert popped.stack + [cur] == s.stack + [];
    MeetAllKeeps(pkgs, own, popped, cur, DepsOf(pkgs, cur));
    assert next.stack + [] == next.stack;
    forall x | x in next.seen && x !in next.stack ensures Processed(pkgs, next.seen, x) {
      if x != cur {
        assert x !in next.stack + [cur];
      }
    }
    forall x | x in next.stack ensures x in next.seen {
      assert x in next.stack + [cur];
    }
  }

  lemma {:induction false} FinishKeeps(pkgs: Packages, own: string, s: Search)
    requires Walking(pkgs, own, s, [])
    ensures Walking(pkgs, own, Finish(pkgs, s), []) && Finish(pkgs, s).stack == []
    decreases Unmet(pkgs, s), |s.stack|
  {
    if s.stack != [] {
      TakeKeeps(pkgs, own, s);
      TakeShrinks(pkgs, s);
      FinishKeeps(pkgs, own, Take(pkgs, s));
    }
  }

  lemma EverythingMet(pkgs: Packages, own: string, seen: set<string>, dir: string)
    requires own in seen && AllProcessed(pkgs, seen, []) && Reaches(Local(pkgs), own, dir)
    ensures dir in seen
  {
    forall u, v | u in seen && Edge(Local(pkgs), u, v) ensures v in seen {
      assert Processed(pkgs, seen, u);
      var i :| 0 <= i < |pkgs[u]| && pkgs[u][i].target == v;
      assert pkgs[u][i] in DepsOf(pkgs, u);
    }
    ClosedContainsReachable(Local(pkgs), seen, own, dir);
  }

  /** Every directory reachable from our own is met exactly once, and no other is met. */
  lemma MeetingsAreExact(pkgs: Packages, own: string)
    ensures DistinctTargets(Meetings(pkgs, own))
    ensures forall dir :: IsTarget(Meetings(pkgs, own), dir) <==> dir != own && Reaches(Local(pkgs), own, dir)
    ensures forall i :: 0 <= i < |Meetings(pkgs, own)| ==> DependsAs(pkgs, own, Meetings(pkgs, own)[i])
  {
    var start, end := Start(own), Finish(pkgs, Start(own));
    ReachesSelf(Local(pkgs), own);
    assert start.stack + [] == [own];
    assert Walking(pkgs, own, start, []);
    FinishKeeps(pkgs, own, start);
    assert end.stack + [] == [];
    forall dir ensures IsTarget(end.found, dir) <==> dir != own && Reaches(Local(pkgs), own, dir) {
      if Reaches(Local(pkgs), own, dir) {
        EverythingMet(pkgs, own, end.seen, dir);
      }
    }
  }

  // ---- What the dictionary keeps ----

  /** No later meeting has the same name. */
  ghost predicate IsLastOfItsName(found: seq<Dep>, i: int) {
    0 <= i < |found| && forall j :: i < j < |found| ==> found[j].name != found[i].name
  }

  ghost predicate IsLastMeeting(found: seq<Dep>, d: Dep) {
    exists i :: IsLastOfItsName(found, i) && found[i] == d
  }

  lemma LastOfLonger(init: seq<Dep>, last: Dep, i: int)
    requires 0 <= i < |init|
    ensures IsLastOfItsName(init + [last], i) <==> IsLastOfItsName(init, i) && init[i].name != last.name
  {
    var found := init + [last];
    assert forall j :: 0 <= j < |init| ==> found[j] == init[j];
    assert found[|init|] == last;
  }

  lemma LastMeetingOfLonger(init: seq<Dep>, last: Dep, d: Dep)
    ensures IsLastMeeting(init + [last], d) <==> if d.name == last.name then d == last else IsLastMeeting(init, d)
  {
    var found := init + [last];
    assert found[|init|] == last && IsLastOfItsName(found, |init|);
    if IsLastMeeting(found, d) {
      var i :| IsLastOfItsName(found, i) && found[i] == d;
      if i < |init| {
        LastOfLonger(init, last, i);
      }
    }
    if d.name != last.name && IsLastMeeting(init, d) {
      var i :| IsLastOfItsName(init, i) && init[i] == d;
      LastOfLonger(init, last, i);
      assert found[i] == d;
    }
  }

  /** The dictionary holds exactly the last meeting of every name. */
  lemma {:induction false} DictionaryHoldsLastMeetings(found: seq<Dep>, d: Dep)
    ensures (d.name in LastWins(found) && LastWins(found)[d.name] == d) <==> IsLastMeeting(found, d)
    ensures d.name in LastWins(found) ==> LastWins(found)[d.name].name == d.name
    decreases |found|
  {
    if found != [] {
      var n := |found| - 1;
      assert found == found[..n] + [found[n]];
      DictionaryHoldsLastMeetings(found[..n], d);
      LastMeetingOfLonger(found[..n], found[n], d);
    }
  }

  ghost predicate Listed(closure: Closure, dir: string) {
    exists name :: name in closure && closure[name].target == dir
  }

  /** A directory is listed exactly when no later meeting has the name it was met under. */
  lemma ListedIffLast(found: seq<Dep>, i: int)
    requires DistinctTargets(found) && 0 <= i < |found|
    ensures Listed(LastWins(found), found[i].target) <==> IsLastOfItsName(found, i)
  {
    var closure := LastWins(found);
    if Listed(closure, found[i].target) {
      var name :| name in closure && closure[name].target == found[i].target;
      DictionaryHoldsLastMeetings(found, Dep(name, true, ""));
      var d := closure[name];
      DictionaryHoldsLastMeetings(found, d);
      var j :| IsLastOfItsName(found, j) && found[j] == d;
      assert j == i;
    }
    if IsLastOfItsName(found, i) {
      DictionaryHoldsLastMeetings(found, found[i]);
    }
  }

  lemma ListedWasMet(found: seq<Dep>, dir: string)
    requires Listed(LastWins(found), dir)
    ensures IsTarget(found, dir)
  {
    var closure := LastWins(found);
    var name :| name in closure && closure[name].target == dir;
    DictionaryHoldsLastMeetings(found, Dep(name, true, ""));
    DictionaryHoldsLastMeetings(found, closure[name]);
    var i :| IsLastOfItsName(found, i) && found[i] == closure[name];
  }

  ghost predicate DistinctNames(found: seq<Dep>) {
    forall i, j :: 0 <= i < j < |found| ==> found[i].name != found[j].name
  }

  /** The dictionary lists exactly the reachable directories other than our own. */
  ghost predicate LosesNothing(pkgs: Packages, own: string, closure: Closure) {
    forall dir :: Listed(closure, dir) <==> dir != own && Reaches(Local(pkgs), own, dir)
  }

  /** The result is the transitive closure if and only if no two first meetings share a name. */
  lemma ClosureIsExactIffNamesDiffer(pkgs: Packages, own: string)
    ensures LosesNothing(pkgs, own, LastWins(Meetings(pkgs, own))) <==> DistinctNames(Meetings(pkgs, own))
  {
    var found := Meetings(pkgs, own);
    var closure := LastWins(found);
    MeetingsAreExact(pkgs, own);
    if LosesNothing(pkgs, own, closure) {
      forall i, j | 0 <= i < j < |found| ensures found[i].name != found[j].name {
        assert IsTarget(found, found[i].target);
        ListedIffLast(found, i);
      }
    }
    if DistinctNames(found) {
      forall dir ensures Listed(closure, dir) <==> dir != own && Reaches(Local(pkgs), own, dir) {
        if Listed(closure, dir) {
          ListedWasMet(found, dir);
        }
        if IsTarget(found, dir) {
          var i :| 0 <= i < |found| && found[i].target == dir;
          ListedIffLast(found, i);
        }
      }
    }
  }

  /** No two reachable packages use one name for different directories. */
  ghost predicate NamesAreClear(pkgs: Packages, own: string) {
    forall a, b :: DependsAs(pkgs, own, a) && DependsAs(pkgs, own, b) && a.name == b.name ==> a.target == b.target
  }

  /** Whatever the order of the walk, clear names lose nothing. */
  lemma ClearNamesLoseNothing(pkgs: Packages, own: string)
    requires NamesAreClear(pkgs, own)
    ensures LosesNothing(pkgs, own, LastWins(Meetings(pkgs, own)))
  {
    MeetingsAreExact(pkgs, own);
    ClosureIsExactIffNamesDiffer(pkgs, own);
  }

  // ---- A directory that is lost ----

  /** `own` depends on `a` and `a` on `b`, both under the same name. */
  function SharedName(own: string, a: string, b: string, name: string): Packages {
    map[own := [Dep(name, true, a)], a := [Dep(name, true, b)]]
  }

  lemma SharedNameMeetings(own: string, a: string, b: string, name: string)
    requires own != a && own != b && a != b
    ensures Meetings(SharedName(own, a, b, name), own) == [Dep(name, true, a), Dep(name, true, b)]
  {
    var pkgs := SharedName(own, a, b, name);
    var x, y := Dep(name, true, a), Dep(name, true, b);
    var s1, s2, s3 := Search({own, a}, [a], [x]), Search({own, a, b}, [b], [x, y]), Search({own, a, b}, [], [x, y]);
    MeetOne(Search({own}, [], []), x, s1);
    assert Take(pkgs, Start(own)) == s1;
    MeetOne(Search({own, a}, [], [x]), y, s2);
    assert Take(pkgs, s1) == s2;
    assert Take(pkgs, s2) == s3;
    assert Finish(pkgs, s3) == s3;
    assert Finish(pkgs, s2) == s3;
    assert Finish(pkgs, s1) == s3;
  }

  lemma LastOfTwo(x: Dep, y: Dep)
    requires x.name == y.name
    ensures LastWins([x, y]) == map[y.name := y]
  {
    assert [x, y][..1] == [x] && [x][..0] == [];
    assert LastWins([x]) == map[x.name := x];
  }

  /** Both directories are met and reachable; the dictionary holds only the second. */
  lemma SharedNameLosesADirectory(own: string, a: string, b: string, name: string)
    requires own != a && own != b && a != b
    ensures var pkgs := SharedName(own, a, b, name);
      && LastWins(Meetings(pkgs, own)) == map[name := Dep(name, true, b)]
      && Reaches(Local(pkgs), own, a) && !Listed(LastWins(Meetings(pkgs, own)), a)
  {
    var pkgs := SharedName(own, a, b, name);
    SharedNameMeetings(own, a, b, name);
    LastOfTwo(Dep(name, true, a), Dep(name, true, b));
    MeetingsAreExact(pkgs, own);
    assert Meetings(pkgs, own)[0].target == a;
  }

  lemma MeetOne(s: Search, d: Dep, next: Search)
    requires d.target !in s.seen
    requires next == Search(s.seen + {d.target}, s.stack + [d.target], s.found + [d])
    ensures MeetAll(s, [d]) == next
  {
    assert [d][1..] == [];
  }
}
