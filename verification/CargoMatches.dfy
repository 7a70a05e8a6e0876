/**
 Merging the three ways a shell segment can reach cargo (`cargo_matches`) and giving each
 invocation the stretch of text its flags are read from (`_tail_end`, `_classify_shell_line`).
 */
module CargoMatches {
  import opened Text
  import opened ShellMask

  datatype Kind = Literal | Var | Env

  datatype CargoMatch = CargoMatch(start: nat, end: nat, verb: Option<string>, kind: Kind)

  /** The hits of the three expressions in one text, each list in the order `finditer` gives. */
  datatype Found = Found(literals: seq<CargoMatch>, vars: seq<CargoMatch>, envs: seq<CargoMatch>)

  /** Hits of one expression: not empty, inside the text, left to right without overlap. */
  ghost predicate AreHits(text: string, kind: Kind, hits: seq<CargoMatch>) {
    && (forall i :: 0 <= i < |hits| ==> hits[i].kind == kind && hits[i].start < hits[i].end <= |text|)
    && (forall i :: 0 <= i < |hits| ==> (hits[i].verb.None? <==> kind == Env))
    && (forall i, j :: 0 <= i < j < |hits| ==> hits[i].end <= hits[j].start)
  }

  ghost predicate AreFound(text: string, found: Found) {
    AreHits(text, Literal, found.literals) && AreHits(text, Var, found.vars) && AreHits(text, Env, found.envs)
  }

  // ---- A stable sort ----

  function InsertBy<T>(le: (T, T) -> bool, s: seq<T>, x: T): seq<T> {
    if s == [] || le(s[|s| - 1], x) then s + [x] else InsertBy(le, s[..|s| - 1], x) + [s[|s| - 1]]
  }

  function SortBy<T>(le: (T, T) -> bool, s: seq<T>): seq<T> {
    if s == [] then [] else InsertBy(le, SortBy(le, s[..|s| - 1]), s[|s| - 1])
  }

  lemma {:induction false} InsertKeepsElements<T>(le: (T, T) -> bool, s: seq<T>, x: T)
    ensures multiset(InsertBy(le, s, x)) == multiset(s) + multiset{x}
  {
    if s != [] && !le(s[|s| - 1], x) {
      InsertKeepsElements(le, s[..|s| - 1], x);
      assert s == s[..|s| - 1] + [s[|s| - 1]];
    }
  }

  lemma {:induction false} SortKeepsElements<T>(le: (T, T) -> bool, s: seq<T>)
    ensures multiset(SortBy(le, s)) == multiset(s)
  {
    if s != [] {
      SortKeepsElements(le, s[..|s| - 1]);
      InsertKeepsElements(le, SortBy(le, s[..|s| - 1]), s[|s| - 1]);
      assert s == s[..|s| - 1] + [s[|s| - 1]];
    }
  }

  /** Sorting a list already in order changes nothing. */
  lemma {:induction false} SortOfSorted<T>(le: (T, T) -> bool, s: seq<T>)
    requires forall i, j :: 0 <= i < j < |s| ==> le(s[i], s[j])
    ensures SortBy(le, s) == s
  {
    if s != [] {
      SortOfSorted(le, s[..|s| - 1]);
      assert s == s[..|s| - 1] + [s[|s| - 1]];
    }
  }

  predicate ByStart(a: CargoMatch, b: CargoMatch) {
    a.start <= b.start
  }

  function Rank(k: Kind): nat {
    match k case Literal => 0 case Var => 1 case Env => 2
  }

  predicate ByKindThenStart(a: CargoMatch, b: CargoMatch) {
    Rank(a.kind) < Rank(b.kind) || (a.kind == b.kind && a.start <= b.start)
  }

  /** By start, and where two start together a literal before an indirect before a prefix. */
  ghost predicate SortedByStart(s: seq<CargoMatch>) {
    forall i, j :: 0 <= i < j < |s| ==> ComesBefore(s[i], s[j])
  }

  ghost predicate ComesBefore(a: CargoMatch, b: CargoMatch) {
    a.start < b.start || (a.start == b.start && (a.kind == b.kind || a.kind == Literal || b.kind == Env))
  }

  ghost predicate SortedByKind(s: seq<CargoMatch>) {
    forall i, j :: 0 <= i < j < |s| ==> Rank(s[i].kind) <= Rank(s[j].kind)
  }

  lemma {:induction false} InsertKeepsSorted(s: seq<CargoMatch>, x: CargoMatch)
    requires SortedByStart(s) && forall m :: m in s ==> Rank(m.kind) <= Rank(x.kind)
    ensures SortedByStart(InsertBy(ByStart, s, x))
    ensures forall m :: m in InsertBy(ByStart, s, x) ==> m == x || m in s
  {
    if s != [] && !ByStart(s[|s| - 1], x) {
      var init, last := s[..|s| - 1], s[|s| - 1];
      var t := InsertBy(ByStart, init, x);
      InsertKeepsSorted(init, x);
      forall i | 0 <= i < |t| ensures ComesBefore(t[i], last) {
        assert t[i] in t;
      }
    } else if s != [] {
      forall i | 0 <= i < |s| ensures ComesBefore(s[i], x) {
        assert s[i] in s;
        assert i < |s| - 1 ==> ComesBefore(s[i], s[|s| - 1]);
      }
    }
  }

  lemma {:induction false} SortSorts(s: seq<CargoMatch>)
    requires SortedByKind(s)
    ensures SortedByStart(SortBy(ByStart, s))
    ensures forall m :: m in SortBy(ByStart, s) ==> m in s
  {
    if s != [] {
      var init, last := s[..|s| - 1], s[|s| - 1];
      SortSorts(init);
      InsertKeepsSorted(SortBy(ByStart, init), last);
      assert s == init + [last];
    }
  }

  // ---- One invocation per end offset ----

  function KeepFirst(s: seq<CargoMatch>, claimed: set<nat>): seq<CargoMatch> {
    if s == [] then []
    else if s[0].end in claimed then KeepFirst(s[1..], claimed)
    else [s[0]] + KeepFirst(s[1..], claimed + {s[0].end})
  }

  /** The loop with its set of claimed ends. */
  method DropClaimed(s: seq<CargoMatch>) returns (out: seq<CargoMatch>)
    ensures out == KeepFirst(s, {})
  {
    out := [];
    var claimed := {};
    for i := 0 to |s|
      invariant out + KeepFirst(s[i..], claimed) == KeepFirst(s, {})
    {
      assert s[i..][1..] == s[i + 1..];
      if s[i].end !in claimed {
        Assoc(out, [s[i]], KeepFirst(s[i + 1..], claimed + {s[i].end}));
        claimed := claimed + {s[i].end};
        out := out + [s[i]];
      }
    }
  }

  ghost predicate DistinctEnds(s: seq<CargoMatch>) {
    forall i, j :: 0 <= i < j < |s| ==> s[i].end != s[j].end
  }

  /** `s[i]` is the first to end where it ends. */
  ghost predicate FirstOfItsEnd(s: seq<CargoMatch>, i: int) {
    0 <= i < |s| && forall j :: 0 <= j < i ==> s[j].end != s[i].end
  }

  lemma {:induction false} KeepFirstKeeps(s: seq<CargoMatch>, claimed: set<nat>)
    ensures DistinctEnds(KeepFirst(s, claimed))
    ensures forall m :: m in KeepFirst(s, claimed) ==> m.end !in claimed
    ensures forall m :: m in KeepFirst(s, claimed) ==> exists i :: FirstOfItsEnd(s, i) && s[i] == m
    ensures forall i :: FirstOfItsEnd(s, i) && s[i].end !in claimed ==> s[i] in KeepFirst(s, claimed)
  {
    if s != [] {
      var t := s[1..];
      var now := if s[0].end in claimed then claimed else claimed + {s[0].end};
      KeepFirstKeeps(t, now);
      assert FirstOfItsEnd(s, 0);
      forall m | m in KeepFirst(t, now) ensures exists i :: FirstOfItsEnd(s, i) && s[i] == m {
        var i :| FirstOfItsEnd(t, i) && t[i] == m;
        assert m.end != s[0].end;
        assert FirstOfItsEnd(s, i + 1) && s[i + 1] == m;
      }
      forall i | FirstOfItsEnd(s, i) && s[i].end !in claimed && i > 0 ensures s[i] in KeepFirst(t, now) {
        assert FirstOfItsEnd(t, i - 1);
      }
    }
  }

  // ---- The merge ----

  /** `real` holds the command that the prefix `c` is only an assignment for. */
  predicate PrefixOf(gap: string -> bool, text: string, c: CargoMatch, m: CargoMatch) {
    c.end <= m.start <= |text| && gap(text[c.end..m.start])
  }

  function RealOnes(s: seq<CargoMatch>): seq<CargoMatch> {
    if s == [] then [] else (if s[0].kind == Env then [] else [s[0]]) + RealOnes(s[1..])
  }

  predicate Redirects(gap: string -> bool, text: string, reals: seq<CargoMatch>, c: CargoMatch) {
    c.kind != Env || !exists i :: 0 <= i < |reals| && PrefixOf(gap, text, c, reals[i])
  }

  function DropPrefixes(gap: string -> bool, text: string, reals: seq<CargoMatch>, s: seq<CargoMatch>): seq<CargoMatch> {
    if s == [] then []
    else (if Redirects(gap, text, reals, s[0]) then [s[0]] else []) + DropPrefixes(gap, text, reals, s[1..])
  }

  function AllOf(found: Found): seq<CargoMatch> {
    found.literals + found.vars + found.envs
  }

  function Merged(gap: string -> bool, text: string, found: Found): seq<CargoMatch> {
    var out := KeepFirst(SortBy(ByKindThenStart, AllOf(found)), {});
    SortBy(ByStart, DropPrefixes(gap, text, RealOnes(out), out))
  }

  // ---- What the merge keeps ----

  ghost predicate SomeEndsAt(s: seq<CargoMatch>, end: nat) {
    exists i :: 0 <= i < |s| && s[i].end == end
  }

  /** An invocation the text spells out: a literal one, or an indirect one no literal claims. */
  ghost predicate IsInvocation(found: Found, m: CargoMatch) {
    m in found.literals || (m in found.vars && !SomeEndsAt(found.literals, m.end))
  }

  /** An environment prefix that no invocation shares its end with or follows across assignments. */
  ghost predicate IsRedirection(gap: string -> bool, text: string, found: Found, m: CargoMatch) {
    && m in found.envs
    && !SomeEndsAt(found.literals, m.end) && !SomeEndsAt(found.vars, m.end)
    && !Followed(gap, text, found, m)
  }

  lemma HitsHaveDistinctEnds(text: string, kind: Kind, hits: seq<CargoMatch>)
    requires AreHits(text, kind, hits)
    ensures DistinctEnds(hits)
  {
    forall i, j | 0 <= i < j < |hits| ensures hits[i].end != hits[j].end {
      assert hits[i].end <= hits[j].start < hits[j].end;
    }
  }

  /** The three lists one after the other are already in the order of kind, then start. */
  lemma AllInOrder(text: string, found: Found)
    requires AreFound(text, found)
    ensures SortBy(ByKindThenStart, AllOf(found)) == AllOf(found)
  {
    var s := AllOf(found);
    forall i, j | 0 <= i < j < |s| ensures ByKindThenStart(s[i], s[j]) {
    }
    SortOfSorted(ByKindThenStart, s);
  }

  lemma {:induction false} RealOnesAre(s: seq<CargoMatch>)
    ensures forall m :: m in RealOnes(s) <==> m in s && m.kind != Env
  {
    if s != [] {
      RealOnesAre(s[1..]);
      assert s == [s[0]] + s[1..];
    }
  }

  lemma {:induction false} DropPrefixesKeeps(gap: string -> bool, text: string, reals: seq<CargoMatch>, s: seq<CargoMatch>)
    requires DistinctEnds(s)
    ensures DistinctEnds(DropPrefixes(gap, text, reals, s))
    ensures forall m :: m in DropPrefixes(gap, text, reals, s) <==> m in s && Redirects(gap, text, reals, m)
  {
    if s != [] {
      var t := s[1..];
      DropPrefixesKeeps(gap, text, reals, t);
      assert s == [s[0]] + t;
      forall m | m in DropPrefixes(gap, text, reals, t) ensures m.end != s[0].end {
        assert m in t;
      }
    }
  }

  lemma AppendEnds(a: seq<CargoMatch>, b: seq<CargoMatch>, end: nat)
    ensures SomeEndsAt(a + b, end) <==> SomeEndsAt(a, end) || SomeEndsAt(b, end)
  {
    var s := a + b;
    if i :| 0 <= i < |a| && a[i].end == end {
      assert s[i].end == end;
    }
    if i :| 0 <= i < |b| && b[i].end == end {
      assert s[|a| + i].end == end;
    }
  }

  ghost predicate IsFirst(s: seq<CargoMatch>, m: CargoMatch) {
    exists i :: FirstOfItsEnd(s, i) && s[i] == m
  }

  lemma KeptIsFirst(s: seq<CargoMatch>, m: CargoMatch)
    ensures m in KeepFirst(s, {}) <==> IsFirst(s, m)
  {
    KeepFirstKeeps(s, {});
  }

  lemma FirstBefore(a: seq<CargoMatch>, b: seq<CargoMatch>, i: int)
    requires 0 <= i < |a|
    ensures FirstOfItsEnd(a + b, i) <==> FirstOfItsEnd(a, i)
  {
    assert forall j :: 0 <= j < |a| ==> (a + b)[j] == a[j];
  }

  lemma FirstAfter(a: seq<CargoMatch>, b: seq<CargoMatch>, i: int)
    requires 0 <= i < |b| && DistinctEnds(b)
    ensures FirstOfItsEnd(a + b, |a| + i) <==> !SomeEndsAt(a, b[i].end)
  {
    var s := a + b;
    assert forall j :: 0 <= j < |a| ==> s[j] == a[j];
    assert forall j :: 0 <= j < |b| ==> s[|a| + j] == b[j];
    if !SomeEndsAt(a, b[i].end) {
      forall j | 0 <= j < |a| + i ensures s[j].end != s[|a| + i].end {
        if j >= |a| {
          assert s[j] == b[j - |a|];
        }
      }
    }
  }

  /** Appending a list with distinct ends adds exactly those whose end is still free. */
  lemma FirstOfAppend(a: seq<CargoMatch>, b: seq<CargoMatch>, m: CargoMatch)
    requires DistinctEnds(b)
    ensures IsFirst(a + b, m) <==> IsFirst(a, m) || (m in b && !SomeEndsAt(a, m.end))
  {
    var s := a + b;
    if IsFirst(s, m) {
      var i :| FirstOfItsEnd(s, i) && s[i] == m;
      if i < |a| {
        FirstBefore(a, b, i);
      } else {
        FirstAfter(a, b, i - |a|);
      }
    }
    if IsFirst(a, m) {
      var i :| FirstOfItsEnd(a, i) && a[i] == m;
      FirstBefore(a, b, i);
      assert s[i] == m;
    }
    if m in b {
      var i :| 0 <= i < |b| && b[i] == m;
      FirstAfter(a, b, i);
      assert s[|a| + i] == m;
    }
  }

  /** After the duplicates on end offset are gone. */
  lemma KeptByEnd(text: string, found: Found, m: CargoMatch)
    requires AreFound(text, found)
    ensures m in KeepFirst(AllOf(found), {}) <==>
      || IsInvocation(found, m)
      || (m in found.envs && !SomeEndsAt(found.literals, m.end) && !SomeEndsAt(found.vars, m.end))
  {
    HitsHaveDistinctEnds(text, Literal, found.literals);
    HitsHaveDistinctEnds(text, Var, found.vars);
    HitsHaveDistinctEnds(text, Env, found.envs);
    KeptIsFirst(AllOf(found), m);
    FirstOfAppend([], found.literals, m);
    assert [] + found.literals == found.literals;
    FirstOfAppend(found.literals, found.vars, m);
    FirstOfAppend(found.literals + found.vars, found.envs, m);
    AppendEnds(found.literals, found.vars, m.end);
  }

  /** A sort moves elements and neither adds nor drops one. */
  lemma SortKeepsEnds(s: seq<CargoMatch>)
    requires DistinctEnds(s)
    ensures DistinctEnds(SortBy(ByStart, s)) && forall m :: m in SortBy(ByStart, s) <==> m in s
  {
    var r := SortBy(ByStart, s);
    SortKeepsElements(ByStart, s);
    forall m ensures m in r <==> m in s {
      assert m in multiset(r) <==> m in multiset(s);
    }
    forall i, j | 0 <= i < j < |r| ensures r[i].end != r[j].end {
      if r[i].end == r[j].end {
        SameEndSame(s, r[i], r[j]);
        TwiceCounts(r, i, j);
        OnceCounts(s, r[i]);
      }
    }
  }

  lemma SameEndSame(s: seq<CargoMatch>, a: CargoMatch, b: CargoMatch)
    requires DistinctEnds(s) && a in s && b in s && a.end == b.end
    ensures a == b
  {
    var i :| 0 <= i < |s| && s[i] == a;
    var j :| 0 <= j < |s| && s[j] == b;
    assert i == j;
  }

  lemma {:induction false} TwiceCounts(s: seq<CargoMatch>, i: nat, j: nat)
    requires i < j < |s| && s[i] == s[j]
    ensures multiset(s)[s[i]] >= 2
  {
    assert s == s[..j] + [s[j]] + s[j + 1..];
    assert s[i] in s[..j];
  }

  lemma {:induction false} OnceCounts(s: seq<CargoMatch>, m: CargoMatch)
    requires DistinctEnds(s)
    ensures multiset(s)[m] <= 1
    decreases |s|
  {
    if s != [] {
      var t := s[..|s| - 1];
      assert s == t + [s[|s| - 1]];
      OnceCounts(t, m);
      if m == s[|s| - 1] {
        forall i | 0 <= i < |t| ensures t[i] != m {
          assert s[i].end != m.end;
        }
      }
    }
  }

  lemma AllByKind(text: string, found: Found)
    requires AreFound(text, found)
    ensures SortedByKind(AllOf(found))
  {
  }

  lemma HeadByKind(s: seq<CargoMatch>, rest: seq<CargoMatch>)
    requires s != [] && SortedByKind(s) && SortedByKind(rest) && forall m :: m in rest ==> m in s[1..]
    ensures SortedByKind([s[0]] + rest)
  {
    forall i | 0 <= i < |rest| ensures Rank(s[0].kind) <= Rank(rest[i].kind) {
      assert rest[i] in s[1..];
      var k :| 0 <= k < |s[1..]| && s[1..][k] == rest[i];
      assert s[k + 1] == rest[i];
    }
  }

  lemma {:induction false} KeepFirstByKind(s: seq<CargoMatch>, claimed: set<nat>)
    requires SortedByKind(s)
    ensures SortedByKind(KeepFirst(s, claimed)) && forall m :: m in KeepFirst(s, claimed) ==> m in s
  {
    if s != [] {
      var now := if s[0].end in claimed then claimed else claimed + {s[0].end};
      KeepFirstByKind(s[1..], now);
      HeadByKind(s, KeepFirst(s[1..], now));
    }
  }

  lemma {:induction false} DropPrefixesByKind(gap: string -> bool, text: string, reals: seq<CargoMatch>, s: seq<CargoMatch>)
    requires SortedByKind(s)
    ensures SortedByKind(DropPrefixes(gap, text, reals, s)) && forall m :: m in DropPrefixes(gap, text, reals, s) ==> m in s
  {
    if s != [] {
      DropPrefixesByKind(gap, text, reals, s[1..]);
      HeadByKind(s, DropPrefixes(gap, text, reals, s[1..]));
    }
  }

  /**
   The merge, exactly: in the order of start, one match per end offset, every invocation kept,
   and a prefix kept unless an invocation shares its end or follows it across assignments alone.
   */
  lemma MergeIsExact(gap: string -> bool, text: string, found: Found)
    requires AreFound(text, found)
    ensures SortedByStart(Merged(gap, text, found)) && DistinctEnds(Merged(gap, text, found))
    ensures forall m :: m in Merged(gap, text, found) <==> IsInvocation(found, m) || IsRedirection(gap, text, found, m)
  {
    var out := KeepFirst(AllOf(found), {});
    var reals := RealOnes(out);
    var kept := DropPrefixes(gap, text, reals, out);
    AllInOrder(text, found);
    KeepFirstKeeps(AllOf(found), {});
    DropPrefixesKeeps(gap, text, reals, out);
    AllByKind(text, found);
    KeepFirstByKind(AllOf(found), {});
    DropPrefixesByKind(gap, text, reals, out);
    SortSorts(kept);
    SortKeepsEnds(kept);
    forall m ensures m in kept <==> IsInvocation(found, m) || IsRedirection(gap, text, found, m) {
      KeptExactly(gap, text, found, m);
    }
  }

  /** `cargo_matches`: on the hits of the three expressions, every invocation and every redirection
      of the text once, in the order of start, one per end offset. */
  method Merge(gap: string -> bool, text: string, found: Found) returns (r: seq<CargoMatch>)
    ensures r == Merged(gap, text, found)
    ensures AreFound(text, found) ==> SortedByStart(r) && DistinctEnds(r)
    ensures AreFound(text, found) ==>
      forall m :: m in r <==> IsInvocation(found, m) || IsRedirection(gap, text, found, m)
  {
    var out := DropClaimed(SortBy(ByKindThenStart, AllOf(found)));
    var reals := RealOnes(out);
    r := SortBy(ByStart, DropPrefixes(gap, text, reals, out));
    if AreFound(text, found) {
      MergeIsExact(gap, text, found);
    }
  }

  lemma RealsAreInvocations(text: string, found: Found, r: CargoMatch)
    requires AreFound(text, found)
    ensures r in RealOnes(KeepFirst(AllOf(found), {})) <==> IsInvocation(found, r)
  {
    RealOnesAre(KeepFirst(AllOf(found), {}));
    KeptByEnd(text, found, r);
  }

  /** Some invocation follows the prefix across assignments alone. */
  ghost predicate Followed(gap: string -> bool, text: string, found: Found, m: CargoMatch) {
    exists r :: IsInvocation(found, r) && m.end <= r.start <= |text| && gap(text[m.end..r.start])
  }

  lemma RedirectsExactly(gap: string -> bool, text: string, found: Found, reals: seq<CargoMatch>, m: CargoMatch)
    requires forall r :: r in reals <==> IsInvocation(found, r)
    ensures Redirects(gap, text, reals, m) <==> m.kind != Env || !Followed(gap, text, found, m)
  {
    if Followed(gap, text, found, m) {
      var r :| IsInvocation(found, r) && PrefixOf(gap, text, m, r);
      var i :| 0 <= i < |reals| && reals[i] == r;
      assert PrefixOf(gap, text, m, reals[i]);
    }
    if i :| 0 <= i < |reals| && PrefixOf(gap, text, m, reals[i]) {
      assert reals[i] in reals;
    }
  }

  lemma KindsOfHits(text: string, found: Found, m: CargoMatch)
    requires AreFound(text, found)
    ensures m in found.envs ==> m.kind == Env && !IsInvocation(found, m)
    ensures IsInvocation(found, m) ==> m.kind != Env
  {
  }

  lemma KeptExactly(gap: string -> bool, text: string, found: Found, m: CargoMatch)
    requires AreFound(text, found)
    ensures var out := KeepFirst(AllOf(found), {});
      (m in out && Redirects(gap, text, RealOnes(out), m)) <==> (IsInvocation(found, m) || IsRedirection(gap, text, found, m))
  {
    var reals := RealOnes(KeepFirst(AllOf(found), {}));
    KeptByEnd(text, found, m);
    KindsOfHits(text, found, m);
    forall r ensures r in reals <==> IsInvocation(found, r) {
      RealsAreInvocations(text, found, r);
    }
    RedirectsExactly(gap, text, found, reals, m);
  }

  // ---- The stretch of text an invocation's flags are read from ----

  const PARENS := Opening(1, '(', ')', 1)

  /** A backtick, or a `)` that no `(` after the invocation opened. */
  ghost predicate EndsInvocation(segment: string, from: nat, i: nat)
    requires from <= i < |segment|
  {
    segment[i] == '`' || (segment[i] == ')' && Balance(segment, PARENS, from, i) == 0)
  }

  function TailFrom(segment: string, i: nat, stop: nat, depth: nat): nat
    decreases stop - i
  {
    if i >= stop || i >= |segment| then stop
    else if segment[i] == '(' then TailFrom(segment, i + 1, stop, depth + 1)
    else if segment[i] == ')' then if depth == 0 then i else TailFrom(segment, i + 1, stop, depth - 1)
    else if segment[i] == '`' then i
    else TailFrom(segment, i + 1, stop, depth)
  }

  /** `_tail_end`. */
  method TailEnd(segment: string, from: nat, stop: nat) returns (end: nat)
    ensures end == TailFrom(segment, from, stop, 0)
  {
    var depth, i := 0, from;
    while i < stop && i < |segment|
      invariant depth >= 0 && TailFrom(segment, i, stop, depth) == TailFrom(segment, from, stop, 0)
    {
      if segment[i] == '(' {
        depth := depth + 1;
      } else if segment[i] == ')' {
        if depth == 0 {
          return i;
        }
        depth := depth - 1;
      } else if segment[i] == '`' {
        return i;
      }
      i := i + 1;
    }
    return stop;
  }

  /** The tail stops at the first character that ends the invocation, or at the hard stop. */
  lemma {:induction false} TailIsExact(segment: string, from: nat, i: nat, stop: nat, depth: nat)
    requires from <= i <= stop <= |segment| && depth == Balance(segment, PARENS, from, i)
    ensures var end := TailFrom(segment, i, stop, depth);
      && i <= end <= stop
      && (end < stop ==> EndsInvocation(segment, from, end))
      && forall k :: i <= k < end ==> !EndsInvocation(segment, from, k)
    decreases stop - i
  {
    if i < stop {
      BalanceConcat(segment, PARENS, from, i, i + 1);
      assert Balance(segment, PARENS, i + 1, i + 1) == 0;
      if !EndsInvocation(segment, from, i) {
        TailIsExact(segment, from, i + 1, stop, depth + Weight(PARENS, segment[i]));
      }
    }
  }
}
