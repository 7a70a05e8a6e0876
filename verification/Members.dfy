/**
 The workspace member rules: Dependabot's one-level expansion of a `members` entry
 (`dependabot_expand_member`), A9 over it, and A11, which forbids globs altogether.
 */
module Members {
  import opened Text

  datatype Child = Child(name: string, isDir: bool)

  /** What is below the Rust workspace: the children of a directory, none when it is not one. */
  type Tree = string -> Option<seq<Child>>

  predicate IsName(name: string) {
    name != [] && '/' !in name
  }

  /** File names are not empty and hold no `/`. */
  ghost predicate IsTree(tree: Tree) {
    forall dir :: tree(dir).Some? ==> forall i :: 0 <= i < |tree(dir).value| ==> IsName(tree(dir).value[i].name)
  }

  /** `fnmatch.fnmatchcase` without brackets: `*` takes any text, also `/`. */
  predicate Fnmatch(pattern: string, s: string)
    decreases |pattern|
  {
    if pattern == [] then s == []
    else if pattern[0] == '*' then exists k :: 0 <= k <= |s| && Fnmatch(pattern[1..], s[k..])
    else s != [] && (pattern[0] == '?' || pattern[0] == s[0]) && Fnmatch(pattern[1..], s[1..])
  }

  /** A character of the pattern takes `s[a..b]`: any text for `*`, one character otherwise. */
  ghost predicate Takes(c: char, s: string, a: nat, b: nat) {
    && a <= b <= |s|
    && (c != '*' ==> b == a + 1 && (c == s[a] || c == '?'))
  }

  /** `cuts` cuts the text into one piece for each character of the pattern. */
  ghost predicate IsFit(pattern: string, s: string, cuts: seq<nat>) {
    && |cuts| == |pattern| + 1 && cuts[0] == 0 && cuts[|pattern|] == |s|
    && forall k :: 0 <= k < |pattern| ==> Takes(pattern[k], s, cuts[k], cuts[k + 1])
  }

  /** `fnmatchcase` accepts a text exactly when it can be cut into such pieces. */
  lemma FnmatchIsExact(pattern: string, s: string)
    ensures Fnmatch(pattern, s) <==> exists cuts :: IsFit(pattern, s, cuts)
  {
    if Fnmatch(pattern, s) {
      var cuts := FitOf(pattern, s);
    }
    forall cuts | IsFit(pattern, s, cuts) ensures Fnmatch(pattern, s) {
      FitMatches(pattern, s, cuts);
    }
  }

  /** The first piece ends at `k`. */
  lemma {:induction false} FitOf(pattern: string, s: string) returns (cuts: seq<nat>)
    requires Fnmatch(pattern, s)
    ensures IsFit(pattern, s, cuts)
    decreases |pattern|
  {
    if pattern == [] {
      return [0];
    }
    var k := 1;
    if pattern[0] == '*' {
      k :| 0 <= k <= |s| && Fnmatch(pattern[1..], s[k..]);
    }
    var rest := FitOf(pattern[1..], s[k..]);
    cuts := [0] + seq(|rest|, i requires 0 <= i < |rest| => k + rest[i]);
    forall i | 0 <= i < |pattern| ensures Takes(pattern[i], s, cuts[i], cuts[i + 1]) {
      if i > 0 {
        assert Takes(pattern[1..][i - 1], s[k..], rest[i - 1], rest[i]);
      }
    }
  }

  lemma {:induction false} FitMatches(pattern: string, s: string, cuts: seq<nat>)
    requires IsFit(pattern, s, cuts)
    ensures Fnmatch(pattern, s)
    decreases |pattern|
  {
    if pattern != [] {
      var k := cuts[1];
      assert Takes(pattern[0], s, cuts[0], cuts[1]);
      forall i | 1 <= i <= |pattern| ensures k <= cuts[i] {
        CutsGrow(pattern, s, cuts, i);
      }
      var rest: seq<nat> := seq(|pattern|, i requires 0 <= i < |pattern| && k <= cuts[i + 1] => (cuts[i + 1] - k) as nat);
      forall i | 0 <= i < |pattern| - 1 ensures Takes(pattern[1..][i], s[k..], rest[i], rest[i + 1]) {
        assert Takes(pattern[i + 1], s, cuts[i + 1], cuts[i + 2]);
      }
      FitMatches(pattern[1..], s[k..], rest);
    }
  }

  lemma {:induction false} CutsGrow(pattern: string, s: string, cuts: seq<nat>, i: nat)
    requires IsFit(pattern, s, cuts) && 1 <= i <= |pattern|
    ensures cuts[1] <= cuts[i]
  {
    if i > 1 {
      CutsGrow(pattern, s, cuts, i - 1);
      assert Takes(pattern[i - 1], s, cuts[i - 1], cuts[i]);
    }
  }

  /** Bracket expressions are decided by `brackets`. */
  predicate EntryMatches(brackets: (string, string) -> bool, entry: string, s: string) {
    if '[' in entry then brackets(entry, s) else Fnmatch(entry, s)
  }

  /** The text up to the first `*`. */
  function BeforeStar(entry: string): string {
    var at := Find(entry, '*', 0);
    if at < 0 then entry else entry[..at]
  }

  function LastSlash(s: string): (r: int)
    ensures -1 <= r < |s| && (forall i :: r < i < |s| ==> s[i] != '/') && (r >= 0 ==> s[r] == '/')
  {
    if s == [] then -1 else if s[|s| - 1] == '/' then |s| - 1 else LastSlash(s[..|s| - 1])
  }

  /** The text up to and with the last `/`; without a `/` nothing is cut. */
  function Listed(entry: string): (prefix: string) {
    var s := BeforeStar(entry);
    if LastSlash(s) < 0 then s else s[..LastSlash(s) + 1]
  }

  /** The first `*` stands at `star`, and `entry[..n]` is the text in front of it up to and with its
      last `/`, or all of it when it has none. */
  ghost predicate IsListedUpTo(entry: string, star: int, n: int) {
    && 0 <= n <= star < |entry| && entry[star] == '*' && (forall i :: 0 <= i < star ==> entry[i] != '*')
    && (forall i :: n <= i < star ==> entry[i] != '/')
    && (if exists i :: 0 <= i < star && entry[i] == '/' then n > 0 && entry[n - 1] == '/' else n == star)
  }

  lemma ListedIsExact(entry: string, star: int, n: int)
    requires IsListedUpTo(entry, star, n)
    ensures Listed(entry) == entry[..n]
  {
    var s := BeforeStar(entry);
    assert Find(entry, '*', 0) == star && s == entry[..star];
    assert forall i :: 0 <= i < star ==> s[i] == entry[i];
    var last := LastSlash(s);
    if n < star {
      assert s[n - 1] == '/';
    }
    assert last >= 0 ==> entry[last] == '/';
    assert n > 0 && entry[n - 1] == '/' ==> last == n - 1;
    assert last >= 0 ==> s[..last + 1] == entry[..last + 1];
  }

  ghost predicate IsCandidate(tree: Tree, entry: string, c: string, child: Child) {
    tree(Listed(entry)).Some? && child in tree(Listed(entry)).value && child.isDir && c == Listed(entry) + child.name
  }

  /** `c` is one of the members the entry stands for. */
  ghost predicate Expands(tree: Tree, brackets: (string, string) -> bool, entry: string, c: string) {
    if '*' !in entry then c == entry
    else EntryMatches(brackets, entry, c) && exists child :: IsCandidate(tree, entry, c, child)
  }

  method ExpandMember(tree: Tree, brackets: (string, string) -> bool, entry: string) returns (out: set<string>)
    ensures forall c :: c in out <==> Expands(tree, brackets, entry, c)
  {
    if '*' !in entry {
      return {entry};
    }
    var prefix := Listed(entry);
    out := {};
    if tree(prefix).None? {
      return;
    }
    var children := tree(prefix).value;
    for i := 0 to |children|
      invariant forall c :: c in out <==>
        EntryMatches(brackets, entry, c) && exists j :: 0 <= j < i && children[j].isDir && c == prefix + children[j].name
    {
      var candidate := prefix + children[i].name;
      if children[i].isDir && EntryMatches(brackets, entry, candidate) {
        out := out + {candidate};
      }
    }
    forall c | Expands(tree, brackets, entry, c) ensures c in out {
      var child :| IsCandidate(tree, entry, c, child);
      var j :| 0 <= j < |children| && children[j] == child;
    }
    forall c | c in out ensures Expands(tree, brackets, entry, c) {
      var j :| 0 <= j < |children| && children[j].isDir && c == prefix + children[j].name;
      assert IsCandidate(tree, entry, c, children[j]);
    }
  }

  // ---- A `/` after the first `*` ----

  /** Every `/` of the pattern takes a `/` of the text. */
  lemma {:induction false} MatchNeedsSlashes(pattern: string, s: string)
    requires Fnmatch(pattern, s)
    ensures Slashes(s) >= Slashes(pattern)
    decreases |pattern|
  {
    if pattern != [] {
      if pattern[0] == '*' {
        var k :| 0 <= k <= |s| && Fnmatch(pattern[1..], s[k..]);
        MatchNeedsSlashes(pattern[1..], s[k..]);
        SlashesConcat(s[..k], s[k..]);
        assert s == s[..k] + s[k..];
      } else {
        MatchNeedsSlashes(pattern[1..], s[1..]);
      }
    }
  }

  lemma ListedSlashes(entry: string)
    ensures Slashes(Listed(entry)) == Slashes(BeforeStar(entry))
  {
    var s := BeforeStar(entry);
    var cut := LastSlash(s) + 1;
    if cut > 0 {
      assert s == s[..cut] + s[cut..];
      SlashesConcat(s[..cut], s[cut..]);
      NoSlashes(s[cut..]);
    }
  }

  /** The first `*` is followed, somewhere, by a `/`. */
  predicate SlashAfterStar(entry: string) {
    var at := Find(entry, '*', 0);
    at >= 0 && '/' in entry[at..]
  }

  /** On every tree, an entry with a `/` after its first `*` stands for nothing. */
  lemma SlashAfterStarExpandsToNothing(tree: Tree, brackets: (string, string) -> bool, entry: string, c: string)
    requires IsTree(tree) && '[' !in entry && SlashAfterStar(entry)
    ensures !Expands(tree, brackets, entry, c)
  {
    if Expands(tree, brackets, entry, c) {
      var child :| IsCandidate(tree, entry, c, child);
      var at := Find(entry, '*', 0);
      ListedSlashes(entry);
      SlashesConcat(Listed(entry), child.name);
      NoSlashes(child.name);
      MatchNeedsSlashes(entry, c);
      assert entry == entry[..at] + entry[at..];
      SlashesConcat(entry[..at], entry[at..]);
      NoSlashes(entry[at..]);
      assert false;
    }
  }

  /** The pattern with its stars taken for nothing. */
  function WithoutStars(pattern: string): string {
    if pattern == [] then [] else (if pattern[0] == '*' then [] else [pattern[0]]) + WithoutStars(pattern[1..])
  }

  lemma {:induction false} MatchesWithoutStars(pattern: string)
    ensures Fnmatch(pattern, WithoutStars(pattern))
    ensures '/' !in pattern ==> '/' !in WithoutStars(pattern)
  {
    if pattern != [] {
      var s := WithoutStars(pattern);
      MatchesWithoutStars(pattern[1..]);
      if pattern[0] == '*' {
        assert s[0..] == s;
        assert Fnmatch(pattern[1..], s[0..]);
      }
    }
  }

  lemma {:induction false} LiteralPrefixMatches(p: string, q: string, s: string)
    requires '*' !in p && Fnmatch(q, s)
    ensures Fnmatch(p + q, p + s)
  {
    if p == [] {
      assert p + q == q && p + s == s;
    } else {
      LiteralPrefixMatches(p[1..], q, s);
      assert (p + q)[1..] == p[1..] + q && (p + s)[1..] == p[1..] + s;
    }
  }

  lemma StarTakesOne(after: string)
    ensures Fnmatch(['*'] + after, ['x'] + WithoutStars(after))
  {
    var pattern, text := ['*'] + after, ['x'] + WithoutStars(after);
    MatchesWithoutStars(after);
    assert pattern[1..] == after && text[1..] == WithoutStars(after);
    assert Fnmatch(pattern[1..], text[1..]);
  }

  lemma CutAtLastSlash(before: string) returns (rest: string)
    ensures '/' !in rest
    ensures before == (if LastSlash(before) < 0 then before else before[..LastSlash(before) + 1]) + rest
  {
    if LastSlash(before) < 0 {
      rest := [];
    } else {
      rest := before[LastSlash(before) + 1..];
    }
  }

  /** A name that the rest of the entry, from its last literal `/` on, matches. */
  lemma NameFor(entry: string) returns (name: string)
    requires '*' in entry && !SlashAfterStar(entry)
    ensures IsName(name) && Fnmatch(entry, Listed(entry) + name)
  {
    var at := Find(entry, '*', 0);
    var before, after := entry[..at], entry[at + 1..];
    assert entry[at..] == ['*'] + after && entry == before + (['*'] + after);
    var text := ['x'] + WithoutStars(after);
    assert '/' !in text by {
      MatchesWithoutStars(after);
    }
    StarTakesOne(after);
    LiteralPrefixMatches(before, ['*'] + after, text);
    var rest := CutAtLastSlash(before);
    name := rest + text;
    Assoc(Listed(entry), rest, text);
  }

  /** A glob entry can stand for something, on some tree, exactly when no `/` follows its first `*`. */
  lemma SomeTreeExpands(brackets: (string, string) -> bool, entry: string)
    requires '*' in entry && '[' !in entry
    ensures (exists tree: Tree, c :: IsTree(tree) && Expands(tree, brackets, entry, c)) <==> !SlashAfterStar(entry)
  {
    if SlashAfterStar(entry) {
      forall tree: Tree, c | IsTree(tree) ensures !Expands(tree, brackets, entry, c) {
        SlashAfterStarExpandsToNothing(tree, brackets, entry, c);
      }
    } else {
      var name := NameFor(entry);
      var child := Child(name, true);
      var tree: Tree := dir => Some([child]);
      assert tree(Listed(entry)).value[0] == child;
      assert IsCandidate(tree, entry, Listed(entry) + name, child);
      assert IsTree(tree) && Expands(tree, brackets, entry, Listed(entry) + name);
    }
  }

  // ---- A9 and A11 ----

  /** The crate directories under `rs/`, in the frame of the `members` entries. */
  ghost predicate IsWanted(sources: seq<string>, dir: string) {
    exists i :: 0 <= i < |sources| && sources[i] == "rs/" + dir
  }

  ghost predicate IsReached(tree: Tree, brackets: (string, string) -> bool, members: seq<string>, dir: string) {
    exists i :: 0 <= i < |members| && Expands(tree, brackets, members[i], dir)
  }

  ghost predicate StandsForNothing(tree: Tree, brackets: (string, string) -> bool, entry: string) {
    forall c :: !Expands(tree, brackets, entry, c)
  }

  datatype Report = Report(empty: seq<string>, missing: set<string>, nothingToCompare: bool)

  predicate IsClean(r: Report) {
    r.empty == [] && r.missing == {} && !r.nothingToCompare
  }

  /** Empty entries, crates no entry reaches, and the floor that something is compared at all. */
  ghost predicate IsReport(tree: Tree, brackets: (string, string) -> bool, members: seq<string>, sources: seq<string>, r: Report) {
    && (forall e :: e in r.empty <==> e in members && StandsForNothing(tree, brackets, e))
    && (forall dir :: dir in r.missing <==> IsWanted(sources, dir) && !IsReached(tree, brackets, members, dir))
    && (r.nothingToCompare <==> !exists dir :: IsWanted(sources, dir))
  }

  /** `check_member_globs` (A9). */
  method CheckMemberGlobs(tree: Tree, brackets: (string, string) -> bool, members: seq<string>, sources: seq<string>)
    returns (r: Report)
    ensures IsReport(tree, brackets, members, sources, r)
  {
    var empty, reachable: set<string> := [], {};
    for i := 0 to |members|
      invariant forall e :: e in empty <==> e in members[..i] && StandsForNothing(tree, brackets, e)
      invariant forall c :: c in reachable <==> IsReached(tree, brackets, members[..i], c)
    {
      var expanded := ExpandMember(tree, brackets, members[i]);
      ReachedMore(tree, brackets, members, i);
      reachable := reachable + expanded;
      if expanded == {} {
        empty := empty + [members[i]];
      }
    }
    assert members[..|members|] == members;
    var want := WantedDirs(sources);
    r := Report(empty, want - reachable, want == {});
  }

  lemma ReachedMore(tree: Tree, brackets: (string, string) -> bool, members: seq<string>, i: nat)
    requires i < |members|
    ensures forall c :: IsReached(tree, brackets, members[..i + 1], c) <==>
      IsReached(tree, brackets, members[..i], c) || Expands(tree, brackets, members[i], c)
    ensures members[..i + 1] == members[..i] + [members[i]]
  {
    var a, b := members[..i], members[..i + 1];
    assert b == a + [members[i]];
    forall c ensures IsReached(tree, brackets, b, c) <==> IsReached(tree, brackets, a, c) || Expands(tree, brackets, members[i], c) {
      if j :| 0 <= j < |a| && Expands(tree, brackets, a[j], c) {
        assert b[j] == a[j];
      }
      if Expands(tree, brackets, members[i], c) {
        assert b[i] == members[i];
      }
    }
  }

  method WantedDirs(sources: seq<string>) returns (want: set<string>)
    ensures forall dir :: dir in want <==> IsWanted(sources, dir)
  {
    want := {};
    for i := 0 to |sources|
      invariant forall dir :: dir in want <==> IsWanted(sources[..i], dir)
    {
      var s := sources[i];
      WantedMore(sources, i);
      if StartsWith(s, "rs/") {
        assert s == "rs/" + s[3..];
        want := want + {s[3..]};
      }
    }
    assert sources[..|sources|] == sources;
  }

  lemma WantedMore(sources: seq<string>, i: nat)
    requires i < |sources|
    ensures forall dir :: IsWanted(sources[..i + 1], dir) <==> IsWanted(sources[..i], dir) || sources[i] == "rs/" + dir
  {
    var a, b := sources[..i], sources[..i + 1];
    forall dir ensures IsWanted(b, dir) <==> IsWanted(a, dir) || sources[i] == "rs/" + dir {
      if j :| 0 <= j < |a| && a[j] == "rs/" + dir {
        assert b[j] == a[j];
      }
      assert b[i] == sources[i];
    }
  }

  /** `check_member_literals` (A11): the entries that carry a glob character. */
  function GlobEntries(members: seq<string>): (r: seq<string>)
    ensures forall e :: e in r <==> e in members && ('*' in e || '?' in e || '[' in e)
  {
    if members == [] then []
    else
      var e := members[0];
      (if '*' in e || '?' in e || '[' in e then [e] else []) + GlobEntries(members[1..])
  }

  /** With A11 clean and a crate to compare, A9 is clean exactly when every crate directory is listed literally. */
  lemma LiteralMembers(tree: Tree, brackets: (string, string) -> bool, members: seq<string>, sources: seq<string>, r: Report)
    requires GlobEntries(members) == []
    requires exists dir :: IsWanted(sources, dir)
    requires IsReport(tree, brackets, members, sources, r)
    ensures forall i, c :: 0 <= i < |members| ==> (Expands(tree, brackets, members[i], c) <==> c == members[i])
    ensures IsClean(r) <==> forall dir :: IsWanted(sources, dir) ==> dir in members
  {
    forall i, c | 0 <= i < |members| ensures Expands(tree, brackets, members[i], c) <==> c == members[i] {
      assert members[i] in members && members[i] !in GlobEntries(members);
    }
    forall dir ensures IsReached(tree, brackets, members, dir) <==> dir in members {
      if dir in members {
        var i :| 0 <= i < |members| && members[i] == dir;
        assert Expands(tree, brackets, members[i], dir);
      }
    }
    if r.empty != [] {
      var e := r.empty[0];
      assert e in r.empty;
      var i :| 0 <= i < |members| && members[i] == e;
      assert Expands(tree, brackets, members[i], e);
      assert false;
    }
  }
}
