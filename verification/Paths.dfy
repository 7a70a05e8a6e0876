/**
 The paths of `link:` entries (`posixpath.join` and `posixpath.normpath`, as `node_for` of
 ci/osv/shipped_reachability.py uses them), and where a path leads.
 */
module Paths {
  import opened Text

  /** `posixpath.join` of two parts. */
  function JoinPath(a: string, b: string): string {
    if IsRooted(b) then b
    else if a == "" || a[|a| - 1] == '/' then a + b
    else a + "/" + b
  }

  predicate IsRooted(path: string) {
    path != "" && path[0] == '/'
  }

  /** An empty part or `.`. */
  predicate IsStay(part: string) {
    part == "" || (|part| == 1 && part[0] == '.')
  }

  /** The part `..`. */
  predicate IsUp(part: string) {
    |part| == 2 && part[0] == '.' && part[1] == '.'
  }

  function Collapse(parts: seq<string>, rooted: bool, out: seq<string>): seq<string>
    decreases |parts|
  {
    if parts == [] then out
    else
      var p, rest := parts[0], parts[1..];
      if IsStay(p) then Collapse(rest, rooted, out)
      else if !IsUp(p) || (!rooted && out == []) || (out != [] && IsUp(out[|out| - 1])) then
        Collapse(rest, rooted, out + [p])
      else Collapse(rest, rooted, if out == [] then out else out[..|out| - 1])
  }

  /** The slashes that `normpath` keeps in front: two stay two, three or more become one. */
  function LeadingSlashes(path: string): (n: nat)
    ensures n <= 2 && (n == 0 <==> !IsRooted(path))
  {
    if !IsRooted(path) then 0
    else if |path| >= 2 && path[1] == '/' && !(|path| >= 3 && path[2] == '/') then 2 else 1
  }

  function SlashRun(n: nat): string {
    if n == 0 then "" else ['/'] + SlashRun(n - 1)
  }

  /** A path written from its leading slashes and its parts. */
  function Spell(slashes: nat, parts: seq<string>): string {
    if slashes == 0 && parts == [] then "." else SlashRun(slashes) + Join(parts, '/')
  }

  /** `posixpath.normpath`. */
  function NormPath(path: string): string {
    var n := LeadingSlashes(path);
    Spell(n, Collapse(Split(path, '/'), n > 0, []))
  }

  // ----- Where a path leads -----

  /** A directory: the names on the way to it from the root. */
  type Dir = seq<string>

  ghost function Step(dir: Dir, part: string): Dir {
    if part == "" || part == "." then dir
    else if part == ".." then (if dir == [] then [] else dir[..|dir| - 1])
    else dir + [part]
  }

  lemma StepByKind(dir: Dir, part: string)
    ensures Step(dir, part) ==
      if IsStay(part) then dir else if IsUp(part) then (if dir == [] then [] else dir[..|dir| - 1]) else dir + [part]
  {
    assert IsUp(part) <==> part == "..";
    assert IsStay(part) <==> part == "" || part == ".";
  }

  ghost function Steps(dir: Dir, parts: seq<string>): Dir {
    if parts == [] then dir else Step(Steps(dir, parts[..|parts| - 1]), parts[|parts| - 1])
  }

  /** Where `path` leads from the directory `dir`, part by part. */
  ghost function Follow(dir: Dir, path: string): Dir {
    Steps(if IsRooted(path) then [] else dir, Split(path, '/'))
  }

  lemma {:induction false} StepsConcat(dir: Dir, a: seq<string>, b: seq<string>)
    ensures Steps(dir, a + b) == Steps(Steps(dir, a), b)
    decreases |b|
  {
    if b == [] {
      assert a + b == a;
    } else {
      var n := |b| - 1;
      assert (a + b)[..|a + b| - 1] == a + b[..n];
      StepsConcat(dir, a, b[..n]);
    }
  }

  lemma OneStep(dir: Dir, part: string)
    ensures Steps(dir, [part]) == Step(dir, part)
  {
    assert [part][..0] == [];
    assert Steps(dir, []) == dir;
  }

  // ----- Splitting and joining -----

  lemma FirstSlash(s: string, at: nat)
    requires at < |s| && s[at] == '/' && forall i :: 0 <= i < at ==> s[i] != '/'
    ensures Find(s, '/', 0) == at
  {
  }

  lemma SplitAt(s: string, at: nat)
    requires at < |s| && s[at] == '/' && '/' !in s[..at]
    ensures Split(s, '/') == [s[..at]] + Split(s[at + 1..], '/')
  {
    assert forall i :: 0 <= i < at ==> s[i] == s[..at][i];
    FirstSlash(s, at);
  }

  lemma {:induction false} SplitBoth(a: string, b: string)
    ensures Split(a + ['/'] + b, '/') == Split(a, '/') + Split(b, '/')
    decreases |a|
  {
    var s, at := a + ['/'] + b, Find(a, '/', 0);
    if at < 0 {
      assert s[..|a|] == a && s[|a| + 1..] == b;
      SplitAt(s, |a|);
      SplitOne(a);
    } else {
      var rest := a[at + 1..];
      assert s[..at] == a[..at] && s[at + 1..] == rest + ['/'] + b;
      SplitAt(s, at);
      SplitAt(a, at);
      SplitBoth(rest, b);
      Assoc([a[..at]], Split(rest, '/'), Split(b, '/'));
    }
  }

  lemma SplitOne(s: string)
    requires '/' !in s
    ensures Split(s, '/') == [s]
  {
  }

  ghost predicate ArePlain(parts: seq<string>) {
    forall i :: 0 <= i < |parts| ==> '/' !in parts[i]
  }

  lemma {:induction false} SplitJoin(parts: seq<string>)
    requires parts != [] && ArePlain(parts)
    ensures Split(Join(parts, '/'), '/') == parts
    decreases |parts|
  {
    if |parts| == 1 {
      SplitOne(parts[0]);
    } else {
      SplitJoin(parts[1..]);
      SplitBoth(parts[0], Join(parts[1..], '/'));
      SplitOne(parts[0]);
    }
  }

  lemma {:induction false} JoinSplit(s: string)
    ensures Join(Split(s, '/'), '/') == s
    decreases |s|
  {
    var at := Find(s, '/', 0);
    if at >= 0 {
      JoinSplit(s[at + 1..]);
      assert s == s[..at] + ['/'] + s[at + 1..];
    }
  }

  // ----- Normal paths -----

  /** No part is empty or `.`, and `..` stands in front only, and only in a relative path. */
  ghost predicate AreNormal(parts: seq<string>, rooted: bool) {
    && (forall i :: 0 <= i < |parts| ==> !IsStay(parts[i]) && (rooted ==> !IsUp(parts[i])))
    && (forall i, j :: 0 <= i < j < |parts| && IsUp(parts[j]) ==> IsUp(parts[i]))
  }

  ghost predicate AreNormalParts(parts: seq<string>, rooted: bool) {
    ArePlain(parts) && AreNormal(parts, rooted)
  }

  /** The path `.`, one or two slashes alone, or normal parts behind at most two slashes. */
  ghost predicate IsNormalPath(path: string) {
    var n := LeadingSlashes(path);
    || (n == 0 && path == ".")
    || (n > 0 && |path| == n)
    || AreNormalParts(Split(path[n..], '/'), n > 0)
  }

  lemma {:induction false} CollapseIsNormal(parts: seq<string>, rooted: bool, out: seq<string>)
    requires ArePlain(parts) && AreNormalParts(out, rooted)
    ensures AreNormalParts(Collapse(parts, rooted, out), rooted)
    decreases |parts|
  {
    if parts != [] {
      var p, rest := parts[0], parts[1..];
      if IsStay(p) {
        CollapseIsNormal(rest, rooted, out);
      } else if !IsUp(p) || (!rooted && out == []) || (out != [] && IsUp(out[|out| - 1])) {
        CollapseIsNormal(rest, rooted, out + [p]);
      } else {
        CollapseIsNormal(rest, rooted, if out == [] then out else out[..|out| - 1]);
      }
    }
  }

  lemma StepThenUp(dir: Dir, out: seq<string>)
    requires out != [] && !IsStay(out[|out| - 1]) && !IsUp(out[|out| - 1])
    ensures forall up :: IsUp(up) ==> Step(Steps(dir, out), up) == Steps(dir, out[..|out| - 1])
  {
    var before := Steps(dir, out[..|out| - 1]);
    StepByKind(before, out[|out| - 1]);
    forall up | IsUp(up) ensures Step(Steps(dir, out), up) == before {
      StepByKind(Steps(dir, out), up);
    }
  }

  /** Collapsing parts does not change where they lead. */
  lemma {:induction false} CollapseKeepsPlace(dir: Dir, parts: seq<string>, rooted: bool, out: seq<string>)
    requires (rooted ==> dir == []) && AreNormal(out, rooted)
    ensures Steps(dir, Collapse(parts, rooted, out)) == Steps(Steps(dir, out), parts)
    decreases |parts|
  {
    if parts != [] {
      var p, rest := parts[0], parts[1..];
      assert parts == [p] + rest;
      StepsConcat(Steps(dir, out), [p], rest);
      OneStep(Steps(dir, out), p);
      StepByKind(Steps(dir, out), p);
      if IsStay(p) {
        CollapseKeepsPlace(dir, rest, rooted, out);
      } else if !IsUp(p) || (!rooted && out == []) || (out != [] && IsUp(out[|out| - 1])) {
        assert (out + [p])[..|out|] == out;
        CollapseKeepsPlace(dir, rest, rooted, out + [p]);
      } else if out == [] {
        CollapseKeepsPlace(dir, rest, rooted, out);
      } else {
        StepThenUp(dir, out);
        CollapseKeepsPlace(dir, rest, rooted, out[..|out| - 1]);
      }
    }
  }

  // ----- The parts of a written path -----

  lemma FrontSlash(text: string)
    ensures Split(['/'] + text, '/') == [""] + Split(text, '/')
  {
    SplitBoth("", text);
    assert "" + ['/'] + text == ['/'] + text;
    SplitOne("");
  }

  lemma SlashLeadsNowhere(dir: Dir, text: string)
    ensures Steps(dir, Split(['/'] + text, '/')) == Steps(dir, Split(text, '/'))
  {
    FrontSlash(text);
    StepsConcat(dir, [""], Split(text, '/'));
    OneStep(dir, "");
  }

  lemma {:induction false} SlashesLeadNowhere(dir: Dir, n: nat, text: string)
    ensures Steps(dir, Split(SlashRun(n) + text, '/')) == Steps(dir, Split(text, '/'))
  {
    if n == 0 {
      assert SlashRun(0) + text == text;
    } else {
      SlashesLeadNowhere(dir, n - 1, text);
      SlashLeadsNowhere(dir, SlashRun(n - 1) + text);
      Assoc(['/'], SlashRun(n - 1), text);
    }
  }

  lemma JoinedSteps(dir: Dir, parts: seq<string>)
    requires ArePlain(parts)
    ensures Steps(dir, Split(Join(parts, '/'), '/')) == Steps(dir, parts)
  {
    if parts == [] {
      SplitOne("");
      OneStep(dir, "");
    } else {
      SplitJoin(parts);
    }
  }

  lemma JoinStartsPlain(parts: seq<string>)
    requires parts != [] && ArePlain(parts) && parts[0] != ""
    ensures Join(parts, '/') != "" && Join(parts, '/')[0] == parts[0][0] != '/'
  {
  }

  lemma SpelledSlashes(n: nat, parts: seq<string>)
    requires n <= 2 && AreNormalParts(parts, n > 0)
    ensures LeadingSlashes(Spell(n, parts)) == n
  {
    if parts != [] {
      JoinStartsPlain(parts);
    }
    assert SlashRun(1) == "/" && SlashRun(2) == "//";
  }

  lemma SpelledSteps(dir: Dir, n: nat, parts: seq<string>)
    requires AreNormalParts(parts, n > 0)
    ensures Steps(dir, Split(Spell(n, parts), '/')) == Steps(dir, parts)
  {
    if n == 0 && parts == [] {
      SplitOne(".");
      OneStep(dir, ".");
    } else {
      SlashesLeadNowhere(dir, n, Join(parts, '/'));
      JoinedSteps(dir, parts);
    }
  }

  /** A normalised path leads where the path leads, from every directory. */
  lemma NormPathKeepsPlace(dir: Dir, path: string)
    ensures Follow(dir, NormPath(path)) == Follow(dir, path)
  {
    var n, parts := LeadingSlashes(path), Split(path, '/');
    var from := if n > 0 then [] else dir;
    var out := Collapse(parts, n > 0, []);
    CollapseIsNormal(parts, n > 0, []);
    CollapseKeepsPlace(from, parts, n > 0, []);
    SpelledSlashes(n, out);
    SpelledSteps(from, n, out);
  }

  // ----- Normal paths are the fixed points -----

  lemma SpelledRest(n: nat, parts: seq<string>)
    requires n <= 2 && (n > 0 || parts != [])
    ensures |Spell(n, parts)| >= n && Spell(n, parts)[n..] == Join(parts, '/')
  {
    assert SlashRun(1) == "/" && SlashRun(2) == "//";
  }

  lemma SpelledIsNormal(n: nat, parts: seq<string>)
    requires n <= 2 && AreNormalParts(parts, n > 0)
    ensures IsNormalPath(Spell(n, parts))
  {
    SpelledSlashes(n, parts);
    if n > 0 || parts != [] {
      SpelledRest(n, parts);
    }
    if parts != [] {
      SplitJoin(parts);
    }
  }

  lemma {:induction false} CollapseLeavesNormal(parts: seq<string>, rooted: bool, out: seq<string>)
    requires AreNormal(out + parts, rooted)
    ensures Collapse(parts, rooted, out) == out + parts
    decreases |parts|
  {
    if parts == [] {
      assert out + parts == out;
    } else {
      var p, all := parts[0], out + parts;
      assert all[|out|] == p && all == (out + [p]) + parts[1..];
      assert out != [] && IsUp(p) ==> IsUp(out[|out| - 1]) by {
        assert out != [] ==> all[|out| - 1] == out[|out| - 1];
      }
      CollapseLeavesNormal(parts[1..], rooted, out + [p]);
    }
  }

  lemma {:induction false} CollapseAfterSlashes(n: nat, text: string, rooted: bool)
    ensures Collapse(Split(SlashRun(n) + text, '/'), rooted, []) == Collapse(Split(text, '/'), rooted, [])
  {
    if n == 0 {
      assert SlashRun(0) + text == text;
    } else {
      var rest := SlashRun(n - 1) + text;
      assert SlashRun(n) + text == ['/'] + rest;
      FrontSlash(rest);
      assert ([""] + Split(rest, '/'))[1..] == Split(rest, '/');
      CollapseAfterSlashes(n - 1, text, rooted);
    }
  }

  lemma CollapseJoined(parts: seq<string>, rooted: bool)
    requires AreNormalParts(parts, rooted)
    ensures Collapse(Split(Join(parts, '/'), '/'), rooted, []) == parts
  {
    if parts == [] {
      SplitOne("");
      assert [""][1..] == [];
    } else {
      SplitJoin(parts);
      assert [] + parts == parts;
      CollapseLeavesNormal(parts, rooted, []);
    }
  }

  /** Normalising a path written from normal parts gives that path. */
  lemma SpelledIsFixed(n: nat, parts: seq<string>)
    requires n <= 2 && AreNormalParts(parts, n > 0)
    ensures NormPath(Spell(n, parts)) == Spell(n, parts)
  {
    SpelledSlashes(n, parts);
    if n == 0 && parts == [] {
      SplitOne(".");
      assert ["."][1..] == [];
    } else {
      CollapseAfterSlashes(n, Join(parts, '/'), n > 0);
      CollapseJoined(parts, n > 0);
    }
  }

  lemma SlashesInFront(path: string)
    ensures |path| >= LeadingSlashes(path) && path == SlashRun(LeadingSlashes(path)) + path[LeadingSlashes(path)..]
  {
    assert SlashRun(1) == "/" && SlashRun(2) == "//";
  }

  /** Every normal path is written from normal parts. */
  lemma NormalIsSpelled(path: string) returns (n: nat, parts: seq<string>)
    requires IsNormalPath(path)
    ensures n == LeadingSlashes(path) && AreNormalParts(parts, n > 0) && path == Spell(n, parts)
  {
    n := LeadingSlashes(path);
    SlashesInFront(path);
    JoinSplit(path[n..]);
    parts := if path == "." || |path| == n then [] else Split(path[n..], '/');
  }

  /** A path is normal exactly when normalising leaves it as it is; so normalising twice is normalising once. */
  lemma NormalIffFixed(path: string)
    ensures IsNormalPath(NormPath(path))
    ensures IsNormalPath(path) <==> NormPath(path) == path
  {
    var rooted, parts := LeadingSlashes(path) > 0, Split(path, '/');
    CollapseIsNormal(parts, rooted, []);
    SpelledIsNormal(LeadingSlashes(path), Collapse(parts, rooted, []));
    if IsNormalPath(path) {
      var n, own := NormalIsSpelled(path);
      SpelledIsFixed(n, own);
    }
  }

  // ----- One normal path for one place -----

  /** A directory that has a name at every step. */
  ghost predicate IsDir(dir: Dir) {
    forall i :: 0 <= i < |dir| ==> '/' !in dir[i] && !IsStay(dir[i]) && !IsUp(dir[i])
  }

  /** The two paths lead to one place from every directory. */
  ghost predicate SamePlace(p: string, q: string) {
    forall dir :: IsDir(dir) ==> Follow(dir, p) == Follow(dir, q)
  }

  function Ups(parts: seq<string>): (k: nat)
    ensures k <= |parts| && (forall i :: 0 <= i < k ==> IsUp(parts[i])) && (k < |parts| ==> !IsUp(parts[k]))
  {
    if parts == [] || !IsUp(parts[0]) then 0 else 1 + Ups(parts[1..])
  }

  lemma NamesBehindUps(parts: seq<string>)
    requires AreNormal(parts, false)
    ensures forall i :: Ups(parts) <= i < |parts| ==> !IsUp(parts[i]) && !IsStay(parts[i])
  {
  }

  /** Normal parts lead up, then down. */
  lemma {:induction false} NormalSteps(dir: Dir, parts: seq<string>, k: nat)
    requires k <= |parts| && k <= |dir|
    requires forall i :: 0 <= i < k ==> IsUp(parts[i])
    requires forall i :: k <= i < |parts| ==> !IsUp(parts[i]) && !IsStay(parts[i])
    ensures Steps(dir, parts) == dir[..|dir| - k] + parts[k..]
    decreases |parts|
  {
    if parts == [] {
      assert dir[..|dir|] == dir;
    } else {
      var n := |parts| - 1;
      var init, last := parts[..n], parts[n];
      StepByKind(Steps(dir, init), last);
      if k == |parts| {
        NormalSteps(dir, init, k - 1);
      } else {
        NormalSteps(dir, init, k);
        assert parts[k..] == init[k..] + [last];
      }
    }
  }

  /** A name longer than all the parts together. */
  ghost function LongName(parts: seq<string>): (name: string)
    ensures |name| >= 3 && forall i :: 0 <= i < |name| ==> name[i] == 'x'
    ensures forall i :: 0 <= i < |parts| ==> |parts[i]| < |name|
  {
    if parts == [] then "xxx" else LongName(parts[1..]) + seq(|parts[0]|, _ => 'x')
  }

  ghost function Leading(s: seq<string>, name: string): (k: nat)
    ensures k <= |s| && (forall i :: 0 <= i < k ==> s[i] == name) && (k < |s| ==> s[k] != name)
  {
    if s == [] || s[0] != name then 0 else 1 + Leading(s[1..], name)
  }

  lemma LeadingRun(name: string, a: nat, x: seq<string>)
    requires name !in x
    ensures Leading(seq(a, _ => name) + x, name) == a
  {
    var s := seq(a, _ => name) + x;
    assert forall i :: 0 <= i < a ==> s[i] == name;
    assert x != [] ==> s[a] == x[0] && x[0] in x;
  }

  /** From a deep directory of one name that no part is, normal parts can be read off. */
  lemma NormalPartsFrom(depth: nat, name: string, parts: seq<string>)
    requires AreNormal(parts, false) && Ups(parts) <= depth && name !in parts
    ensures Leading(Steps(seq(depth, _ => name), parts), name) == depth - Ups(parts)
    ensures Steps(seq(depth, _ => name), parts)[depth - Ups(parts)..] == parts[Ups(parts)..]
  {
    var dir, k := seq(depth, _ => name), Ups(parts);
    NamesBehindUps(parts);
    NormalSteps(dir, parts, k);
    assert dir[..depth - k] == seq(depth - k, _ => name);
    LeadingRun(name, depth - k, parts[k..]);
  }

  lemma SameUps(p: seq<string>, q: seq<string>)
    requires Ups(p) == Ups(q) && p[Ups(p)..] == q[Ups(q)..]
    ensures p == q
  {
    var k := Ups(p);
    assert p == p[..k] + p[k..] && q == q[..k] + q[k..];
    forall i | 0 <= i < k ensures p[i] == q[i] {
      assert p[i] == ".." && q[i] == "..";
    }
    assert p[..k] == q[..k];
  }

  lemma NormalPartsAgree(p: seq<string>, q: seq<string>)
    requires AreNormal(p, false) && AreNormal(q, false)
    requires forall dir :: IsDir(dir) ==> Steps(dir, p) == Steps(dir, q)
    ensures p == q
  {
    var name, depth := LongName(p + q), |p| + |q|;
    LongIsNew(name, p, q);
    var dir := seq(depth, _ => name);
    assert IsDir(dir);
    NormalPartsFrom(depth, name, p);
    NormalPartsFrom(depth, name, q);
    SameUps(p, q);
  }

  lemma LongIsNew(name: string, p: seq<string>, q: seq<string>)
    requires forall i :: 0 <= i < |p + q| ==> |(p + q)[i]| < |name|
    ensures name !in p && name !in q
  {
    forall i | 0 <= i < |p| ensures p[i] != name {
      assert (p + q)[i] == p[i];
    }
    forall i | 0 <= i < |q| ensures q[i] != name {
      assert (p + q)[|p| + i] == q[i];
    }
  }

  lemma FollowNormal(dir: Dir, parts: seq<string>)
    requires AreNormalParts(parts, false)
    ensures Follow(dir, Spell(0, parts)) == Steps(dir, parts)
  {
    SpelledSlashes(0, parts);
    SpelledSteps(dir, 0, parts);
  }

  /** Two relative paths normalise to the same path exactly when they lead to the same place from
      every directory. */
  lemma NormPathDecidesPlace(p: string, q: string)
    requires !IsRooted(p) && !IsRooted(q)
    ensures NormPath(p) == NormPath(q) <==> SamePlace(p, q)
  {
    if NormPath(p) == NormPath(q) {
      forall dir ensures Follow(dir, p) == Follow(dir, q) {
        NormPathKeepsPlace(dir, p);
        NormPathKeepsPlace(dir, q);
      }
    }
    if SamePlace(p, q) {
      SamePlaceSameNorm(p, q);
    }
  }

  lemma SamePlaceSameNorm(p: string, q: string)
    requires !IsRooted(p) && !IsRooted(q) && SamePlace(p, q)
    ensures NormPath(p) == NormPath(q)
  {
    var x, y := Collapse(Split(p, '/'), false, []), Collapse(Split(q, '/'), false, []);
    CollapseIsNormal(Split(p, '/'), false, []);
    CollapseIsNormal(Split(q, '/'), false, []);
    forall dir | IsDir(dir) ensures Steps(dir, x) == Steps(dir, y) {
      NormPathKeepsPlace(dir, p);
      NormPathKeepsPlace(dir, q);
      FollowNormal(dir, x);
      FollowNormal(dir, y);
    }
    NormalPartsAgree(x, y);
  }

  // ----- Joining is following one after the other -----

  lemma JoinedAtSlash(from: Dir, a: string, b: string)
    ensures Steps(from, Split(a + ['/'] + b, '/')) == Steps(Steps(from, Split(a + ['/'], '/')), Split(b, '/'))
  {
    var x, y := Split(a, '/'), Split(b, '/');
    SplitBoth(a, b);
    SplitBoth(a, "");
    assert a + ['/'] + "" == a + ['/'];
    SplitOne("");
    StepsConcat(from, x, y);
    StepsConcat(from, x, [""]);
    OneStep(Steps(from, x), "");
  }

  lemma JoinedAtEmpty(from: Dir, b: string)
    ensures Steps(from, Split(b, '/')) == Steps(Steps(from, Split("", '/')), Split(b, '/'))
  {
    SplitOne("");
    OneStep(from, "");
  }

  lemma JoinedByPart(from: Dir, a: string, b: string)
    ensures Steps(from, Split(a + ['/'] + b, '/')) == Steps(Steps(from, Split(a, '/')), Split(b, '/'))
  {
    SplitBoth(a, b);
    StepsConcat(from, Split(a, '/'), Split(b, '/'));
  }

  lemma JoinedBehindSlash(from: Dir, a: string, b: string)
    requires a != "" && a[|a| - 1] == '/'
    ensures Steps(from, Split(a + b, '/')) == Steps(Steps(from, Split(a, '/')), Split(b, '/'))
  {
    var init := a[..|a| - 1];
    assert a == init + ['/'];
    JoinedAtSlash(from, init, b);
  }

  /** From one directory, the parts of `a` and then those of `b`. */
  lemma JoinedParts(from: Dir, a: string, b: string)
    requires !IsRooted(b)
    ensures Steps(from, Split(JoinPath(a, b), '/')) == Steps(Steps(from, Split(a, '/')), Split(b, '/'))
  {
    if a == "" {
      assert a + b == b;
      JoinedAtEmpty(from, b);
    } else if a[|a| - 1] == '/' {
      JoinedBehindSlash(from, a, b);
    } else {
      assert "/" == ['/'];
      JoinedByPart(from, a, b);
    }
  }

  /** Where a joined path leads is where the second part leads from where the first leads. */
  lemma JoinFollows(dir: Dir, a: string, b: string)
    ensures Follow(dir, JoinPath(a, b)) == Follow(Follow(dir, a), b)
  {
    if !IsRooted(b) {
      JoinedParts(if IsRooted(a) then [] else dir, a, b);
    }
  }

  // ----- The one path a link stands for -----

  /** How many slashes a path starts with. */
  ghost function SlashCount(path: string): nat {
    if path == "" || path[0] != '/' then 0 else 1 + SlashCount(path[1..])
  }

  /** Relative, or rooted at `/`, or at `//`, which is a root of its own; three slashes and more are one. */
  ghost predicate SameRoot(p: string, q: string) {
    && (SlashCount(p) == 0 <==> SlashCount(q) == 0)
    && (SlashCount(p) == 2 <==> SlashCount(q) == 2)
  }

  lemma RootIsCounted(path: string)
    ensures LeadingSlashes(path) == 0 <==> SlashCount(path) == 0
    ensures LeadingSlashes(path) == 2 <==> SlashCount(path) == 2
  {
    if IsRooted(path) {
      assert SlashCount(path) == 1 + SlashCount(path[1..]);
      if |path| >= 2 && path[1] == '/' {
        assert SlashCount(path[1..]) == 1 + SlashCount(path[1..][1..]);
        assert path[1..][1..] == path[2..];
      }
    }
  }

  lemma RootOfJoined(a: string, b: string)
    ensures LeadingSlashes(JoinPath(a, b)) == LeadingSlashes(if IsRooted(b) then b else a)
  {
  }

  /** `path` is normal, leads to where `target` leads from `base`, and has the root of the two. */
  ghost predicate LeadsTo(base: string, target: string, path: string) {
    && IsNormalPath(path)
    && (forall dir :: Follow(dir, path) == Follow(Follow(dir, base), target))
    && SameRoot(path, if SlashCount(target) > 0 then target else base)
  }

  lemma JoinedAndNormalised(base: string, target: string)
    ensures LeadsTo(base, target, NormPath(JoinPath(base, target)))
  {
    var path := JoinPath(base, target);
    NormalIffFixed(path);
    forall dir ensures Follow(dir, NormPath(path)) == Follow(Follow(dir, base), target) {
      NormPathKeepsPlace(dir, path);
      JoinFollows(dir, base, target);
    }
    NormPathKeepsRoot(path);
    RootOfJoined(base, target);
    RootIsCounted(NormPath(path));
    RootIsCounted(target);
    RootIsCounted(base);
  }

  lemma NormPathKeepsRoot(path: string)
    ensures LeadingSlashes(NormPath(path)) == LeadingSlashes(path)
  {
    var n, parts := LeadingSlashes(path), Split(path, '/');
    CollapseIsNormal(parts, n > 0, []);
    SpelledSlashes(n, Collapse(parts, n > 0, []));
  }

  /** A rooted normal path is its own place. */
  lemma FollowRooted(path: string, n: nat, parts: seq<string>)
    requires n == LeadingSlashes(path) > 0 && AreNormalParts(parts, true) && path == Spell(n, parts)
    ensures Follow([], path) == parts
  {
    SpelledSteps([], n, parts);
    NormalSteps([], parts, 0);
  }

  lemma RootedPathsDiffer(p: string, q: string)
    requires IsNormalPath(p) && IsNormalPath(q) && LeadingSlashes(p) == LeadingSlashes(q) > 0 && Follow([], p) == Follow([], q)
    ensures p == q
  {
    var n, x := NormalIsSpelled(p);
    var m, y := NormalIsSpelled(q);
    FollowRooted(p, n, x);
    FollowRooted(q, m, y);
  }

  /** There is only one such path. */
  lemma OnePathLeadsThere(base: string, target: string, p: string, q: string)
    requires LeadsTo(base, target, p) && LeadsTo(base, target, q)
    ensures p == q
  {
    RootIsCounted(p);
    RootIsCounted(q);
    if LeadingSlashes(p) == 0 {
      NormPathDecidesPlace(p, q);
      NormalIffFixed(p);
      NormalIffFixed(q);
    } else {
      RootedPathsDiffer(p, q);
    }
  }
}
