/**
 Strings as the Python sources see them: blank characters, trimming, lower-casing
 and substring tests.
 */
module Text {

  datatype Option<+T> = None | Some(value: T)

  /** `str.isspace()` for one character. */
  predicate IsSpace(c: char) {
    || '\t' <= c <= '\r'
    || '\U{1C}' <= c <= ' '
    || c == '\U{85}' || c == '\U{A0}' || c == '\U{1680}'
    || '\U{2000}' <= c <= '\U{200A}'
    || c == '\U{2028}' || c == '\U{2029}' || c == '\U{202F}'
    || c == '\U{205F}' || c == '\U{3000}'
  }

  /** The characters one by one. */
  lemma SpacesAreExact(c: char)
    ensures IsSpace(c) <==>
      c in "\t\n\U{B}\U{C}\r\U{1C}\U{1D}\U{1E}\U{1F} \U{85}\U{A0}\U{1680}\U{2000}\U{2001}\U{2002}\U{2003}\U{2004}"
           + "\U{2005}\U{2006}\U{2007}\U{2008}\U{2009}\U{200A}\U{2028}\U{2029}\U{202F}\U{205F}\U{3000}"
  {
  }

  /** The blanks bash knows: space and tab only. */
  predicate IsBlank(c: char) {
    c == ' ' || c == '\t'
  }

  function TrimLeft(s: string, blank: char -> bool): (r: string)
    ensures |r| <= |s| && r == s[|s| - |r|..]
    ensures forall i :: 0 <= i < |s| - |r| ==> blank(s[i])
    ensures r != [] ==> !blank(r[0])
  {
    if s != [] && blank(s[0]) then
      var t := TrimLeft(s[1..], blank);
      assert s[1..][|s| - 1 - |t|..] == s[|s| - |t|..];
      assert forall i :: 1 <= i < |s| - |t| ==> s[i] == s[1..][i - 1];
      t
    else s
  }

  function TrimRight(s: string, blank: char -> bool): (r: string)
    ensures |r| <= |s| && r == s[..|r|]
    ensures forall i :: |r| <= i < |s| ==> blank(s[i])
    ensures r != [] ==> !blank(r[|r| - 1])
  {
    if s != [] && blank(s[|s| - 1]) then TrimRight(s[..|s| - 1], blank) else s
  }

  function Trim(s: string, blank: char -> bool): string {
    TrimRight(TrimLeft(s, blank), blank)
  }

  /** `core` with nothing but blanks around it. */
  ghost predicate IsPadded(s: string, core: string, blank: char -> bool) {
    exists a, b :: IsPaddedBy(s, core, a, b, blank)
  }

  ghost predicate IsPaddedBy(s: string, core: string, a: nat, b: nat, blank: char -> bool) {
    && a + |core| + b == |s| && s[a..a + |core|] == core
    && (forall i :: 0 <= i < a ==> blank(s[i]))
    && (forall i :: a + |core| <= i < |s| ==> blank(s[i]))
  }

  ghost predicate HasSolidEnds(s: string, blank: char -> bool) {
    s != "" ==> !blank(s[0]) && !blank(s[|s| - 1])
  }

  lemma PaddedInTurn(s: string, a: nat, n: nat, blank: char -> bool)
    requires a + n <= |s| && (forall i :: 0 <= i < a ==> blank(s[i]))
    requires forall i :: n <= i < |s| - a ==> blank(s[a..][i])
    ensures IsPaddedBy(s, s[a..][..n], a, |s| - a - n, blank)
  {
    assert s[a..][..n] == s[a..a + n];
    forall i | a + n <= i < |s| ensures blank(s[i]) {
      assert s[i] == s[a..][i - a];
    }
  }

  lemma TrimmedIsPadded(s: string, blank: char -> bool)
    ensures IsPadded(s, Trim(s, blank), blank)
  {
    var left := TrimLeft(s, blank);
    var core := TrimRight(left, blank);
    PaddedInTurn(s, |s| - |left|, |core|, blank);
  }

  lemma TrimmedIsSolid(s: string, blank: char -> bool)
    ensures HasSolidEnds(Trim(s, blank), blank)
  {
    var left := TrimLeft(s, blank);
    var core := TrimRight(left, blank);
    assert core != "" ==> core[0] == left[0];
  }

  lemma TrimLeftStops(s: string, a: nat, blank: char -> bool)
    requires a < |s| && !blank(s[a]) && forall i :: 0 <= i < a ==> blank(s[i])
    ensures TrimLeft(s, blank) == s[a..]
  {
    var left := TrimLeft(s, blank);
    assert left != [] ==> left[0] == s[|s| - |left|];
    assert |left| == |s| - a;
  }

  lemma {:induction false} TrimLeftOfBlank(s: string, blank: char -> bool)
    requires forall i :: 0 <= i < |s| ==> blank(s[i])
    ensures TrimLeft(s, blank) == ""
  {
    if s != "" {
      TrimLeftOfBlank(s[1..], blank);
    }
  }

  lemma {:induction false} TrimRightOfBlank(s: string, blank: char -> bool)
    requires forall i :: 0 <= i < |s| ==> blank(s[i])
    ensures TrimRight(s, blank) == ""
  {
    if s != "" {
      TrimRightOfBlank(s[..|s| - 1], blank);
    }
  }

  lemma TrimRightStops(s: string, n: nat, blank: char -> bool)
    requires 0 < n <= |s| && !blank(s[n - 1]) && forall i :: n <= i < |s| ==> blank(s[i])
    ensures TrimRight(s, blank) == s[..n]
  {
    var right := TrimRight(s, blank);
    assert right != [] ==> right[|right| - 1] == s[|right| - 1];
    assert |right| == n;
  }

  lemma PaddedTrims(s: string, core: string, a: nat, b: nat, blank: char -> bool)
    requires IsPaddedBy(s, core, a, b, blank) && core != "" && HasSolidEnds(core, blank)
    ensures Trim(s, blank) == core
  {
    var n, left := |core|, s[a..];
    assert left[..n] == core && left[0] == core[0] && left[n - 1] == core[n - 1];
    TrimLeftStops(s, a, blank);
    forall i | n <= i < |left| ensures blank(left[i]) {
      assert left[i] == s[a + i];
    }
    TrimRightStops(left, n, blank);
  }

  lemma BlankTrims(s: string, blank: char -> bool)
    requires forall i :: 0 <= i < |s| ==> blank(s[i])
    ensures Trim(s, blank) == ""
  {
    TrimLeftOfBlank(s, blank);
  }

  /** `strip()` gives a text without blank ends exactly when that text stands between blanks. */
  lemma TrimIsPadding(s: string, core: string, blank: char -> bool)
    requires HasSolidEnds(core, blank)
    ensures Trim(s, blank) == core <==> IsPadded(s, core, blank)
  {
    TrimmedIsPadded(s, blank);
    if IsPadded(s, core, blank) {
      var a: nat, b: nat :| IsPaddedBy(s, core, a, b, blank);
      if core != "" {
        PaddedTrims(s, core, a, b, blank);
      } else {
        BlankTrims(s, blank);
      }
    }
  }

  /** How many backslashes stand directly before `i`. */
  ghost function RunBefore(s: string, i: nat): nat
    requires i <= |s|
  {
    if i == 0 || s[i - 1] != '\\' then 0 else 1 + RunBefore(s, i - 1)
  }

  ghost predicate IsEscapedAt(s: string, i: nat)
    requires i <= |s|
  {
    RunBefore(s, i) % 2 == 1
  }

  predicate StartsWith(s: string, prefix: string) {
    |prefix| <= |s| && s[..|prefix|] == prefix
  }

  predicate EndsWith(s: string, suffix: string) {
    |suffix| <= |s| && s[|s| - |suffix|..] == suffix
  }

  predicate OccursAt(s: string, sub: string, i: int) {
    0 <= i <= |s| - |sub| && s[i..i + |sub|] == sub
  }

  /** `sub in s`: some offset holds `sub`. */
  predicate Contains(s: string, sub: string) {
    exists i :: 0 <= i <= |s| && OccursAt(s, sub, i)
  }

  function LowerChar(c: char): char {
    if 'A' <= c <= 'Z' then (c as int - 'A' as int + 'a' as int) as char else c
  }

  /** Lower-casing; only ASCII letters can take part in the names the guard looks for. */
  function Lower(s: string): (r: string)
    ensures |r| == |s|
    ensures forall i :: 0 <= i < |s| ==> r[i] == LowerChar(s[i])
  {
    seq(|s|, i requires 0 <= i < |s| => LowerChar(s[i]))
  }

  /** `"".join(s.split())`: every blank removed. */
  function RemoveBlanks(s: string): string {
    if s == [] then []
    else (if IsSpace(s[0]) then [] else [s[0]]) + RemoveBlanks(s[1..])
  }

  lemma {:induction false} RemoveBlanksConcat(a: string, b: string)
    ensures RemoveBlanks(a + b) == RemoveBlanks(a) + RemoveBlanks(b)
  {
    if a == [] {
      assert a + b == b;
    } else {
      var head, x, y := if IsSpace(a[0]) then [] else [a[0]], RemoveBlanks(a[1..]), RemoveBlanks(b);
      assert RemoveBlanks((a + b)[1..]) == x + y by {
        assert (a + b)[1..] == a[1..] + b;
        RemoveBlanksConcat(a[1..], b);
      }
      assert head + (x + y) == (head + x) + y;
    }
  }

  lemma {:induction false} RemoveBlanksOfBlank(s: string)
    requires forall i :: 0 <= i < |s| ==> IsSpace(s[i])
    ensures RemoveBlanks(s) == []
  {
    if s != [] {
      RemoveBlanksOfBlank(s[1..]);
    }
  }

  lemma RemoveBlanksOfPadded(s: string, core: string, a: nat, b: nat)
    requires IsPaddedBy(s, core, a, b, IsSpace)
    ensures RemoveBlanks(s) == RemoveBlanks(core)
  {
    var n := a + |core|;
    assert s == s[..a] + s[a..] && s[a..] == core + s[n..];
    RemoveBlanksConcat(s[..a], s[a..]);
    RemoveBlanksConcat(core, s[n..]);
    RemoveBlanksOfBlank(s[..a]);
    RemoveBlanksOfBlank(s[n..]);
  }

  /** White space at the ends makes no difference to it. */
  lemma RemoveBlanksOfTrimmed(s: string)
    ensures RemoveBlanks(Trim(s, IsSpace)) == RemoveBlanks(s)
  {
    var core := Trim(s, IsSpace);
    TrimmedIsPadded(s, IsSpace);
    var a: nat, b: nat :| IsPaddedBy(s, core, a, b, IsSpace);
    RemoveBlanksOfPadded(s, core, a, b);
  }

  /** `s.find(c, from)`; -1 when absent. */
  function Find(s: string, c: char, from: nat): (r: int)
    ensures r == -1 || from <= r < |s|
    ensures r >= 0 ==> s[r] == c && forall i :: from <= i < r ==> s[i] != c
    ensures r < 0 ==> forall i :: from <= i < |s| ==> s[i] != c
    decreases |s| - from
  {
    if from >= |s| then -1 else if s[from] == c then from else Find(s, c, from + 1)
  }

  /** `s.split(c)`: the maximal runs without `c`, at least one. */
  function Split(s: string, c: char): (parts: seq<string>)
    ensures parts != [] && forall i :: 0 <= i < |parts| ==> c !in parts[i]
    decreases |s|
  {
    var at := Find(s, c, 0);
    if at < 0 then [s] else [s[..at]] + Split(s[at + 1..], c)
  }

  function Join(parts: seq<string>, c: char): string {
    if parts == [] then [] else if |parts| == 1 then parts[0] else parts[0] + [c] + Join(parts[1..], c)
  }

  lemma Assoc<T>(a: seq<T>, b: seq<T>, c: seq<T>)
    ensures (a + b) + c == a + (b + c)
  {
  }

  function Slashes(s: string): nat {
    if s == [] then 0 else (if s[0] == '/' then 1 else 0) + Slashes(s[1..])
  }

  lemma {:induction false} SlashesConcat(a: string, b: string)
    ensures Slashes(a + b) == Slashes(a) + Slashes(b)
  {
    if a == [] {
      assert a + b == b;
    } else {
      SlashesConcat(a[1..], b);
      assert (a + b)[1..] == a[1..] + b;
    }
  }

  lemma {:induction false} NoSlashes(s: string)
    ensures Slashes(s) == 0 <==> '/' !in s
  {
    if s != [] {
      NoSlashes(s[1..]);
      assert s == [s[0]] + s[1..];
    }
  }
}
