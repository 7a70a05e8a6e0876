/**
 The glob compiler of the parity checker (`_moon_glob_re`) against a matcher that works
 segment by segment and knows nothing about regular expressions.
 */
module MoonGlobs {
  import opened Text

  /** One piece of the compiled expression. */
  datatype Piece =
    | AnyDirectories          // (?:.*/)?
    | AnyPath                 // .*
    | Star                    // [^/]*
    | One                     // [^/]
    | Choice(texts: seq<string>)
    | Literal(c: char)

  /** `glob.startswith("**")`, and with a `/` behind. */
  predicate Stars(glob: string) {
    |glob| >= 2 && glob[0] == '*' && glob[1] == '*'
  }

  predicate StarsSlash(glob: string) {
    |glob| >= 3 && Stars(glob) && glob[2] == '/'
  }

  predicate ClosesBrace(glob: string) {
    glob != [] && glob[0] == '{' && Find(glob, '}', 0) >= 0
  }

  function BracePiece(glob: string): Piece
    requires ClosesBrace(glob)
  {
    Choice(Split(glob[1..Find(glob, '}', 0)], ','))
  }

  /** The first piece of a non-empty glob. */
  function HeadPiece(glob: string): Piece
    requires glob != []
  {
    if StarsSlash(glob) then AnyDirectories
    else if Stars(glob) then AnyPath
    else if glob[0] == '*' then Star
    else if glob[0] == '?' then One
    else if ClosesBrace(glob) then BracePiece(glob)
    else Literal(glob[0])
  }

  /** How many characters of the glob that piece uses. */
  function HeadSize(glob: string): (n: nat)
    requires glob != []
    ensures 1 <= n <= |glob|
  {
    if StarsSlash(glob) then 3
    else if Stars(glob) then 2
    else if ClosesBrace(glob) then Find(glob, '}', 0) + 1
    else 1
  }

  function Pieces(glob: string): seq<Piece>
    decreases |glob|
  {
    if glob == [] then [] else [HeadPiece(glob)] + Pieces(glob[HeadSize(glob)..])
  }

  /** The piece at one position of the compiler's loop. */
  method CompileOne(glob: string) returns (piece: Piece, size: nat)
    requires glob != []
    ensures piece == HeadPiece(glob) && size == HeadSize(glob)
  {
    if StarsSlash(glob) {
      piece, size := AnyDirectories, 3;
    } else if Stars(glob) {
      piece, size := AnyPath, 2;
    } else if glob[0] == '*' {
      piece, size := Star, 1;
    } else if glob[0] == '?' {
      piece, size := One, 1;
    } else if glob[0] == '{' && Find(glob, '}', 0) >= 0 {
      var end := Find(glob, '}', 0);
      piece, size := Choice(Split(glob[1..end], ',')), end + 1;
    } else {
      piece, size := Literal(glob[0]), 1;
    }
  }

  lemma PiecesStep(out: seq<Piece>, glob: string, i: nat, piece: Piece, size: nat)
    requires i < |glob| && piece == HeadPiece(glob[i..]) && size == HeadSize(glob[i..])
    ensures i < i + size <= |glob|
    ensures out + Pieces(glob[i..]) == out + [piece] + Pieces(glob[i + size..])
  {
    var rest := glob[i..];
    assert rest[size..] == glob[i + size..];
    Assoc(out, [piece], Pieces(rest[size..]));
  }

  /** One turn of the compiler's loop. */
  method CompileStep(glob: string, out0: seq<Piece>, i0: nat) returns (out: seq<Piece>, i: nat)
    requires i0 < |glob|
    ensures i0 < i <= |glob| && out + Pieces(glob[i..]) == out0 + Pieces(glob[i0..])
  {
    var rest := glob[i0..];
    var piece, size := CompileOne(rest);
    PiecesStep(out0, glob, i0, piece, size);
    return out0 + [piece], i0 + size;
  }

  /** The compiler's index loop. */
  method Compile(glob: string) returns (out: seq<Piece>)
    ensures out == Pieces(glob)
  {
    out := [];
    var i := 0;
    assert glob[0..] == glob;
    while i < |glob|
      invariant 0 <= i <= |glob|
      invariant out + Pieces(glob[i..]) == Pieces(glob)
      decreases |glob| - i
    {
      out, i := CompileStep(glob, out, i);
    }
  }

  // ---- What the compiled expression matches ----

  /** The texts one piece matches; `.` takes no newline, `[^/]` takes one. */
  predicate PieceMatches(p: Piece, w: string) {
    match p
    case AnyDirectories => w == [] || (w[|w| - 1] == '/' && '\n' !in w[..|w| - 1])
    case AnyPath => '\n' !in w
    case Star => '/' !in w
    case One => |w| == 1 && w[0] != '/'
    case Choice(texts) => w in texts
    case Literal(c) => w == [c]
  }

  /** A full match: the text splits into one match per piece. */
  predicate FullMatch(pieces: seq<Piece>, s: string) {
    if pieces == [] then s == []
    else exists k :: 0 <= k <= |s| && PieceMatches(pieces[0], s[..k]) && FullMatch(pieces[1..], s[k..])
  }

  predicate GlobMatches(glob: string, s: string) {
    FullMatch(Pieces(glob), s)
  }

  // ---- The matcher by segments ----

  /** One component against one segment, both free of `/`. */
  predicate ComponentMatches(g: string, s: string)
    decreases |g|
  {
    if g == [] then s == []
    else if g[0] == '*' then exists k :: 0 <= k <= |s| && ComponentMatches(g[1..], s[k..])
    else if g[0] == '?' then s != [] && ComponentMatches(g[1..], s[1..])
    else if ClosesBrace(g) then
      var end := Find(g, '}', 0);
      exists text | text in Split(g[1..end], ',') ::
        StartsWith(s, text) && ComponentMatches(g[end + 1..], s[|text|..])
    else s != [] && s[0] == g[0] && ComponentMatches(g[1..], s[1..])
  }

  /** `**` takes any number of segments, at least one when it is last, and never one with a newline. */
  predicate SegmentsMatch(gs: seq<string>, ss: seq<string>)
    decreases |gs| + |ss|
  {
    if gs == [] then ss == []
    else if gs == ["**"] then ss != [] && NoNewlines(ss)
    else if gs[0] == "**" then
      SegmentsMatch(gs[1..], ss) || (ss != [] && '\n' !in ss[0] && SegmentsMatch(gs, ss[1..]))
    else ss != [] && ComponentMatches(gs[0], ss[0]) && SegmentsMatch(gs[1..], ss[1..])
  }

  /** Every `**` outside braces is a whole component, and no closed brace holds a `/`. */
  predicate Tame(g: string, atStart: bool)
    decreases |g|
  {
    if g == [] then true
    else if Stars(g) then atStart && (|g| == 2 || (g[2] == '/' && Tame(g[3..], true)))
    else if ClosesBrace(g) then
      '/' !in g[..Find(g, '}', 0)] && Tame(g[Find(g, '}', 0) + 1..], false)
    else Tame(g[1..], g[0] == '/')
  }

  // ---- One piece at a time ----

  predicate HeadThenRest(glob: string, s: string, k: nat)
    requires glob != [] && k <= |s|
  {
    PieceMatches(HeadPiece(glob), s[..k]) && GlobMatches(glob[HeadSize(glob)..], s[k..])
  }

  lemma GlobUnfolds(glob: string, s: string)
    requires glob != []
    ensures GlobMatches(glob, s) <==> exists k :: 0 <= k <= |s| && HeadThenRest(glob, s, k)
  {
    var pieces, rest := Pieces(glob), Pieces(glob[HeadSize(glob)..]);
    assert pieces[0] == HeadPiece(glob) && pieces[1..] == rest;
    if GlobMatches(glob, s) {
      var k :| 0 <= k <= |s| && PieceMatches(pieces[0], s[..k]) && FullMatch(pieces[1..], s[k..]);
      assert HeadThenRest(glob, s, k);
    }
    if k :| 0 <= k <= |s| && HeadThenRest(glob, s, k) {
      assert PieceMatches(pieces[0], s[..k]) && FullMatch(pieces[1..], s[k..]);
    }
  }

  // ---- One component at a time ----

  /** `comp` matches the text before offset `j`, which holds no `/`, and `rest` what follows. */
  predicate ThenRest(comp: string, rest: string, s: string, j: nat)
    requires j <= |s|
  {
    '/' !in s[..j] && ComponentMatches(comp, s[..j]) && GlobMatches(rest, s[j..])
  }

  predicate SplitsOff(comp: string, rest: string, s: string) {
    exists j :: 0 <= j <= |s| && ThenRest(comp, rest, s, j)
  }

  predicate IsComponent(comp: string, rest: string) {
    '/' !in comp && (rest == [] || rest[0] == '/') && Tame(comp + rest, false)
  }

  /** The head piece consumes `s[..k]`; the rest of the component ends `j` characters later. */
  predicate HeadThenComponent(comp: string, size: nat, rest: string, s: string, k: nat, j: nat)
    requires 0 < size <= |comp| && k + j <= |s|
  {
    PieceMatches(HeadPiece(comp + rest), s[..k]) && ThenRest(comp[size..], rest, s[k..], j)
  }

  lemma DropHead(a: string, b: string, n: nat)
    requires n <= |a|
    ensures (a + b)[n..] == a[n..] + b
  {
  }

  lemma BraceOfComponent(comp: string, rest: string)
    requires comp != [] && IsComponent(comp, rest) && !Stars(comp + rest)
    ensures ClosesBrace(comp + rest) <==> ClosesBrace(comp)
    ensures ClosesBrace(comp) ==> Find(comp + rest, '}', 0) == Find(comp, '}', 0)
  {
    var g := comp + rest;
    var inComp, inAll := Find(comp, '}', 0), Find(g, '}', 0);
    if ClosesBrace(g) {
      assert forall i :: 0 <= i < inAll ==> g[..inAll][i] == g[i];
      assert rest != [] ==> g[|comp|] == '/';
      assert inAll < |comp| && comp[inAll] == '}';
    }
    if inComp >= 0 {
      assert g[inComp] == '}';
    }
  }

  /** The head of a component is a wildcard, a closed brace or one plain character. */
  predicate HeadKind(comp: string, rest: string, size: nat)
    requires comp != []
  {
    && 0 < size <= |comp|
    && HeadSize(comp + rest) == size
    && IsComponent(comp[size..], rest)
    && HeadPiece(comp + rest) ==
       (if comp[0] == '*' then Star
        else if comp[0] == '?' then One
        else if ClosesBrace(comp) then BracePiece(comp)
        else Literal(comp[0]))
  }

  function ComponentHeadSize(comp: string): nat {
    if ClosesBrace(comp) then Find(comp, '}', 0) + 1 else 1
  }

  lemma HeadIsKnown(comp: string, rest: string)
    requires comp != [] && IsComponent(comp, rest)
    ensures HeadKind(comp, rest, ComponentHeadSize(comp))
  {
    var g, size := comp + rest, ComponentHeadSize(comp);
    assert !Stars(g);
    BraceOfComponent(comp, rest);
    DropHead(comp, rest, size);
    if ClosesBrace(comp) {
      assert g[1..size - 1] == comp[1..size - 1];
    }
    assert g[0] == comp[0] && g[0] != '/';
  }

  lemma HeadHoldsNoSlash(comp: string, rest: string, size: nat, w: string)
    requires comp != [] && '/' !in comp && HeadKind(comp, rest, size)
    requires PieceMatches(HeadPiece(comp + rest), w)
    ensures '/' !in w
  {
    if comp[0] != '*' && comp[0] != '?' && ClosesBrace(comp) {
      PartsAreInside(comp[1..Find(comp, '}', 0)], ',', w, '/');
    }
  }

  lemma {:induction false} PartsAreInside(s: string, c: char, part: string, x: char)
    requires part in Split(s, c) && x !in s
    ensures x !in part
    decreases |s|
  {
    var at := Find(s, c, 0);
    if at >= 0 && part != s[..at] {
      PartsAreInside(s[at + 1..], c, part, x);
    }
  }

  /** A component's head takes a prefix of the segment and the tail takes the rest of it. */
  predicate PeelsAt(comp: string, rest: string, size: nat, w: string, k: nat)
    requires comp != [] && size <= |comp| && k <= |w|
  {
    PieceMatches(HeadPiece(comp + rest), w[..k]) && ComponentMatches(comp[size..], w[k..])
  }

  lemma ComponentPeels(comp: string, rest: string, size: nat, w: string)
    requires comp != [] && HeadKind(comp, rest, size) && size == ComponentHeadSize(comp) && '/' !in w
    ensures ComponentMatches(comp, w) <==> exists k :: 0 <= k <= |w| && PeelsAt(comp, rest, size, w, k)
  {
    if comp[0] == '*' {
      assert forall k :: 0 <= k <= |w| ==> (PeelsAt(comp, rest, size, w, k) <==> ComponentMatches(comp[1..], w[k..]));
    } else if comp[0] == '?' {
      OnePeels(comp, rest, w);
    } else if ClosesBrace(comp) {
      BracePeels(comp, rest, size, w);
    } else {
      LiteralPeels(comp, rest, w);
    }
  }

  lemma OnePeels(comp: string, rest: string, w: string)
    requires comp != [] && comp[0] == '?' && HeadPiece(comp + rest) == One && '/' !in w
    ensures ComponentMatches(comp, w) <==> exists k :: 0 <= k <= |w| && PeelsAt(comp, rest, 1, w, k)
  {
    if w != [] {
      assert PeelsAt(comp, rest, 1, w, 1) <==> ComponentMatches(comp, w);
    }
  }

  lemma LiteralPeels(comp: string, rest: string, w: string)
    requires comp != [] && comp[0] != '*' && comp[0] != '?' && !ClosesBrace(comp)
    requires HeadPiece(comp + rest) == Literal(comp[0])
    ensures ComponentMatches(comp, w) <==> exists k :: 0 <= k <= |w| && PeelsAt(comp, rest, 1, w, k)
  {
    if w != [] {
      assert PeelsAt(comp, rest, 1, w, 1) <==> ComponentMatches(comp, w);
    }
  }

  ghost predicate TakesText(comp: string, size: nat, w: string, text: string)
    requires size <= |comp|
  {
    StartsWith(w, text) && ComponentMatches(comp[size..], w[|text|..])
  }

  lemma BraceMatches(comp: string, size: nat, w: string)
    requires comp != [] && ClosesBrace(comp) && size == Find(comp, '}', 0) + 1
    ensures ComponentMatches(comp, w) <==> exists text :: text in Split(comp[1..size - 1], ',') && TakesText(comp, size, w, text)
  {
    var texts := Split(comp[1..size - 1], ',');
    if ComponentMatches(comp, w) {
      var text :| text in texts && StartsWith(w, text) && ComponentMatches(comp[size..], w[|text|..]);
      assert TakesText(comp, size, w, text);
    }
    if text :| text in texts && TakesText(comp, size, w, text) {
      assert StartsWith(w, text);
    }
  }

  lemma BracePeels(comp: string, rest: string, size: nat, w: string)
    requires comp != [] && ClosesBrace(comp) && size == Find(comp, '}', 0) + 1
    requires HeadPiece(comp + rest) == BracePiece(comp)
    ensures ComponentMatches(comp, w) <==> exists k :: 0 <= k <= |w| && PeelsAt(comp, rest, size, w, k)
  {
    var texts := Split(comp[1..size - 1], ',');
    BraceMatches(comp, size, w);
    if text :| text in texts && TakesText(comp, size, w, text) {
      assert PeelsAt(comp, rest, size, w, |text|);
    }
    if k :| 0 <= k <= |w| && PeelsAt(comp, rest, size, w, k) {
      assert w[..k] in texts && TakesText(comp, size, w, w[..k]);
    }
  }

  lemma EmptyComponent(rest: string, s: string)
    ensures GlobMatches([] + rest, s) <==> ThenRest([], rest, s, 0)
    ensures forall m :: 0 <= m <= |s| && ThenRest([], rest, s, m) ==> m == 0
  {
    assert [] + rest == rest && s[0..] == s && s[..0] == [];
  }

  lemma HeadOfMatch(comp: string, rest: string, s: string) returns (size: nat, k: nat)
    requires comp != [] && IsComponent(comp, rest) && GlobMatches(comp + rest, s)
    ensures HeadKind(comp, rest, size) && size == ComponentHeadSize(comp) && k <= |s|
    ensures PieceMatches(HeadPiece(comp + rest), s[..k]) && GlobMatches(comp[size..] + rest, s[k..])
  {
    size := ComponentHeadSize(comp);
    HeadIsKnown(comp, rest);
    GlobUnfolds(comp + rest, s);
    k :| 0 <= k <= |s| && HeadThenRest(comp + rest, s, k);
    DropHead(comp, rest, size);
  }

  lemma MatchOfHead(comp: string, rest: string, size: nat, s: string, k: nat)
    requires comp != [] && HeadKind(comp, rest, size) && k <= |s|
    requires PieceMatches(HeadPiece(comp + rest), s[..k]) && GlobMatches(comp[size..] + rest, s[k..])
    ensures GlobMatches(comp + rest, s)
  {
    DropHead(comp, rest, size);
    assert HeadThenRest(comp + rest, s, k);
    GlobUnfolds(comp + rest, s);
  }

  lemma {:induction false} GlobSplits(comp: string, rest: string, s: string)
    requires IsComponent(comp, rest) && GlobMatches(comp + rest, s)
    ensures SplitsOff(comp, rest, s)
    decreases |comp|
  {
    if comp == [] {
      EmptyComponent(rest, s);
    } else {
      var size, k := HeadOfMatch(comp, rest, s);
      GlobSplits(comp[size..], rest, s[k..]);
      var j :| 0 <= j <= |s[k..]| && ThenRest(comp[size..], rest, s[k..], j);
      PeelingSplits(comp, size, rest, s, k, j);
    }
  }

  lemma {:induction false} SplitGlobs(comp: string, rest: string, s: string, m: nat)
    requires IsComponent(comp, rest) && m <= |s| && ThenRest(comp, rest, s, m)
    ensures GlobMatches(comp + rest, s)
    decreases |comp|
  {
    if comp == [] {
      EmptyComponent(rest, s);
    } else {
      var size := ComponentHeadSize(comp);
      HeadIsKnown(comp, rest);
      var k, j := SplittingPeels(comp, size, rest, s, m);
      SplitGlobs(comp[size..], rest, s[k..], j);
      MatchOfHead(comp, rest, size, s, k);
    }
  }

  /** A glob matches exactly when its first component takes the text up to a `/` or to the end. */
  lemma ComponentThenRest(comp: string, rest: string, s: string)
    requires IsComponent(comp, rest)
    ensures GlobMatches(comp + rest, s) <==> SplitsOff(comp, rest, s)
  {
    if GlobMatches(comp + rest, s) {
      GlobSplits(comp, rest, s);
    }
    if SplitsOff(comp, rest, s) {
      var m :| 0 <= m <= |s| && ThenRest(comp, rest, s, m);
      SplitGlobs(comp, rest, s, m);
    }
  }

  lemma SlicesMeet(s: string, k: nat, j: nat)
    requires k + j <= |s|
    ensures s[..k + j] == s[..k] + s[k..][..j]
    ensures '/' !in s[..k + j] <==> '/' !in s[..k] && '/' !in s[k..][..j]
    ensures s[..k + j][..k] == s[..k]
    ensures s[..k + j][k..] == s[k..][..j]
    ensures s[k..][j..] == s[k + j..]
  {
    assert s[..k + j] == s[..k] + s[k..][..j];
  }

  lemma PeelingSplits(comp: string, size: nat, rest: string, s: string, k: nat, j: nat)
    requires comp != [] && IsComponent(comp, rest) && HeadKind(comp, rest, size) && size == ComponentHeadSize(comp)
    requires k + j <= |s| && HeadThenComponent(comp, size, rest, s, k, j)
    ensures SplitsOff(comp, rest, s)
  {
    var w := s[..k + j];
    SlicesMeet(s, k, j);
    HeadHoldsNoSlash(comp, rest, size, s[..k]);
    ComponentPeels(comp, rest, size, w);
    assert PeelsAt(comp, rest, size, w, k);
    assert ThenRest(comp, rest, s, k + j);
  }

  lemma SplittingPeels(comp: string, size: nat, rest: string, s: string, m: nat) returns (k: nat, j: nat)
    requires comp != [] && IsComponent(comp, rest) && HeadKind(comp, rest, size) && size == ComponentHeadSize(comp)
    requires m <= |s| && ThenRest(comp, rest, s, m)
    ensures k + j <= |s| && HeadThenComponent(comp, size, rest, s, k, j)
  {
    var w := s[..m];
    ComponentPeels(comp, rest, size, w);
    k :| 0 <= k <= |w| && PeelsAt(comp, rest, size, w, k);
    j := m - k;
    SlicesMeet(s, k, j);
  }

  // ---- The whole glob ----

  /** The text from a component boundary on: the first component and whatever follows it. */
  lemma FirstSegment(s: string)
    ensures var at := Find(s, '/', 0);
      if at < 0 then Split(s, '/') == [s] else Split(s, '/') == [s[..at]] + Split(s[at + 1..], '/')
  {
  }

  predicate NoNewlines(ss: seq<string>) {
    forall i :: 0 <= i < |ss| ==> '\n' !in ss[i]
  }

  lemma NoNewlinesCons(head: string, tail: seq<string>)
    ensures NoNewlines([head] + tail) <==> '\n' !in head && NoNewlines(tail)
  {
    var all := [head] + tail;
    assert all[0] == head && forall i :: 0 <= i < |tail| ==> all[i + 1] == tail[i];
  }

  lemma NewlineBesideSlash(s: string, at: nat)
    requires at < |s| && s[at] == '/'
    ensures '\n' !in s <==> '\n' !in s[..at] && '\n' !in s[at + 1..]
  {
    assert s == s[..at] + ['/'] + s[at + 1..];
  }

  lemma {:induction false} SegmentsAndNewlines(s: string)
    ensures '\n' !in s <==> NoNewlines(Split(s, '/'))
    decreases |s|
  {
    var at := Find(s, '/', 0);
    FirstSegment(s);
    if at < 0 {
      NoNewlinesCons(s, []);
      assert [s] + [] == [s];
    } else {
      SegmentsAndNewlines(s[at + 1..]);
      NewlineBesideSlash(s, at);
      NoNewlinesCons(s[..at], Split(s[at + 1..], '/'));
    }
  }

  /** No component is left unmatched. */
  lemma {:induction false} NothingMatchesNoSegments(gs: seq<string>)
    ensures SegmentsMatch(gs, []) <==> gs == []
  {
    if gs != [] && gs != ["**"] && gs[0] == "**" {
      NothingMatchesNoSegments(gs[1..]);
    }
  }

  /** `**` and a `/`: skip nothing, or skip one more segment and try again. */
  lemma {:induction false} DirectoriesUnfold(r: string, s: string)
    ensures var g, at := "**/" + r, Find(s, '/', 0);
      GlobMatches(g, s) <==>
        GlobMatches(r, s) || (at >= 0 && '\n' !in s[..at] && GlobMatches(g, s[at + 1..]))
  {
    var at := Find(s, '/', 0);
    DirectoriesAt(r, s);
    if k :| 0 <= k < |s| && SkipsTo(r, s, k) {
      SkipOne(r, s, at, k);
    }
    if at >= 0 && '\n' !in s[..at] && GlobMatches("**/" + r, s[at + 1..]) {
      SkipMore(r, s, at);
    }
  }

  lemma SkipOne(r: string, s: string, at: int, k: nat)
    requires at == Find(s, '/', 0) && k < |s| && SkipsTo(r, s, k)
    ensures at >= 0 && '\n' !in s[..at] && GlobMatches("**/" + r, s[at + 1..])
  {
    DirectoriesAt(r, s[at + 1..]);
    if k > at {
      SkipFurther(r, s, at, k);
    } else {
      assert k == at;
    }
  }

  lemma SkipMore(r: string, s: string, at: nat)
    requires at == Find(s, '/', 0) && '\n' !in s[..at] && GlobMatches("**/" + r, s[at + 1..])
    ensures exists k :: 0 <= k < |s| && SkipsTo(r, s, k)
  {
    var t := s[at + 1..];
    DirectoriesAt(r, t);
    if GlobMatches(r, t) {
      assert SkipsTo(r, s, at);
    } else {
      var k :| 0 <= k < |t| && SkipsTo(r, t, k);
      SkipFurther(r, s, at, at + 1 + k);
      assert SkipsTo(r, s, at + 1 + k);
    }
  }

  predicate SkipsTo(r: string, s: string, k: nat)
    requires k < |s|
  {
    s[k] == '/' && '\n' !in s[..k] && GlobMatches(r, s[k + 1..])
  }

  lemma DirectoriesAt(r: string, s: string)
    ensures GlobMatches("**/" + r, s) <==> GlobMatches(r, s) || exists k :: 0 <= k < |s| && SkipsTo(r, s, k)
  {
    var g := "**/" + r;
    assert StarsSlash(g) && g[3..] == r;
    GlobUnfolds(g, s);
    assert s[0..] == s;
    assert HeadThenRest(g, s, 0) <==> GlobMatches(r, s);
    forall k | 0 < k <= |s|
      ensures HeadThenRest(g, s, k) <==> SkipsTo(r, s, k - 1)
    {
      assert s[..k][..k - 1] == s[..k - 1];
    }
    if k :| 0 <= k <= |s| && HeadThenRest(g, s, k) && k > 0 {
      assert SkipsTo(r, s, k - 1);
    }
    if k :| 0 <= k < |s| && SkipsTo(r, s, k) {
      assert HeadThenRest(g, s, k + 1);
    }
  }

  lemma SkipFurther(r: string, s: string, at: nat, k: nat)
    requires at < k < |s| && s[at] == '/'
    ensures SkipsTo(r, s, k) <==> '\n' !in s[..at] && SkipsTo(r, s[at + 1..], k - at - 1)
  {
    var t, j := s[at + 1..], k - at - 1;
    assert s[..k] == s[..at] + ['/'] + t[..j];
    assert t[j] == s[k] && t[j + 1..] == s[k + 1..];
  }

  lemma AnyPathMatches(s: string)
    ensures GlobMatches("**", s) <==> '\n' !in s
  {
    GlobUnfolds("**", s);
    assert "**"[2..] == [];
    assert s[..|s|] == s && s[|s|..] == [];
    assert HeadThenRest("**", s, |s|) <==> '\n' !in s;
    if k :| 0 <= k <= |s| && HeadThenRest("**", s, k) {
      assert k == |s|;
    }
  }

  /** A plain first component, matched against the first segment. */
  lemma PlainComponent(g: string, s: string)
    requires Tame(g, true) && !Stars(g)
    ensures var a, b := Find(g, '/', 0), Find(s, '/', 0);
      GlobMatches(g, s) <==>
        if a < 0 then b < 0 && ComponentMatches(g, s)
        else b >= 0 && ComponentMatches(g[..a], s[..b]) && GlobMatches(g[a + 1..], s[b + 1..])
  {
    var a, b := Find(g, '/', 0), Find(s, '/', 0);
    if a < 0 {
      assert g + [] == g;
      ComponentThenRest(g, [], s);
      SplitAtEnd(g, s);
    } else {
      SlashComponent(g, s, a, b);
    }
  }

  lemma SplitAtEnd(comp: string, s: string)
    ensures SplitsOff(comp, [], s) <==> Find(s, '/', 0) < 0 && ComponentMatches(comp, s)
  {
    assert s[..|s|] == s && s[|s|..] == [];
    assert ThenRest(comp, [], s, |s|) <==> Find(s, '/', 0) < 0 && ComponentMatches(comp, s);
    if j :| 0 <= j <= |s| && ThenRest(comp, [], s, j) {
      assert j == |s|;
    }
  }

  lemma FirstComponent(g: string, a: nat)
    requires Tame(g, true) && !Stars(g) && a == Find(g, '/', 0)
    ensures g[..a] + g[a..] == g && g[a..] != [] && g[a..][0] == '/' && g[a..][1..] == g[a + 1..]
    ensures IsComponent(g[..a], g[a..])
  {
    assert g[..a] + g[a..] == g;
  }

  lemma SlashComponent(g: string, s: string, a: nat, b: int)
    requires Tame(g, true) && !Stars(g) && Find(g, '/', 0) == a && Find(s, '/', 0) == b
    ensures GlobMatches(g, s) <==> b >= 0 && ComponentMatches(g[..a], s[..b]) && GlobMatches(g[a + 1..], s[b + 1..])
  {
    FirstComponent(g, a);
    ComponentThenRest(g[..a], g[a..], s);
    SplitAtFirstSlash(g[..a], g[a..], s);
    if b >= 0 {
      ThenSlash(g[..a], g[a..], s, b);
    }
  }

  lemma SplitAtFirstSlash(comp: string, rest: string, s: string)
    requires rest != [] && rest[0] == '/'
    ensures SplitsOff(comp, rest, s)
       <==> Find(s, '/', 0) >= 0 && ThenRest(comp, rest, s, Find(s, '/', 0))
  {
    if SplitsOff(comp, rest, s) {
      var j :| 0 <= j <= |s| && ThenRest(comp, rest, s, j);
      ThenSlash(comp, rest, s, j);
    }
  }

  /** Only the first `/` of the text can end the first component. */
  lemma ThenSlash(comp: string, rest: string, s: string, j: nat)
    requires rest != [] && rest[0] == '/' && j <= |s|
    ensures ThenRest(comp, rest, s, j)
       <==> j == Find(s, '/', 0) && ComponentMatches(comp, s[..j]) && GlobMatches(rest[1..], s[j + 1..])
  {
    SlashMatches(rest, s[j..]);
    if j < |s| {
      assert s[j..][0] == s[j] && s[j..][1..] == s[j + 1..];
    }
    assert '/' !in s[..j] <==> forall i :: 0 <= i < j ==> s[i] != '/' by {
      assert forall i :: 0 <= i < j ==> s[..j][i] == s[i];
    }
  }

  lemma SlashMatches(g: string, s: string)
    requires g != [] && g[0] == '/'
    ensures GlobMatches(g, s) <==> s != [] && s[0] == '/' && GlobMatches(g[1..], s[1..])
  {
    GlobUnfolds(g, s);
    assert HeadPiece(g) == Literal('/') && HeadSize(g) == 1;
    if s != [] {
      assert HeadThenRest(g, s, 1) <==> s[0] == '/' && GlobMatches(g[1..], s[1..]);
    }
  }

  lemma SlashAfterBrace(g: string, end: nat, at: nat)
    requires end == Find(g, '}', 0) && at == Find(g, '/', 0) && '/' !in g[..end]
    ensures end < at
  {
    assert forall i :: 0 <= i < end ==> g[..end][i] == g[i];
  }

  /** What is left of a glob after its head piece when that piece has no `/`. */
  lemma TameAfterHead(g: string, atStart: bool, size: nat)
    requires g != [] && Tame(g, atStart) && !Stars(g) && g[0] != '/' && size == ComponentHeadSize(g)
    requires Find(g, '/', 0) >= 0
    ensures 0 < size <= Find(g, '/', 0) && Tame(g[size..], false)
  {
    if ClosesBrace(g) {
      SlashAfterBrace(g, Find(g, '}', 0), Find(g, '/', 0));
    }
  }

  /** After a plain component the glob is at a component start again. */
  lemma {:induction false} TameAfterSlash(g: string, atStart: bool)
    requires Tame(g, atStart) && !Stars(g) && Find(g, '/', 0) >= 0
    ensures Tame(g[Find(g, '/', 0) + 1..], true)
    decreases |g|
  {
    if g[0] != '/' {
      var size := ComponentHeadSize(g);
      TameAfterHead(g, atStart, size);
      FindAfter(g, '/', size);
      TameAfterSlash(g[size..], false);
    }
  }

  lemma FindAfter(s: string, c: char, n: nat)
    requires n <= Find(s, c, 0)
    ensures var at := Find(s, c, 0); Find(s[n..], c, 0) == at - n && s[n..][at - n + 1..] == s[at + 1..]
  {
    var at := Find(s, c, 0);
    assert s[n..][at - n] == c;
    assert forall i :: 0 <= i < at - n ==> s[n..][i] == s[n + i];
  }

  predicate AgreesOn(g: string, s: string) {
    GlobMatches(g, s) <==> SegmentsMatch(Split(g, '/'), Split(s, '/'))
  }

  lemma SplitAfterStars(r: string)
    ensures Split("**/" + r, '/') == ["**"] + Split(r, '/')
  {
    var g := "**/" + r;
    assert g[0] == '*' && g[1] == '*' && g[2] == '/' && g[3..] == r;
    assert Find(g, '/', 0) == 2;
    assert g[..2] == "**";
  }

  lemma StarsUnfold(gs: seq<string>, ss: seq<string>)
    requires gs != []
    ensures var all := ["**"] + gs;
      SegmentsMatch(all, ss) <==>
        SegmentsMatch(gs, ss) || (ss != [] && '\n' !in ss[0] && SegmentsMatch(all, ss[1..]))
  {
    var all := ["**"] + gs;
    assert all[0] == "**" && all[1..] == gs && |all| > 1;
  }

  lemma DirectoriesBySegments(r: string, s: string)
    requires AgreesOn(r, s)
    requires Find(s, '/', 0) >= 0 ==> AgreesOn("**/" + r, s[Find(s, '/', 0) + 1..])
    ensures AgreesOn("**/" + r, s)
  {
    var at, gs, ss := Find(s, '/', 0), Split(r, '/'), Split(s, '/');
    DirectoriesUnfold(r, s);
    SplitAfterStars(r);
    StarsUnfold(gs, ss);
    NothingMatchesNoSegments(["**"] + gs);
    FirstSegment(s);
    assert ss[1..] == if at >= 0 then Split(s[at + 1..], '/') else [];
  }

  lemma PlainUnfold(head: string, gs: seq<string>, first: string, ss: seq<string>)
    requires head != "**"
    ensures SegmentsMatch([head] + gs, [first] + ss) <==> ComponentMatches(head, first) && SegmentsMatch(gs, ss)
  {
    assert ([head] + gs)[0] == head && ([head] + gs)[1..] == gs;
    assert ([first] + ss)[0] == first && ([first] + ss)[1..] == ss;
  }

  /** The text after the first `/`, in segments; none when there is no `/`. */
  function SegmentsAfter(s: string): seq<string> {
    var at := Find(s, '/', 0);
    if at < 0 then [] else Split(s[at + 1..], '/')
  }

  function FirstOf(s: string): string {
    var at := Find(s, '/', 0);
    if at < 0 then s else s[..at]
  }

  lemma SplitIsFirstAndAfter(s: string)
    ensures Split(s, '/') == [FirstOf(s)] + SegmentsAfter(s)
  {
    FirstSegment(s);
    if Find(s, '/', 0) < 0 {
      assert [s] + [] == [s];
    }
  }

  lemma PlainHead(g: string)
    requires !Stars(g)
    ensures FirstOf(g) != "**"
  {
    assert FirstOf(g) == g[..|FirstOf(g)|];
  }

  lemma PlainBySegments(g: string, s: string)
    requires Tame(g, true) && !Stars(g)
    requires Find(g, '/', 0) >= 0 && Find(s, '/', 0) >= 0 ==> AgreesOn(g[Find(g, '/', 0) + 1..], s[Find(s, '/', 0) + 1..])
    ensures AgreesOn(g, s)
  {
    PlainComponent(g, s);
    PlainHead(g);
    SplitIsFirstAndAfter(g);
    SplitIsFirstAndAfter(s);
    PlainUnfold(FirstOf(g), SegmentsAfter(g), FirstOf(s), SegmentsAfter(s));
    NothingMatchesNoSegments(SegmentsAfter(g));
  }

  lemma AnyPathBySegments(s: string)
    ensures AgreesOn("**", s)
  {
    AnyPathMatches(s);
    SegmentsAndNewlines(s);
    assert Split("**", '/') == ["**"];
  }

  lemma TameAfterStars(g: string)
    requires Tame(g, true) && Stars(g) && |g| != 2
    ensures g == "**/" + g[3..] && Tame(g[3..], true)
  {
  }

  lemma {:induction false} AgreesEverywhere(g: string, s: string)
    requires Tame(g, true)
    ensures AgreesOn(g, s)
    decreases |g| + |s|, 1
  {
    if !Stars(g) {
      PlainStep(g, s);
    } else if |g| == 2 {
      assert g == "**";
      AnyPathBySegments(s);
    } else {
      var r, b := g[3..], Find(s, '/', 0);
      TameAfterStars(g);
      AgreesEverywhere(r, s);
      if b >= 0 {
        AgreesEverywhere(g, s[b + 1..]);
      }
      DirectoriesBySegments(r, s);
    }
  }

  lemma {:induction false} PlainStep(g: string, s: string)
    requires Tame(g, true) && !Stars(g)
    ensures AgreesOn(g, s)
    decreases |g| + |s|, 0
  {
    var a, b := Find(g, '/', 0), Find(s, '/', 0);
    if a >= 0 && b >= 0 {
      TameAfterSlash(g, true);
      AgreesEverywhere(g[a + 1..], s[b + 1..]);
    }
    PlainBySegments(g, s);
  }

  /** The compiled expression agrees with the matcher by segments on every text. */
  lemma CompiledGlobMatchesBySegments(g: string, s: string)
    requires Tame(g, true)
    ensures FullMatch(Pieces(g), s) <==> SegmentsMatch(Split(g, '/'), Split(s, '/'))
  {
    AgreesEverywhere(g, s);
  }

  lemma OneComponentOneSegment(g: string, ss: seq<string>)
    requires g != "**" && |ss| > 1
    ensures !SegmentsMatch([g], ss)
  {
    assert [g][1..] == [] && ss[1..] != [];
  }

  lemma TwoSegments(s: string)
    requires '/' in s
    ensures |Split(s, '/')| > 1
  {
    FirstSegment(s);
  }

  /** Inside a component `**` still crosses `/`, which no matcher by segments allows. */
  lemma StarsInsideAComponentCross(c: char, s: string)
    requires c !in "*?{/" && '/' in s && '\n' !in s
    ensures GlobMatches([c] + "**", [c] + s)
    ensures !SegmentsMatch(Split([c] + "**", '/'), Split([c] + s, '/'))
  {
    var g, t := [c] + "**", [c] + s;
    LiteralThenStars(c, s);
    assert |g| == 3 && '/' !in g;
    FirstSegment(g);
    TwoSegments(t);
    OneComponentOneSegment(g, Split(t, '/'));
  }

  lemma LiteralThenStars(c: char, s: string)
    requires c !in "*?{/" && '\n' !in s
    ensures GlobMatches([c] + "**", [c] + s)
  {
    var g, t := [c] + "**", [c] + s;
    assert g[0] == c && g[1..] == "**" && t[..1] == [c] && t[1..] == s;
    AnyPathMatches(s);
    GlobUnfolds(g, t);
    assert HeadThenRest(g, t, 1);
  }

  // ---- Where the two part ----

  predicate IsStars(p: Piece) {
    p.AnyDirectories? || p.AnyPath?
  }

  predicate HasStars(pieces: seq<Piece>) {
    exists i :: 0 <= i < |pieces| && IsStars(pieces[i])
  }

  predicate ChoicesOffer(pieces: seq<Piece>) {
    forall i :: 0 <= i < |pieces| && pieces[i].Choice? ==> pieces[i].texts != []
  }

  lemma {:induction false} PiecesOffer(glob: string)
    ensures ChoicesOffer(Pieces(glob))
    decreases |glob|
  {
    if glob != [] {
      PiecesOffer(glob[HeadSize(glob)..]);
    }
  }

  function SlashRun(n: nat): (r: string)
    ensures |r| == n && Slashes(r) == n && '\n' !in r && (n > 0 ==> r[n - 1] == '/')
  {
    if n == 0 then [] else
      var r := ['/'] + SlashRun(n - 1);
      assert r[1..] == SlashRun(n - 1);
      r
  }

  /** A text the piece matches, with `n` slashes where it can cross them. */
  function Sample(p: Piece, n: nat): (w: string)
    requires p.Choice? ==> p.texts != []
    ensures PieceMatches(p, w) && (IsStars(p) ==> Slashes(w) >= n)
  {
    match p
    case AnyDirectories => SlashRun(n)
    case AnyPath => SlashRun(n)
    case Star => []
    case One => ['x']
    case Choice(texts) => texts[0]
    case Literal(c) => [c]
  }

  /** With a `**` in it, the expression matches texts with as many slashes as one likes. */
  lemma {:induction false} ManySlashes(pieces: seq<Piece>, n: nat) returns (s: string)
    requires ChoicesOffer(pieces)
    ensures FullMatch(pieces, s) && (HasStars(pieces) ==> Slashes(s) >= n)
    decreases |pieces|
  {
    if pieces == [] {
      s := [];
    } else {
      var w := Sample(pieces[0], n);
      var t := ManySlashes(pieces[1..], n);
      s := w + t;
      SlashesConcat(w, t);
      assert s[..|w|] == w && s[|w|..] == t;
      if HasStars(pieces) && !IsStars(pieces[0]) {
        var i :| 0 <= i < |pieces| && IsStars(pieces[i]);
        assert IsStars(pieces[1..][i - 1]);
      }
    }
  }

  lemma {:induction false} SplitCountsSlashes(s: string)
    ensures |Split(s, '/')| == Slashes(s) + 1
    decreases |s|
  {
    var at := Find(s, '/', 0);
    FirstSegment(s);
    if at < 0 {
      NoSlashes(s);
    } else {
      var head, rest := s[..at], s[at + 1..];
      SplitCountsSlashes(rest);
      assert s == head + (['/'] + rest);
      SlashesConcat(head, ['/'] + rest);
      NoSlashes(head);
      assert (['/'] + rest)[1..] == rest;
    }
  }

  /** Without a `**` component, a matching text has as many segments as the glob has components. */
  lemma {:induction false} SegmentCount(gs: seq<string>, ss: seq<string>)
    requires "**" !in gs && SegmentsMatch(gs, ss)
    ensures |ss| == |gs|
    decreases |gs|
  {
    if gs != [] {
      assert gs[0] in gs;
      SegmentCount(gs[1..], ss[1..]);
    }
  }

  /** A glob with a `**` in it, none of whose components is `**`, matches a text by expression that
      it does not match by segments. */
  lemma LooseStarsDisagree(g: string) returns (s: string)
    requires "**" !in Split(g, '/') && HasStars(Pieces(g))
    ensures GlobMatches(g, s) && !SegmentsMatch(Split(g, '/'), Split(s, '/'))
  {
    PiecesOffer(g);
    s := ManySlashes(Pieces(g), |Split(g, '/')|);
    SplitCountsSlashes(s);
    if SegmentsMatch(Split(g, '/'), Split(s, '/')) {
      SegmentCount(Split(g, '/'), Split(s, '/'));
    }
  }

  /** No closed brace holds a `/`. */
  predicate BracesHoldNoSlash(g: string)
    decreases |g|
  {
    g == [] || ((HeadPiece(g).Choice? ==> '/' !in g[..Find(g, '}', 0)]) && BracesHoldNoSlash(g[HeadSize(g)..]))
  }

  lemma {:induction false} NoStarsIsTame(g: string, atStart: bool)
    requires BracesHoldNoSlash(g) && !HasStars(Pieces(g))
    ensures Tame(g, atStart)
    decreases |g|
  {
    if g != [] {
      var rest := g[HeadSize(g)..];
      assert Pieces(g)[0] == HeadPiece(g);
      assert !IsStars(HeadPiece(g));
      assert forall i :: 0 <= i < |Pieces(rest)| ==> Pieces(g)[i + 1] == Pieces(rest)[i];
      NoStarsIsTame(rest, false);
      NoStarsIsTame(rest, true);
    }
  }

  ghost predicate AgreesEverywhereOn(g: string) {
    forall s :: AgreesOn(g, s)
  }

  /** For globs without a `**` component and without a `/` in braces, agreement on every text is
      exactly the absence of `**`. */
  lemma AgreementIffNoLooseStars(g: string)
    requires "**" !in Split(g, '/') && BracesHoldNoSlash(g)
    ensures AgreesEverywhereOn(g) <==> !HasStars(Pieces(g))
  {
    if HasStars(Pieces(g)) {
      var s := LooseStarsDisagree(g);
      assert !AgreesOn(g, s);
    } else {
      NoStarsIsTame(g, true);
      forall s ensures AgreesOn(g, s) {
        AgreesEverywhere(g, s);
      }
    }
  }

  // ---- A glob that is not tame and agrees all the same ----

  /** No newline before offset `k`, no `/` from it on. */
  predicate LooseAt(s: string, k: nat)
    requires k <= |s|
  {
    '\n' !in s[..k] && '/' !in s[k..]
  }

  lemma OneStar(t: string)
    ensures GlobMatches("*", t) <==> '/' !in t
  {
    assert "*"[1..] == [];
    GlobUnfolds("*", t);
    assert t[..|t|] == t && t[|t|..] == [];
    assert HeadThenRest("*", t, |t|) <==> '/' !in t;
    if m :| 0 <= m <= |t| && HeadThenRest("*", t, m) {
      assert m == |t|;
    }
  }

  lemma LooseHead()
    ensures HeadPiece("***") == AnyPath && HeadSize("***") == 2 && "***"[2..] == "*"
  {
    var g := "***";
    assert g[..3] == g && g[2] == '*' && "**/"[2] == '/';
    assert g[..2] == "**";
  }

  lemma LooseStarsTail(s: string)
    ensures GlobMatches("***", s) <==> exists k :: 0 <= k <= |s| && LooseAt(s, k)
  {
    LooseHead();
    GlobUnfolds("***", s);
    forall k | 0 <= k <= |s| ensures HeadThenRest("***", s, k) <==> LooseAt(s, k) {
      OneStar(s[k..]);
    }
  }

  lemma LooseAtPastSlash(s: string, at: nat, k: nat)
    requires at == Find(s, '/', 0) && k <= |s| && LooseAt(s, k)
    ensures '\n' !in s[..at] && at < k && LooseAt(s[at + 1..], k - at - 1)
  {
    assert forall i :: k <= i < |s| ==> s[k..][i - k] == s[i];
    NewlineBesideSlash(s[..k], at);
    assert s[..k][..at] == s[..at];
    var t, m := s[at + 1..], k - at - 1;
    assert s[..k][at + 1..] == t[..m] && t[m..] == s[k..];
  }

  lemma LooseTailPastSlash(s: string, at: nat)
    requires at == Find(s, '/', 0) && GlobMatches("***", s)
    ensures '\n' !in s[..at] && GlobMatches("***", s[at + 1..])
  {
    LooseStarsTail(s);
    LooseStarsTail(s[at + 1..]);
    var k :| 0 <= k <= |s| && LooseAt(s, k);
    LooseAtPastSlash(s, at, k);
  }

  lemma StarTakesAll(g: string, s: string)
    requires g != [] && g[0] == '*' && ComponentMatches(g[1..], [])
    ensures ComponentMatches(g, s)
  {
    assert s[|s|..] == [];
    assert ComponentMatches(g[1..], s[|s|..]);
  }

  lemma StarsTakeAll(s: string)
    ensures ComponentMatches("***", s)
  {
    assert "***"[1..] == "**" && "**"[1..] == "*" && "*"[1..] == [];
    StarTakesAll("*", []);
    StarTakesAll("**", []);
    StarTakesAll("***", s);
  }

  lemma OneLooseComponent(ss: seq<string>)
    ensures SegmentsMatch(["***"], ss) <==> |ss| == 1
  {
    var gs: seq<string> := ["***"];
    assert gs[0] != "**" && gs[1..] == [];
    if ss != [] {
      StarsTakeAll(ss[0]);
      assert |ss[1..]| == |ss| - 1;
    }
  }

  lemma AgreesOneSegmentOn(r: string, s: string, at: int, g: string)
    requires g == "**/" + r && at == Find(s, '/', 0)
    requires Split(g, '/') == ["**"] + [r]
    requires SegmentsMatch([r], Split(s, '/')) <==> |Split(s, '/')| == 1
    requires at < 0 ==> GlobMatches(r, s)
    requires at >= 0 && GlobMatches(r, s) ==> '\n' !in s[..at] && GlobMatches(g, s[at + 1..])
    requires at >= 0 ==> AgreesOn(g, s[at + 1..])
    ensures AgreesOn(g, s)
  {
    DirectoriesUnfold(r, s);
    StarsBeforeOne(r, s);
    if at >= 0 {
      assert GlobMatches(g, s) <==> '\n' !in s[..at] && GlobMatches(g, s[at + 1..]);
    }
  }

  lemma StarsBeforeOne(r: string, s: string)
    requires SegmentsMatch([r], Split(s, '/')) <==> |Split(s, '/')| == 1
    ensures var at, all := Find(s, '/', 0), ["**"] + [r];
      SegmentsMatch(all, Split(s, '/')) <==> at < 0 || ('\n' !in s[..at] && SegmentsMatch(all, Split(s[at + 1..], '/')))
  {
    var at, ss := Find(s, '/', 0), Split(s, '/');
    StarsUnfold([r], ss);
    FirstSegment(s);
    if at >= 0 {
      assert ss[0] == s[..at] && ss[1..] == Split(s[at + 1..], '/');
    }
  }

  lemma LooseTailGoesOn(s: string)
    ensures Find(s, '/', 0) < 0 ==> GlobMatches("***", s)
    ensures Find(s, '/', 0) >= 0 && GlobMatches("***", s) ==>
      '\n' !in s[..Find(s, '/', 0)] && GlobMatches("**/" + "***", s[Find(s, '/', 0) + 1..])
  {
    var at := Find(s, '/', 0);
    if at < 0 {
      LooseStarsTail(s);
      assert s[0..] == s;
      assert LooseAt(s, 0);
    } else if GlobMatches("***", s) {
      LooseTailPastSlash(s, at);
      DirectoriesUnfold("***", s[at + 1..]);
    }
  }

  /** `**` inside a component costs nothing behind a `**` component: the condition is not necessary. */
  lemma {:induction false} TameIsNotNecessary(s: string)
    ensures !Tame("**/" + "***", true) && AgreesOn("**/" + "***", s)
    decreases |s|
  {
    NotTame();
    SplitAfterStars("***");
    LooseTailGoesOn(s);
    OneLooseComponent(Split(s, '/'));
    if Find(s, '/', 0) >= 0 {
      TameIsNotNecessary(s[Find(s, '/', 0) + 1..]);
    }
    assert Split("***", '/') == ["***"];
    AgreesOneSegmentOn("***", s, Find(s, '/', 0), "**/" + "***");
  }

  lemma NotTame()
    ensures !Tame("**/" + "***", true)
  {
    var g, t := "**/" + "***", "***";
    assert g[3..] == t && t[2] == '*';
    assert Stars(t);
  }
}
