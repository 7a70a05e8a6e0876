/**
 The scanner `_scan_js` of ci/affected-graph/cargo_moon_parity.py, which overwrites two
 copies of the text in place, proved to render the tokens of the text offset by offset.
 */
module JsScanner {
  import opened Text
  import opened JsTokens
  import opened JsLexing

  // ----- What each token leaves behind -----

  /** The character of `code` at an offset of the token. */
  function CodeChar(text: string, t: Token, k: int): char
    requires 0 <= k < |text|
  {
    match t.kind
    case LineComment => ' '
    case BlockComment => if text[k] == '\n' then '\n' else ' '
    case _ => text[k]
  }

  /** The character of `masked` at an offset of the token. */
  function MaskChar(text: string, t: Token, k: int): char
    requires 0 <= k < |text|
  {
    match t.kind
    case Plain => text[k]
    case LineComment => ' '
    case BlockComment => if text[k] == '\n' then '\n' else ' '
    case Str(_) => if k == t.lo || k == t.hi - 1 then text[k] else '_'
    case Regex => if k == t.lo || text[k] == '\n' then text[k] else '_'
    case TplText => if text[k] == '\n' then '\n' else '_'
  }

  type Literals = map<int, (int, string)>

  ghost predicate InText(text: string, toks: seq<Token>) {
    forall j :: 0 <= j < |toks| ==> 0 <= toks[j].lo < toks[j].hi <= |text|
  }

  /** Both copies hold what the tokens leave, and the literals are the string tokens. */
  ghost predicate Renders(text: string, toks: seq<Token>, code: seq<char>, masked: seq<char>, literals: Literals) {
    && InText(text, toks) && |code| == |masked| == |text|
    && (forall j, k :: 0 <= j < |toks| && toks[j].lo <= k < toks[j].hi ==> code[k] == CodeChar(text, toks[j], k))
    && (forall j, k :: 0 <= j < |toks| && toks[j].lo <= k < toks[j].hi ==> masked[k] == MaskChar(text, toks[j], k))
    && (forall j :: 0 <= j < |toks| && toks[j].kind.Str? ==> toks[j].lo in literals && literals[toks[j].lo] == (toks[j].hi, toks[j].kind.value))
    && (forall lo :: lo in literals ==> exists j :: 0 <= j < |toks| && toks[j].kind.Str? && toks[j].lo == lo)
  }

  /** Consecutive tokens touch; together they cover the text up to `i`. */
  ghost predicate Tiles(toks: seq<Token>, i: int) {
    && (forall j :: 0 <= j < |toks| ==> toks[j].lo < toks[j].hi <= i)
    && (toks == [] ==> i == 0)
    && (toks != [] ==> toks[0].lo == 0 && toks[|toks| - 1].hi == i)
    && (forall j, m :: 0 <= j && m == j + 1 && m < |toks| ==> toks[j].hi == toks[m].lo)
  }

  lemma TilesExtend(toks: seq<Token>, i: int, t: Token)
    requires Tiles(toks, i) && t.lo == i && i < t.hi
    ensures Tiles(toks + [t], t.hi)
  {
  }

  lemma {:induction false} TilesOrdered(toks: seq<Token>, i: int, a: int, b: int)
    requires Tiles(toks, i) && 0 <= a < b < |toks|
    ensures toks[a].hi <= toks[b].lo
    decreases b - a
  {
    if a + 1 < b {
      TilesOrdered(toks, i, a, b - 1);
      assert toks[b - 1].hi == toks[b].lo;
    }
  }

  /** Every offset of the covered text lies in a token. */
  lemma {:induction false} TilesCover(toks: seq<Token>, i: int, k: int) returns (j: int)
    requires Tiles(toks, i) && 0 <= k < i
    ensures 0 <= j < |toks| && toks[j].lo <= k < toks[j].hi
    decreases |toks|
  {
    var n := |toks| - 1;
    if toks[n].lo <= k {
      j := n;
    } else {
      assert n > 0;
      assert toks[n - 1].hi == toks[n].lo;
      forall m | 0 <= m < n
        ensures toks[m].hi <= toks[n].lo
      {
        TilesOrdered(toks, i, m, n);
      }
      j := TilesCover(toks[..n], toks[n].lo, k);
    }
  }

  // ----- Overwriting in place -----

  /** `for k in range(lo, hi): a[k] = c`, newlines kept when asked. */
  method Overwrite(a: array<char>, lo: int, hi: int, c: char, keepNewlines: bool)
    requires 0 <= lo <= hi <= a.Length
    modifies a
    ensures forall k :: 0 <= k < a.Length ==>
              a[k] == if lo <= k < hi && !(keepNewlines && old(a[k]) == '\n') then c else old(a[k])
  {
    for k := lo to hi
      invariant forall m :: 0 <= m < a.Length ==>
                  a[m] == if lo <= m < k && !(keepNewlines && old(a[m]) == '\n') then c else old(a[m])
    {
      if !(keepNewlines && a[k] == '\n') {
        a[k] := c;
      }
    }
  }

  /** The two copies get what one token leaves, and nothing else changes. */
  method Mark(text: string, code: array<char>, masked: array<char>, t: Token)
    requires code != masked && code.Length == masked.Length == |text|
    requires 0 <= t.lo < t.hi <= |text|
    requires t.kind.Str? ==> t.lo + 2 <= t.hi
    requires forall k :: t.lo <= k < t.hi ==> code[k] == masked[k] == text[k]
    requires t.kind.LineComment? ==> forall k :: t.lo <= k < t.hi ==> text[k] != '\n'
    modifies code, masked
    ensures forall k :: t.lo <= k < t.hi ==> code[k] == CodeChar(text, t, k) && masked[k] == MaskChar(text, t, k)
    ensures forall k :: 0 <= k < |text| && !(t.lo <= k < t.hi) ==> code[k] == old(code[k]) && masked[k] == old(masked[k])
  {
    match t.kind {
      case Plain =>
      case LineComment =>
        Overwrite(code, t.lo, t.hi, ' ', false);
        Overwrite(masked, t.lo, t.hi, ' ', false);
      case BlockComment =>
        Overwrite(code, t.lo, t.hi, ' ', true);
        Overwrite(masked, t.lo, t.hi, ' ', true);
      case Str(_) => Overwrite(masked, t.lo + 1, t.hi - 1, '_', false);
      case Regex => Overwrite(masked, t.lo + 1, t.hi, '_', true);
      case TplText => Overwrite(masked, t.lo, t.hi, '_', true);
    }
  }

  // ----- Finding where a literal ends -----

  method FindStringClose(text: string, start: int, q: char) returns (close: int, value: string)
    requires 0 <= start <= |text| && IsQuote(q)
    ensures close == StringClose(text, start, q)
    ensures close >= 0 ==> value == Unescaped(text[start..close])
  {
    var j, n := start, |text|;
    value := "";
    ghost var target := StringClose(text, start, q);
    while j < n && text[j] != q && text[j] != '\n'
      invariant start <= j <= n
      invariant target == StringClose(text, j, q)
      invariant target >= 0 ==> j <= target && Unescaped(text[start..target]) == value + Unescaped(text[j..target])
      decreases n - j
    {
      if text[j] == '\\' && j + 1 < n {
        EscapeStep(text, j, target, q, value);
        value := value + [text[j + 1]];
        j := j + 2;
      } else {
        PlainStep(text, j, target, q, value);
        value := value + [text[j]];
        j := j + 1;
      }
    }
    if j >= n || text[j] != q {
      return -1, value;
    }
    assert text[j..j] == "";
    return j, value;
  }

  lemma EscapeStep(text: string, j: int, target: int, q: char, value: string)
    requires 0 <= j && j + 1 < |text| && text[j] == '\\' && text[j] != q && text[j] != '\n'
    requires target == StringClose(text, j, q)
    ensures target == StringClose(text, j + 2, q)
    ensures target >= 0 ==> j + 2 <= target
    ensures target >= 0 ==> value + Unescaped(text[j..target]) == (value + [text[j + 1]]) + Unescaped(text[j + 2..target])
  {
    if target >= 0 {
      var body := text[j..target];
      assert body[0] == '\\' && body[1] == text[j + 1] && body[2..] == text[j + 2..target];
      Assoc(value, [text[j + 1]], Unescaped(text[j + 2..target]));
    }
  }

  lemma PlainStep(text: string, j: int, target: int, q: char, value: string)
    requires 0 <= j < |text| && text[j] != q && text[j] != '\n' && !(text[j] == '\\' && j + 1 < |text|)
    requires target == StringClose(text, j, q)
    ensures target == StringClose(text, j + 1, q)
    ensures target >= 0 ==> j + 1 <= target
    ensures target >= 0 ==> value + Unescaped(text[j..target]) == (value + [text[j]]) + Unescaped(text[j + 1..target])
  {
    if target >= 0 {
      var body := text[j..target];
      assert body[0] == text[j] && body[1..] == text[j + 1..target];
      Assoc(value, [text[j]], Unescaped(text[j + 1..target]));
    }
  }

  method FindRegexClose(text: string, start: int) returns (close: int)
    requires 0 <= start
    ensures close == RegexClose(text, start, false)
  {
    var j, inClass, n := start, false, |text|;
    while j < n && text[j] != '\n'
      invariant start <= j
      invariant RegexClose(text, start, false) == RegexClose(text, j, inClass)
      decreases n - j
    {
      var c := text[j];
      if c == '\\' {
        if At(text, j + 1, '\n') {
          return -1;
        }
        j := j + 2;
        continue;
      }
      if inClass {
        inClass := c != ']';
      } else if c == '[' {
        inClass := true;
      } else if c == '/' {
        return j;
      }
      j := j + 1;
    }
    return -1;
  }

  method FindFlagsEnd(lex: Lexicon, text: string, start: int) returns (j: int)
    requires 0 <= start <= |text|
    ensures j == FlagsEnd(lex, text, start)
  {
    j := start;
    while j < |text| && lex.alpha(text[j])
      invariant start <= j <= |text|
      invariant FlagsEnd(lex, text, start) == FlagsEnd(lex, text, j)
    {
      j := j + 1;
    }
  }

  /** One turn of the scanner's loop, with its own inner loops. */
  method ReadToken(lex: Lexicon, text: string, i: int, stack: seq<Frame>, prev: Option<char>) returns (r: Step)
    requires 0 <= i < |text| && GoodStack(stack)
    ensures r == NextToken(lex, text, i, stack, prev)
  {
    if stack[|stack| - 1].TplFrame? {
      return TplStep(text, i, stack, prev);
    }
    var c := text[i];
    if c == '/' && (At(text, i + 1, '/') || At(text, i + 1, '*')) && At(text, i - 1, '\\') {
      return Fail;
    }
    if c == '/' && At(text, i + 1, '/') {
      return Move(Token(LineComment, i, LineEnd(text, i)), stack, prev);
    }
    if c == '/' && At(text, i + 1, '*') {
      var end := CommentClose(text, i + 2);
      return if end < 0 then Fail else Move(Token(BlockComment, i, end + 2), stack, prev);
    }
    if IsQuote(c) {
      var end, value := FindStringClose(text, i + 1, c);
      return if end < 0 then Fail else Move(Token(Str(value), i, end + 1), stack, Some(c));
    }
    if c == '/' && OpensRegex(lex, text, i, prev) {
      var end := FindRegexClose(text, i + 1);
      if end < 0 {
        return Fail;
      }
      var flags := FindFlagsEnd(lex, text, end + 1);
      return Move(Token(Regex, i, flags), stack, Some('/'));
    }
    return Move(Token(Plain, i, i + 1), Shifted(c, stack), if IsSpace(c) then prev else Some(c));
  }

  // ----- The shape of the tokens -----

  /** What the text of a token looks like, whatever surrounds it. */
  ghost predicate WellShaped(lex: Lexicon, text: string, t: Token) {
    0 <= t.lo < t.hi <= |text|
    && match t.kind
       case LineComment => IsLineComment(text, t)
       case BlockComment => IsBlockComment(text, t)
       case Str(value) => IsString(text, t) && IsQuote(text[t.lo])
       case Regex => IsRegex(lex, text, t)
       case TplText => t.hi - t.lo <= 2
       case Plain => t.hi - t.lo <= 2
  }

  lemma CodeTokenIsWellShaped(lex: Lexicon, text: string, t: Token, prev: Option<char>)
    requires IsCodeToken(lex, text, t, prev)
    ensures WellShaped(lex, text, t)
  {
  }

  lemma TokensAreWellShaped(lex: Lexicon, text: string, i: int, stack: seq<Frame>, prev: Option<char>)
    requires 0 <= i < |text| && GoodStack(stack)
    ensures
      var r := NextToken(lex, text, i, stack, prev);
      r.Move? ==> WellShaped(lex, text, r.token)
  {
    var r := NextToken(lex, text, i, stack, prev);
    if r.Move? && stack[|stack| - 1].CodeFrame? {
      CodeStepIs(lex, text, stack, prev, r.token);
      CodeTokenIsWellShaped(lex, text, r.token, prev);
    }
  }

  // ----- The scanner -----

  function WithLiteral(literals: Literals, t: Token): Literals {
    if t.kind.Str? then literals[t.lo := (t.hi, t.kind.value)] else literals
  }

  ghost predicate Untouched(text: string, i: int, code: seq<char>, masked: seq<char>) {
    |code| == |masked| == |text| && forall k :: 0 <= i <= k < |text| ==> code[k] == masked[k] == text[k]
  }

  /** The copies changed inside the token only, to what the token leaves. */
  ghost predicate Marked(text: string, t: Token, code: seq<char>, masked: seq<char>, code': seq<char>, masked': seq<char>) {
    && |code| == |masked| == |code'| == |masked'| == |text| && 0 <= t.lo < t.hi <= |text|
    && (forall k :: t.lo <= k < t.hi ==> code'[k] == CodeChar(text, t, k) && masked'[k] == MaskChar(text, t, k))
    && (forall k :: 0 <= k < |text| && !(t.lo <= k < t.hi) ==> code'[k] == code[k] && masked'[k] == masked[k])
  }

  lemma RenderCopies(text: string, toks: seq<Token>, i: int, t: Token,
                     code: seq<char>, masked: seq<char>, code': seq<char>, masked': seq<char>, literals: Literals)
    requires Renders(text, toks, code, masked, literals) && Tiles(toks, i) && t.lo == i
    requires Marked(text, t, code, masked, code', masked')
    ensures InText(text, toks + [t])
    ensures forall j, k :: 0 <= j < |toks + [t]| && (toks + [t])[j].lo <= k < (toks + [t])[j].hi ==>
              code'[k] == CodeChar(text, (toks + [t])[j], k) && masked'[k] == MaskChar(text, (toks + [t])[j], k)
  {
    var more := toks + [t];
    forall j, k | 0 <= j < |more| && more[j].lo <= k < more[j].hi
      ensures code'[k] == CodeChar(text, more[j], k) && masked'[k] == MaskChar(text, more[j], k)
    {
      if j < |toks| {
        assert more[j] == toks[j] && k < i;
        assert code[k] == CodeChar(text, toks[j], k) && masked[k] == MaskChar(text, toks[j], k);
      }
    }
  }

  lemma RenderLiterals(text: string, toks: seq<Token>, i: int, t: Token, code: seq<char>, masked: seq<char>, literals: Literals)
    requires Renders(text, toks, code, masked, literals) && Tiles(toks, i) && t.lo == i
    ensures
      var more, lits := toks + [t], WithLiteral(literals, t);
      && (forall j :: 0 <= j < |more| && more[j].kind.Str? ==> more[j].lo in lits && lits[more[j].lo] == (more[j].hi, more[j].kind.value))
      && (forall lo :: lo in lits ==> exists j :: 0 <= j < |more| && more[j].kind.Str? && more[j].lo == lo)
  {
    var more, lits := toks + [t], WithLiteral(literals, t);
    forall j | 0 <= j < |more| && more[j].kind.Str?
      ensures more[j].lo in lits && lits[more[j].lo] == (more[j].hi, more[j].kind.value)
    {
      assert j < |toks| ==> more[j] == toks[j] && toks[j].lo < i;
    }
    forall lo | lo in lits
      ensures exists j :: 0 <= j < |more| && more[j].kind.Str? && more[j].lo == lo
    {
      if lo in literals {
        var j :| 0 <= j < |toks| && toks[j].kind.Str? && toks[j].lo == lo;
        assert more[j] == toks[j];
      } else {
        assert more[|toks|].lo == lo;
      }
    }
  }

  /** The state of the copies in front of offset `i`. */
  ghost predicate Painted(text: string, i: int, toks: seq<Token>, code: seq<char>, masked: seq<char>, literals: Literals) {
    Renders(text, toks, code, masked, literals) && Tiles(toks, i) && Untouched(text, i, code, masked)
  }

  lemma RenderExtend(text: string, toks: seq<Token>, i: int, t: Token,
                     code: seq<char>, masked: seq<char>, code': seq<char>, masked': seq<char>, literals: Literals)
    requires Renders(text, toks, code, masked, literals) && Tiles(toks, i) && t.lo == i
    requires Marked(text, t, code, masked, code', masked') && Untouched(text, i, code, masked)
    ensures Painted(text, t.hi, toks + [t], code', masked', WithLiteral(literals, t))
  {
    TilesExtend(toks, i, t);
    RenderCopies(text, toks, i, t, code, masked, code', masked', literals);
    RenderLiterals(text, toks, i, t, code, masked, literals);
  }

  method Paint(lex: Lexicon, text: string, i: int, t: Token, code: array<char>, masked: array<char>, literals: Literals, ghost toks: seq<Token>)
      returns (literals': Literals)
    requires code != masked && code.Length == masked.Length == |text|
    requires Painted(text, i, toks, code[..], masked[..], literals) && WellShaped(lex, text, t) && t.lo == i
    modifies code, masked
    ensures Painted(text, t.hi, toks + [t], code[..], masked[..], literals')
  {
    ghost var code0, masked0 := code[..], masked[..];
    Mark(text, code, masked, t);
    RenderExtend(text, toks, i, t, code0, masked0, code[..], masked[..], literals);
    literals' := WithLiteral(literals, t);
  }

  datatype Scanned = Unreadable | Ready(code: string, masked: string, literals: Literals)

  /** `_scan_js`: a result exactly for the texts that fall into tokens, and then the two
      copies and the literals that those tokens leave: `code` is blank in comments and the text
      elsewhere, `masked` is besides `_` inside literals. */
  method ScanJs(lex: Lexicon, text: string) returns (r: Scanned, ghost toks: seq<Token>)
    ensures r.Ready? <==> exists ts :: IsLexed(lex, text, ts)
    ensures r.Ready? ==> IsLexed(lex, text, toks) && Tiles(toks, |text|) && Renders(text, toks, r.code, r.masked, r.literals)
    ensures r.Ready? ==> OffsetsKept(text, r.code, r.masked) && LiteralsExact(text, r.masked, r.literals)
  {
    forall ts ensures IsLexed(lex, text, ts) <==> ScanAll(lex, text) == Some(ts) {
      ScanIsLexing(lex, text, ts);
    }
    var n := |text|;
    var code := new char[n](k requires 0 <= k < n => text[k]);
    var masked := new char[n](k requires 0 <= k < n => text[k]);
    var literals: Literals := map[];
    var stack, prev, i := [CodeFrame(0)], None, 0;
    toks := [];
    while i < n
      invariant 0 <= i <= n && GoodStack(stack)
      invariant ScanAll(lex, text) == Scan(lex, text, i, stack, prev, toks)
      invariant Painted(text, i, toks, code[..], masked[..], literals)
      decreases n - i
    {
      var step := ReadToken(lex, text, i, stack, prev);
      if step.Fail? {
        return Unreadable, toks;
      }
      TokensAreWellShaped(lex, text, i, stack, prev);
      literals := Paint(lex, text, i, step.token, code, masked, literals, toks);
      toks := toks + [step.token];
      stack, prev, i := step.stack, step.prev, step.token.hi;
    }
    if |stack| > 1 {
      return Unreadable, toks;
    }
    ScanIsOffsetExact(lex, text, toks, code[..], masked[..], literals);
    return Ready(code[..], masked[..], literals), toks;
  }

  // ----- Offset-exactness -----

  lemma {:induction false} ScanShapes(lex: Lexicon, text: string, i: int, stack: seq<Frame>, prev: Option<char>, acc: seq<Token>)
    requires 0 <= i <= |text| && GoodStack(stack)
    requires forall j :: 0 <= j < |acc| ==> WellShaped(lex, text, acc[j])
    ensures
      var r := Scan(lex, text, i, stack, prev, acc);
      r.Some? ==> forall j :: 0 <= j < |r.value| ==> WellShaped(lex, text, r.value[j])
    decreases |text| - i
  {
    if i < |text| {
      var step := NextToken(lex, text, i, stack, prev);
      if step.Move? {
        TokensAreWellShaped(lex, text, i, stack, prev);
        ScanShapes(lex, text, step.token.hi, step.stack, step.prev, acc + [step.token]);
      }
    }
  }

  /** Copies of the text's length; in `code` every character is the original or a blank with
      every newline kept; in `masked` every character is the one in `code` or `_`. */
  ghost predicate OffsetsKept(text: string, code: string, masked: string) {
    |code| == |masked| == |text|
    && forall k :: 0 <= k < |text| ==>
      && (code[k] == text[k] || code[k] == ' ')
      && (text[k] == '\n' ==> code[k] == '\n')
      && (masked[k] == code[k] || masked[k] == '_')
  }

  /** One literal begins and ends on the same quote; between the quotes `masked` holds nothing
      but `_`, and the value is the unescaped inside. */
  ghost predicate LiteralExact(text: string, masked: string, lo: int, hi: int, value: string) {
    && |masked| == |text| && 0 <= lo && lo + 2 <= hi <= |text|
    && IsQuote(text[lo]) && text[hi - 1] == text[lo]
    && masked[lo] == text[lo] && masked[hi - 1] == text[lo]
    && (forall k :: lo < k < hi - 1 ==> masked[k] == '_')
    && value == Unescaped(text[lo + 1..hi - 1])
  }

  /** Every literal is exact, and no two overlap. */
  ghost predicate LiteralsExact(text: string, masked: string, literals: Literals) {
    && (forall lo :: lo in literals ==> LiteralExact(text, masked, lo, literals[lo].0, literals[lo].1))
    && (forall a, b :: a in literals && b in literals && a < b ==> literals[a].0 <= b)
  }

  /** The scanner is offset-exact. */
  lemma ScanIsOffsetExact(lex: Lexicon, text: string, toks: seq<Token>, code: string, masked: string, literals: Literals)
    requires ScanAll(lex, text) == Some(toks)
    requires Renders(text, toks, code, masked, literals) && Tiles(toks, |text|)
    ensures OffsetsKept(text, code, masked) && LiteralsExact(text, masked, literals)
  {
    ScanShapes(lex, text, 0, [CodeFrame(0)], None, []);
    forall k | 0 <= k < |text|
      ensures (code[k] == text[k] || code[k] == ' ') && (text[k] == '\n' ==> code[k] == '\n')
      ensures masked[k] == code[k] || masked[k] == '_'
    {
      var j := TilesCover(toks, |text|, k);
      assert WellShaped(lex, text, toks[j]);
    }
    LiteralsAreExact(lex, text, toks, code, masked, literals);
  }

  lemma LiteralsAreExact(lex: Lexicon, text: string, toks: seq<Token>, code: string, masked: string, literals: Literals)
    requires Renders(text, toks, code, masked, literals) && Tiles(toks, |text|)
    requires forall j :: 0 <= j < |toks| ==> WellShaped(lex, text, toks[j])
    ensures LiteralsExact(text, masked, literals)
  {
    forall lo | lo in literals
      ensures LiteralExact(text, masked, lo, literals[lo].0, literals[lo].1)
    {
      var j :| 0 <= j < |toks| && toks[j].kind.Str? && toks[j].lo == lo;
      LiteralOfToken(lex, text, toks[j], masked);
    }
    forall a, b | a in literals && b in literals && a < b
      ensures literals[a].0 <= b
    {
      LiteralsApart(text, toks, code, masked, literals, a, b);
    }
  }

  lemma LiteralOfToken(lex: Lexicon, text: string, t: Token, masked: string)
    requires t.kind.Str? && WellShaped(lex, text, t) && |masked| == |text|
    requires forall k :: t.lo <= k < t.hi ==> masked[k] == MaskChar(text, t, k)
    ensures LiteralExact(text, masked, t.lo, t.hi, t.kind.value)
  {
  }

  lemma LiteralsApart(text: string, toks: seq<Token>, code: string, masked: string, literals: Literals, a: int, b: int)
    requires Renders(text, toks, code, masked, literals) && Tiles(toks, |text|)
    requires a in literals && b in literals && a < b
    ensures literals[a].0 <= b
  {
    var i :| 0 <= i < |toks| && toks[i].kind.Str? && toks[i].lo == a;
    var j :| 0 <= j < |toks| && toks[j].kind.Str? && toks[j].lo == b;
    if j < i {
      TilesOrdered(toks, |text|, j, i);
    } else if i < j {
      TilesOrdered(toks, |text|, i, j);
    }
  }
}
