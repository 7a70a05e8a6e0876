/**
 The lexical rules of the JS, TS and JSONC scanner in
 ci/affected-graph/cargo_moon_parity.py (`_scan_js`), as a function from a text to the
 tokens it falls into.
 */
module JsTokens {
  import opened Text

  /** What the scanner asks Python's character and regex tables: letters, and whether the
      text in front of a `/` ends in a keyword that starts an expression. */
  datatype Lexicon = Lexicon(alpha: char -> bool, keyword: string -> bool)

  /** The mode stack: code with its brace depth, or a template literal. */
  datatype Frame = CodeFrame(depth: int) | TplFrame

  datatype Kind =
    | Plain
    | LineComment
    | BlockComment
    | Str(value: string)
    | Regex
    | TplText

  datatype Token = Token(kind: Kind, lo: int, hi: int)

  datatype Step = Fail | Move(token: Token, stack: seq<Frame>, prev: Option<char>)

  const REGEX_PREV := "(,=:[!&|?{};+-*%<>~^"

  predicate IsQuote(c: char) {
    c == '\'' || c == '"'
  }

  predicate At(text: string, i: int, c: char) {
    0 <= i < |text| && text[i] == c
  }

  // ----- Where each literal ends -----

  function LineEnd(text: string, i: int): (r: int)
    requires 0 <= i <= |text|
    ensures i <= r <= |text| && (forall k :: i <= k < r ==> text[k] != '\n') && (r < |text| ==> text[r] == '\n')
    decreases |text| - i
  {
    if i == |text| || text[i] == '\n' then i else LineEnd(text, i + 1)
  }

  /** The offset of the next star-slash; -1 when absent. */
  function CommentClose(text: string, i: int): (r: int)
    requires 0 <= i
    ensures r == -1 || (i <= r <= |text| - 2 && text[r] == '*' && text[r + 1] == '/')
    ensures forall k :: i <= k < (if r < 0 then |text| - 1 else r) ==> !(At(text, k, '*') && At(text, k + 1, '/'))
    decreases |text| - i
  {
    if i + 1 >= |text| then -1
    else if text[i] == '*' && text[i + 1] == '/' then i
    else CommentClose(text, i + 1)
  }

  /** The offset of the quote that closes a string; -1 when the line or the text ends first. */
  function StringClose(text: string, j: int, q: char): (r: int)
    requires 0 <= j <= |text|
    ensures r == -1 || (j <= r < |text| && text[r] == q)
    decreases |text| - j
  {
    if j == |text| || text[j] == '\n' then -1
    else if text[j] == q then j
    else if text[j] == '\\' && j + 1 < |text| then StringClose(text, j + 2, q)
    else StringClose(text, j + 1, q)
  }

  /** The string's value: each backslash gives way to the character behind it. */
  function Unescaped(body: string): string
    decreases |body|
  {
    if body == "" then ""
    else if body[0] == '\\' && |body| > 1 then [body[1]] + Unescaped(body[2..])
    else [body[0]] + Unescaped(body[1..])
  }

  /** The offset of the slash that closes a regex literal; -1 when the line ends first. */
  function RegexClose(text: string, j: int, inClass: bool): (r: int)
    requires 0 <= j
    ensures r == -1 || (j <= r < |text| && text[r] == '/')
    decreases |text| - j
  {
    if j >= |text| || text[j] == '\n' then -1
    else if text[j] == '\\' then (if At(text, j + 1, '\n') then -1 else RegexClose(text, j + 2, inClass))
    else if inClass then RegexClose(text, j + 1, text[j] != ']')
    else if text[j] == '[' then RegexClose(text, j + 1, true)
    else if text[j] == '/' then j
    else RegexClose(text, j + 1, false)
  }

  // ----- The same ends, said without the scan -----

  /** How many backslashes stand in front of offset `k`, back to `from`. */
  function BackslashesBefore(text: string, from: int, k: int): (n: nat)
    requires 0 <= from <= k <= |text|
    decreases k
  {
    if k > from && text[k - 1] == '\\' then BackslashesBefore(text, from, k - 1) + 1 else 0
  }

  predicate IsEscaped(text: string, from: int, k: int)
    requires 0 <= from <= k <= |text|
  {
    BackslashesBefore(text, from, k) % 2 == 1
  }

  /** `r` is the first quote `q` from `from` on that is not escaped, and every newline in front of it is. */
  predicate ClosesString(text: string, from: int, q: char, r: int)
    requires 0 <= from <= |text|
  {
    && from <= r < |text| && text[r] == q && !IsEscaped(text, from, r)
    && forall k :: from <= k < r ==> (text[k] == q || text[k] == '\n' ==> IsEscaped(text, from, k))
  }

  lemma {:induction false} StringCloseFrom(text: string, from: int, j: int, q: char, r: int)
    requires 0 <= from <= j <= |text| && !IsEscaped(text, from, j) && q != '\\' && q != '\n'
    requires forall k :: from <= k < j ==> (text[k] == q || text[k] == '\n' ==> IsEscaped(text, from, k))
    ensures ClosesString(text, from, q, r) <==> r >= 0 && StringClose(text, j, q) == r
    decreases |text| - j
  {
    if j < |text| && text[j] != '\n' && text[j] != q {
      var n := BackslashesBefore(text, from, j);
      assert BackslashesBefore(text, from, j + 1) == if text[j] == '\\' then n + 1 else 0;
      if text[j] == '\\' && j + 1 < |text| {
        assert BackslashesBefore(text, from, j + 2) == if text[j + 1] == '\\' then n + 2 else 0;
        StringCloseFrom(text, from, j + 2, q, r);
      } else if j + 1 < |text| {
        StringCloseFrom(text, from, j + 1, q, r);
      } else {
        NothingToClose(text, from, q, r);
      }
    }
  }

  lemma NothingToClose(text: string, from: int, q: char, r: int)
    requires 0 <= from < |text|
    requires forall k :: from <= k < |text| ==> (text[k] == q ==> IsEscaped(text, from, k))
    ensures !ClosesString(text, from, q, r)
  {
  }

  /** The scanner's end of a string is the first unescaped quote with no unescaped newline before it. */
  lemma StringCloseIsFirst(text: string, from: int, q: char, r: int)
    requires 0 <= from <= |text| && IsQuote(q)
    ensures ClosesString(text, from, q, r) <==> r >= 0 && StringClose(text, from, q) == r
  {
    StringCloseFrom(text, from, from, q, r);
  }

  /** How a character inside a regex literal is read. */
  datatype RegexMode = Outside | InClass | Escape(inClass: bool)

  function NextMode(c: char, mode: RegexMode): RegexMode {
    match mode
    case Escape(inClass) => if inClass then InClass else Outside
    case InClass => if c == '\\' then Escape(true) else if c == ']' then Outside else InClass
    case Outside => if c == '\\' then Escape(false) else if c == '[' then InClass else Outside
  }

  function RegexModeAt(text: string, from: int, k: int): RegexMode
    requires 0 <= from <= k <= |text|
    decreases k
  {
    if k == from then Outside else NextMode(text[k - 1], RegexModeAt(text, from, k - 1))
  }

  /** `r` is the first `/` that is neither escaped nor in a class, and no newline stands before it. */
  predicate ClosesRegex(text: string, from: int, r: int)
    requires 0 <= from <= |text|
  {
    && from <= r < |text| && text[r] == '/' && RegexModeAt(text, from, r) == Outside
    && forall k :: from <= k < r ==> text[k] != '\n' && !(text[k] == '/' && RegexModeAt(text, from, k) == Outside)
  }

  lemma {:induction false} RegexCloseFrom(text: string, from: int, j: int, inClass: bool, r: int)
    requires 0 <= from <= j && from <= |text|
    requires j <= |text| ==> RegexModeAt(text, from, j) == if inClass then InClass else Outside
    requires forall k :: from <= k < j && k < |text| ==> text[k] != '\n' && !(text[k] == '/' && RegexModeAt(text, from, k) == Outside)
    ensures ClosesRegex(text, from, r) <==> r >= 0 && RegexClose(text, j, inClass) == r
    decreases |text| - j
  {
    if j < |text| && text[j] != '\n' {
      assert RegexModeAt(text, from, j + 1) == NextMode(text[j], RegexModeAt(text, from, j));
      if text[j] == '\\' {
        if !At(text, j + 1, '\n') {
          if j + 2 <= |text| {
            assert RegexModeAt(text, from, j + 2) == NextMode(text[j + 1], RegexModeAt(text, from, j + 1));
          }
          RegexCloseFrom(text, from, j + 2, inClass, r);
        }
      } else if inClass {
        RegexCloseFrom(text, from, j + 1, text[j] != ']', r);
      } else if text[j] == '[' {
        RegexCloseFrom(text, from, j + 1, true, r);
      } else if text[j] != '/' {
        RegexCloseFrom(text, from, j + 1, false, r);
      }
    }
  }

  /** The scanner's end of a regex literal is that `/`. */
  lemma RegexCloseIsFirst(text: string, from: int, r: int)
    requires 0 <= from <= |text|
    ensures ClosesRegex(text, from, r) <==> r >= 0 && RegexClose(text, from, false) == r
  {
    RegexCloseFrom(text, from, from, false, r);
  }

  function FlagsEnd(lex: Lexicon, text: string, j: int): (r: int)
    requires 0 <= j <= |text|
    ensures j <= r <= |text| && (forall k :: j <= k < r ==> lex.alpha(text[k])) && (r < |text| ==> !lex.alpha(text[r]))
    decreases |text| - j
  {
    if j < |text| && lex.alpha(text[j]) then FlagsEnd(lex, text, j + 1) else j
  }

  /** `text[max(0, i - width):i]`. */
  function Window(text: string, i: int, width: nat): string
    requires 0 <= i <= |text|
  {
    text[if i < width then 0 else i - width..i]
  }

  /** A `/` here opens a regex literal rather than dividing. */
  predicate OpensRegex(lex: Lexicon, text: string, i: int, prev: Option<char>)
    requires 0 <= i < |text|
  {
    var before := TrimRight(Window(text, i, 40), IsSpace);
    (prev.None? || prev.value in REGEX_PREV || lex.keyword(Window(text, i, 16)))
    && !EndsWith(before, "++") && !EndsWith(before, "--")
  }

  // ----- One step -----

  function TplStep(text: string, i: int, stack: seq<Frame>, prev: Option<char>): Step
    requires 0 <= i < |text| && stack != []
  {
    if text[i] == '\\' then Move(Token(TplText, i, if i + 2 <= |text| then i + 2 else |text|), stack, prev)
    else if text[i] == '`' then Move(Token(Plain, i, i + 1), stack[..|stack| - 1], Some('`'))
    else if text[i] == '$' && At(text, i + 1, '{') then Move(Token(Plain, i, i + 2), stack + [CodeFrame(0)], Some('{'))
    else Move(Token(TplText, i, i + 1), stack, prev)
  }

  /** Braces and backticks move the mode stack. */
  function Shifted(c: char, stack: seq<Frame>): seq<Frame>
    requires stack != [] && stack[|stack| - 1].CodeFrame?
  {
    var n := |stack| - 1;
    var depth := stack[n].depth;
    if c == '`' then stack + [TplFrame]
    else if c == '{' then stack[..n] + [CodeFrame(depth + 1)]
    else if c == '}' then (if n > 0 && depth == 0 then stack[..n] else stack[..n] + [CodeFrame(depth - 1)])
    else stack
  }

  function CodeStep(lex: Lexicon, text: string, i: int, stack: seq<Frame>, prev: Option<char>): Step
    requires 0 <= i < |text| && stack != [] && stack[|stack| - 1].CodeFrame?
  {
    var c := text[i];
    if c == '/' && (At(text, i + 1, '/') || At(text, i + 1, '*')) && At(text, i - 1, '\\') then Fail
    else if c == '/' && At(text, i + 1, '/') then
      Move(Token(LineComment, i, LineEnd(text, i)), stack, prev)
    else if c == '/' && At(text, i + 1, '*') then
      var close := CommentClose(text, i + 2);
      if close < 0 then Fail else Move(Token(BlockComment, i, close + 2), stack, prev)
    else if IsQuote(c) then
      var close := StringClose(text, i + 1, c);
      if close < 0 then Fail
      else Move(Token(Str(Unescaped(text[i + 1..close])), i, close + 1), stack, Some(c))
    else if c == '/' && OpensRegex(lex, text, i, prev) then
      var close := RegexClose(text, i + 1, false);
      if close < 0 then Fail
      else Move(Token(Regex, i, FlagsEnd(lex, text, close + 1)), stack, Some('/'))
    else Move(Token(Plain, i, i + 1), Shifted(c, stack), if IsSpace(c) then prev else Some(c))
  }

  /** The outermost frame is code; nothing pops it. */
  predicate GoodStack(stack: seq<Frame>) {
    stack != [] && stack[0].CodeFrame?
  }

  function NextToken(lex: Lexicon, text: string, i: int, stack: seq<Frame>, prev: Option<char>): (r: Step)
    requires 0 <= i < |text| && GoodStack(stack)
    ensures r.Move? ==> r.token.lo == i && i < r.token.hi <= |text| && GoodStack(r.stack)
  {
    if stack[|stack| - 1].TplFrame? then TplStep(text, i, stack, prev) else CodeStep(lex, text, i, stack, prev)
  }

  /** All tokens, or `None` for a text the scanner reports. */
  function Scan(lex: Lexicon, text: string, i: int, stack: seq<Frame>, prev: Option<char>, acc: seq<Token>): Option<seq<Token>>
    requires 0 <= i <= |text| && GoodStack(stack)
    decreases |text| - i
  {
    if i == |text| then (if |stack| > 1 then None else Some(acc))
    else
      match NextToken(lex, text, i, stack, prev)
      case Fail => None
      case Move(token, stack', prev') => Scan(lex, text, token.hi, stack', prev', acc + [token])
  }

  function ScanAll(lex: Lexicon, text: string): Option<seq<Token>> {
    Scan(lex, text, 0, [CodeFrame(0)], None, [])
  }
}
