/**
 What the tokens of a JS, TS or JSONC text are (`_scan_js` in
 ci/affected-graph/cargo_moon_parity.py), said of a list of tokens and without the scan: which
 brackets are open in front of a token decides between code and template, and in code the text
 at a token's start decides its kind. The scan finds exactly that list.
 */
module JsLexing {
  import opened Text
  import opened JsTokens

  // ----- What is open in front of a token -----

  datatype Bracket = Tick | Hole | Brace

  /** What a token makes of the open brackets, innermost last: a backtick opens a template or closes
      the one it stands in, `${` opens a hole in a template, and braces match as usual. */
  ghost function OpenAfter(text: string, open: seq<Bracket>, t: Token): seq<Bracket> {
    if t.kind != Plain || !(0 <= t.lo < |text|) then open
    else if text[t.lo] == '`' then (if InTemplate(open) then Closed(open) else open + [Tick])
    else if text[t.lo] == '$' && t.hi == t.lo + 2 then open + [Hole]
    else if text[t.lo] == '{' then open + [Brace]
    else if text[t.lo] == '}' then Closed(open)
    else open
  }

  /** The brackets that the tokens leave open. */
  ghost function Open(text: string, toks: seq<Token>): seq<Bracket> {
    if toks == [] then [] else OpenAfter(text, Open(text, toks[..|toks| - 1]), toks[|toks| - 1])
  }

  ghost predicate InTemplate(open: seq<Bracket>) {
    open != [] && open[|open| - 1] == Tick
  }

  ghost function Closed(open: seq<Bracket>): seq<Bracket> {
    if open == [] then [] else open[..|open| - 1]
  }

  /** The character that counts in front of a `/`, after a token: comments, blanks and the text of
      templates leave the one before, and a regex literal counts as its slash. */
  ghost function PreviousAfter(text: string, before: Option<char>, t: Token): Option<char> {
    if !(0 < t.hi <= |text|) then before
    else
      match t.kind
      case Regex => Some('/')
      case Str(_) => Some(text[t.hi - 1])
      case Plain => if IsSpace(text[t.hi - 1]) then before else Some(text[t.hi - 1])
      case _ => before
  }

  ghost function Previous(text: string, toks: seq<Token>): Option<char> {
    if toks == [] then None else PreviousAfter(text, Previous(text, toks[..|toks| - 1]), toks[|toks| - 1])
  }

  /** A postfix operator stands in front of offset `i`, with nothing but blanks between, no further
      back than 40 characters. */
  ghost predicate AfterPostfix(text: string, i: int) {
    exists e :: EndsPostfix(text, i, e)
  }

  ghost predicate EndsPostfix(text: string, i: int, e: int) {
    && 2 <= e <= i <= |text| && i - 40 <= e - 2 && (forall k :: e <= k < i ==> IsSpace(text[k]))
    && ((text[e - 2] == '+' && text[e - 1] == '+') || (text[e - 2] == '-' && text[e - 1] == '-'))
  }

  /** A `/` at offset `i` starts an expression: nothing, an operator or an expression keyword stands
      in front of it, and no postfix operator. */
  ghost predicate StartsRegex(lex: Lexicon, text: string, i: int, prev: Option<char>)
    requires 0 <= i < |text|
  {
    && (prev.None? || prev.value in "(,=:[!&|?{};+-*%<>~^" || lex.keyword(text[if i < 16 then 0 else i - 16..i]))
    && !AfterPostfix(text, i)
  }

  // ----- The tokens of a text -----

  /** A regex literal: its closing `/`, and behind it every letter as a flag. */
  ghost predicate IsRegexEnd(lex: Lexicon, text: string, t: Token, close: int) {
    && 0 <= t.lo < close < t.hi <= |text| && ClosesRegex(text, t.lo + 1, close)
    && (forall k :: close < k < t.hi ==> lex.alpha(text[k])) && (t.hi < |text| ==> !lex.alpha(text[t.hi]))
  }

  ghost predicate IsLineComment(text: string, t: Token) {
    && t.kind == LineComment && 0 <= t.lo < t.hi <= |text|
    && (forall k :: t.lo <= k < t.hi ==> text[k] != '\n') && (t.hi < |text| ==> text[t.hi] == '\n')
  }

  ghost predicate IsBlockComment(text: string, t: Token) {
    && t.kind == BlockComment && 0 <= t.lo && t.lo + 4 <= t.hi <= |text|
    && text[t.hi - 2] == '*' && text[t.hi - 1] == '/'
    && forall k :: t.lo + 2 <= k < t.hi - 2 ==> !(text[k] == '*' && text[k + 1] == '/')
  }

  ghost predicate IsString(text: string, t: Token) {
    && t.kind.Str? && 0 <= t.lo && t.lo + 2 <= t.hi <= |text|
    && ClosesString(text, t.lo + 1, text[t.lo], t.hi - 1) && t.kind.value == Unescaped(text[t.lo + 1..t.hi - 1])
  }

  ghost predicate IsRegex(lex: Lexicon, text: string, t: Token) {
    t.kind == Regex && exists close :: IsRegexEnd(lex, text, t, close)
  }

  /** In code: two slashes and nothing else start a line comment, slash and star a block comment, a
      quote a string, any other slash a regex literal where an expression starts; everything else is
      one plain character. No comment starts behind a backslash. */
  ghost predicate IsCodeToken(lex: Lexicon, text: string, t: Token, prev: Option<char>) {
    && 0 <= t.lo < |text|
    && if text[t.lo] == '/' && t.lo + 1 < |text| && text[t.lo + 1] == '/' then !BehindBackslash(text, t.lo) && IsLineComment(text, t)
       else if text[t.lo] == '/' && t.lo + 1 < |text| && text[t.lo + 1] == '*' then !BehindBackslash(text, t.lo) && IsBlockComment(text, t)
       else if text[t.lo] == '\'' || text[t.lo] == '"' then IsString(text, t)
       else if text[t.lo] == '/' && StartsRegex(lex, text, t.lo, prev) then IsRegex(lex, text, t)
       else t.kind == Plain && t.hi == t.lo + 1
  }

  ghost predicate BehindBackslash(text: string, i: int)
    requires 0 <= i < |text|
  {
    i > 0 && text[i - 1] == '\\'
  }

  /** In a template: an escape of two characters, the backtick that ends it, `${`, or one character of text. */
  ghost predicate IsTemplateToken(text: string, t: Token) {
    && 0 <= t.lo < |text|
    && if text[t.lo] == '\\' then t.kind == TplText && t.hi == (if t.lo + 1 < |text| then t.lo + 2 else t.lo + 1)
       else if text[t.lo] == '`' then t.kind == Plain && t.hi == t.lo + 1
       else if text[t.lo] == '$' && t.lo + 1 < |text| && text[t.lo + 1] == '{' then t.kind == Plain && t.hi == t.lo + 2
       else t.kind == TplText && t.hi == t.lo + 1
  }

  /** `t` is the token that follows `toks`. */
  ghost predicate Follows(lex: Lexicon, text: string, toks: seq<Token>, t: Token) {
    && t.lo == (if toks == [] then 0 else toks[|toks| - 1].hi)
    && if InTemplate(Open(text, toks)) then IsTemplateToken(text, t) else IsCodeToken(lex, text, t, Previous(text, toks))
  }

  ghost predicate IsLexedTo(lex: Lexicon, text: string, toks: seq<Token>, i: int) {
    if toks == [] then i == 0
    else
      var init, t := toks[..|toks| - 1], toks[|toks| - 1];
      IsLexedTo(lex, text, init, t.lo) && Follows(lex, text, init, t) && t.hi == i
  }

  /** The tokens of the whole text, which leaves no template open. */
  ghost predicate IsLexed(lex: Lexicon, text: string, toks: seq<Token>) {
    IsLexedTo(lex, text, toks, |text|) && Tick !in Open(text, toks)
  }

  // ----- The scanner's state -----

  ghost predicate AllBraces(open: seq<Bracket>) {
    forall i :: 0 <= i < |open| ==> open[i] == Brace
  }

  /** The mode stack is the open brackets, with the braces of each frame counted; those of the
      outermost frame do not matter. */
  ghost predicate Mirrors(stack: seq<Frame>, open: seq<Bracket>)
    decreases |stack|
  {
    && stack != []
    && var n := |stack| - 1;
       if n == 0 then stack[0].CodeFrame? && AllBraces(open)
       else
         match stack[n]
         case TplFrame => InTemplate(open) && stack[n - 1].CodeFrame? && Mirrors(stack[..n], Closed(open))
         case CodeFrame(depth) =>
           && 0 <= depth < |open| && AllBraces(open[|open| - depth..]) && open[|open| - depth - 1] == Hole
           && stack[n - 1].TplFrame? && Mirrors(stack[..n], open[..|open| - depth - 1])
  }

  lemma TemplateMirrored(stack: seq<Frame>, open: seq<Bracket>)
    requires Mirrors(stack, open)
    ensures InTemplate(open) <==> stack[|stack| - 1].TplFrame?
    ensures GoodStack(stack)
  {
    OutermostIsCode(stack, open);
  }

  lemma {:induction false} OutermostIsCode(stack: seq<Frame>, open: seq<Bracket>)
    requires Mirrors(stack, open)
    ensures stack[0].CodeFrame? && (|stack| > 1 <==> Tick in open)
    decreases |stack|
  {
    var n := |stack| - 1;
    if n > 0 {
      match stack[n]
      case TplFrame => OutermostIsCode(stack[..n], Closed(open));
      case CodeFrame(depth) =>
        OutermostIsCode(stack[..n], open[..|open| - depth - 1]);
        assert Tick in open[..|open| - depth - 1];
    }
  }

  // ----- Each step finds the token that follows -----

  lemma EndsInPair(s: string, c: char)
    ensures EndsWith(s, [c, c]) <==> |s| >= 2 && s[|s| - 2] == c && s[|s| - 1] == c
  {
    if |s| >= 2 {
      var two := s[|s| - 2..];
      assert two[0] == s[|s| - 2] && two[1] == s[|s| - 1];
    }
  }

  lemma TrimmedEndsPostfix(text: string, i: int, c: char)
    requires 0 <= i <= |text| && (c == '+' || c == '-')
    requires EndsWith(TrimRight(Window(text, i, 40), IsSpace), [c, c])
    ensures AfterPostfix(text, i)
  {
    var from := if i < 40 then 0 else i - 40;
    var window := Window(text, i, 40);
    var n := |TrimRight(window, IsSpace)|;
    EndsInPair(window[..n], c);
    assert forall k :: 0 <= k < |window| ==> window[k] == text[from + k];
    forall k | from + n <= k < i ensures IsSpace(text[k]) {
      assert window[k - from] == text[k];
    }
    assert EndsPostfix(text, i, from + n);
  }

  lemma PostfixEndsTrimmed(text: string, i: int, e: int)
    requires 0 <= i <= |text| && EndsPostfix(text, i, e)
    ensures var before := TrimRight(Window(text, i, 40), IsSpace); EndsWith(before, "++") || EndsWith(before, "--")
  {
    var from := if i < 40 then 0 else i - 40;
    var window := Window(text, i, 40);
    PostfixEnd(text, i, from, window, e);
    var before := window[..e - from];
    assert before[|before| - 2] == text[e - 2] && before[|before| - 1] == text[e - 1];
    EndsInPair(before, '+');
    EndsInPair(before, '-');
  }

  lemma PostfixIsTrimmed(text: string, i: int)
    requires 0 <= i <= |text|
    ensures var before := TrimRight(Window(text, i, 40), IsSpace);
      AfterPostfix(text, i) <==> EndsWith(before, "++") || EndsWith(before, "--")
  {
    var before := TrimRight(Window(text, i, 40), IsSpace);
    if EndsWith(before, "++") {
      TrimmedEndsPostfix(text, i, '+');
    } else if EndsWith(before, "--") {
      TrimmedEndsPostfix(text, i, '-');
    }
    if e :| EndsPostfix(text, i, e) {
      PostfixEndsTrimmed(text, i, e);
    }
  }

  lemma PostfixEnd(text: string, i: int, from: int, window: string, d: int)
    requires EndsPostfix(text, i, d) && 0 <= from <= d - 2 && window == text[from..i]
    ensures TrimRight(window, IsSpace) == window[..d - from]
  {
    assert forall k :: 0 <= k < |window| ==> window[k] == text[from + k];
    TrimRightStops(window, d - from, IsSpace);
  }

  lemma RegexStartIs(lex: Lexicon, text: string, i: int, prev: Option<char>)
    requires 0 <= i < |text|
    ensures OpensRegex(lex, text, i, prev) <==> StartsRegex(lex, text, i, prev)
  {
    PostfixIsTrimmed(text, i);
  }

  lemma LineCommentIs(text: string, t: Token)
    requires 0 <= t.lo < |text| && text[t.lo] != '\n'
    ensures IsLineComment(text, t) <==> t == Token(LineComment, t.lo, LineEnd(text, t.lo))
  {
  }

  lemma BlockCommentIs(text: string, t: Token)
    requires 0 <= t.lo && t.lo + 2 <= |text|
    ensures var close := CommentClose(text, t.lo + 2);
      IsBlockComment(text, t) <==> close >= 0 && t == Token(BlockComment, t.lo, close + 2)
  {
    var close := CommentClose(text, t.lo + 2);
    if IsBlockComment(text, t) {
      assert At(text, t.hi - 2, '*') && At(text, t.hi - 2 + 1, '/');
    }
    if close >= 0 {
      forall k | t.lo + 2 <= k < close ensures !(text[k] == '*' && text[k + 1] == '/') {
        assert !(At(text, k, '*') && At(text, k + 1, '/'));
      }
    }
  }

  lemma StringIs(text: string, t: Token)
    requires 0 <= t.lo < |text| && (text[t.lo] == '\'' || text[t.lo] == '"')
    ensures var close := StringClose(text, t.lo + 1, text[t.lo]);
      IsString(text, t) <==> close >= 0 && t == Token(Str(Unescaped(text[t.lo + 1..close])), t.lo, close + 1)
  {
    var close := StringClose(text, t.lo + 1, text[t.lo]);
    StringCloseIsFirst(text, t.lo + 1, text[t.lo], t.hi - 1);
    StringCloseIsFirst(text, t.lo + 1, text[t.lo], close);
  }

  lemma RegexIs(lex: Lexicon, text: string, t: Token)
    requires 0 <= t.lo < |text|
    ensures var close := RegexClose(text, t.lo + 1, false);
      IsRegex(lex, text, t) <==> close >= 0 && t == Token(Regex, t.lo, FlagsEnd(lex, text, close + 1))
  {
    var close := RegexClose(text, t.lo + 1, false);
    RegexCloseIsFirst(text, t.lo + 1, close);
    if close >= 0 && t == Token(Regex, t.lo, FlagsEnd(lex, text, close + 1)) {
      assert IsRegexEnd(lex, text, t, close);
    }
    if t.kind == Regex {
      if end :| IsRegexEnd(lex, text, t, end) {
        RegexCloseIsFirst(text, t.lo + 1, end);
        FlagsEndHere(lex, text, t, end);
      }
    }
  }

  lemma FlagsEndHere(lex: Lexicon, text: string, t: Token, end: int)
    requires IsRegexEnd(lex, text, t, end)
    ensures FlagsEnd(lex, text, end + 1) == t.hi
  {
  }

  lemma CommentStepIs(lex: Lexicon, text: string, stack: seq<Frame>, prev: Option<char>, t: Token)
    requires 0 <= t.lo < |text| && stack != [] && stack[|stack| - 1].CodeFrame?
    requires text[t.lo] == '/' && (At(text, t.lo + 1, '/') || At(text, t.lo + 1, '*'))
    ensures var r := CodeStep(lex, text, t.lo, stack, prev); IsCodeToken(lex, text, t, prev) <==> r.Move? && r.token == t
  {
    if At(text, t.lo + 1, '/') {
      LineCommentIs(text, t);
    } else {
      BlockCommentIs(text, t);
    }
  }

  lemma StringStepIs(lex: Lexicon, text: string, stack: seq<Frame>, prev: Option<char>, t: Token)
    requires 0 <= t.lo < |text| && stack != [] && stack[|stack| - 1].CodeFrame?
    requires text[t.lo] == '\'' || text[t.lo] == '"'
    ensures var r := CodeStep(lex, text, t.lo, stack, prev); IsCodeToken(lex, text, t, prev) <==> r.Move? && r.token == t
  {
    StringIs(text, t);
  }

  lemma SlashStepIs(lex: Lexicon, text: string, stack: seq<Frame>, prev: Option<char>, t: Token)
    requires 0 <= t.lo < |text| && stack != [] && stack[|stack| - 1].CodeFrame?
    requires text[t.lo] == '/' && !At(text, t.lo + 1, '/') && !At(text, t.lo + 1, '*') && StartsRegex(lex, text, t.lo, prev)
    ensures var r := CodeStep(lex, text, t.lo, stack, prev); IsCodeToken(lex, text, t, prev) <==> r.Move? && r.token == t
  {
    RegexStartIs(lex, text, t.lo, prev);
    RegexIs(lex, text, t);
  }

  ghost predicate IsPlainHere(lex: Lexicon, text: string, i: int, prev: Option<char>)
    requires 0 <= i < |text|
  {
    && text[i] != '\'' && text[i] != '"'
    && (text[i] == '/' ==> !At(text, i + 1, '/') && !At(text, i + 1, '*') && !StartsRegex(lex, text, i, prev))
  }

  lemma PlainStepIs(lex: Lexicon, text: string, stack: seq<Frame>, prev: Option<char>, t: Token)
    requires 0 <= t.lo < |text| && stack != [] && stack[|stack| - 1].CodeFrame? && IsPlainHere(lex, text, t.lo, prev)
    ensures var r := CodeStep(lex, text, t.lo, stack, prev); IsCodeToken(lex, text, t, prev) <==> r.Move? && r.token == t
  {
    RegexStartIs(lex, text, t.lo, prev);
  }

  /** In code, a step of the scan gives the one token there is. */
  lemma CodeStepIs(lex: Lexicon, text: string, stack: seq<Frame>, prev: Option<char>, t: Token)
    requires 0 <= t.lo < |text| && stack != [] && stack[|stack| - 1].CodeFrame?
    ensures var r := CodeStep(lex, text, t.lo, stack, prev); IsCodeToken(lex, text, t, prev) <==> r.Move? && r.token == t
  {
    if text[t.lo] == '/' && (At(text, t.lo + 1, '/') || At(text, t.lo + 1, '*')) {
      CommentStepIs(lex, text, stack, prev, t);
    } else if text[t.lo] == '\'' || text[t.lo] == '"' {
      StringStepIs(lex, text, stack, prev, t);
    } else if text[t.lo] == '/' && StartsRegex(lex, text, t.lo, prev) {
      SlashStepIs(lex, text, stack, prev, t);
    } else {
      PlainStepIs(lex, text, stack, prev, t);
    }
  }

  lemma TplStepIs(text: string, stack: seq<Frame>, prev: Option<char>, t: Token)
    requires 0 <= t.lo < |text| && stack != []
    ensures var r := TplStep(text, t.lo, stack, prev); IsTemplateToken(text, t) <==> r.Move? && r.token == t
  {
  }

  // ----- And keeps track of what is open -----

  lemma PushMirrors(stack: seq<Frame>, open: seq<Bracket>)
    requires Mirrors(stack, open)
    ensures stack[|stack| - 1].CodeFrame? ==> Mirrors(stack + [TplFrame], open + [Tick])
    ensures stack[|stack| - 1].TplFrame? ==> Mirrors(stack + [CodeFrame(0)], open + [Hole])
  {
    assert (stack + [TplFrame])[..|stack|] == stack && (stack + [CodeFrame(0)])[..|stack|] == stack;
    assert Closed(open + [Tick]) == open && (open + [Hole])[..|open|] == open;
  }

  lemma BraceMirrors(stack: seq<Frame>, open: seq<Bracket>, n: nat, depth: int)
    requires Mirrors(stack, open) && n == |stack| - 1 && stack[n] == CodeFrame(depth)
    ensures Mirrors(stack[..n] + [CodeFrame(depth + 1)], open + [Brace])
  {
    var deeper, more := stack[..n] + [CodeFrame(depth + 1)], open + [Brace];
    assert deeper[..n] == stack[..n];
    if n > 0 {
      var at := |open| - depth - 1;
      assert |more| - (depth + 1) - 1 == at && more[..at] == open[..at] && more[at] == open[at];
      assert more[|more| - (depth + 1)..] == open[|open| - depth..] + [Brace];
      assert deeper[n - 1] == stack[n - 1];
    }
  }

  lemma UnbraceMirrors(stack: seq<Frame>, open: seq<Bracket>, n: nat, depth: int)
    requires Mirrors(stack, open) && n == |stack| - 1 && stack[n] == CodeFrame(depth) && (n == 0 || depth > 0)
    ensures Mirrors(stack[..n] + [CodeFrame(depth - 1)], Closed(open))
  {
    var shallower, fewer := stack[..n] + [CodeFrame(depth - 1)], Closed(open);
    assert shallower[..n] == stack[..n];
    if n > 0 {
      var at := |open| - depth - 1;
      assert |fewer| - (depth - 1) - 1 == at && fewer[..at] == open[..at] && fewer[at] == open[at];
      assert fewer[|fewer| - (depth - 1)..] == open[|open| - depth..|open| - 1];
      assert shallower[n - 1] == stack[n - 1];
    }
  }

  /** What a plain character of code makes of the open brackets. */
  lemma PlainOpens(text: string, open: seq<Bracket>, i: int)
    requires 0 <= i < |text| && !InTemplate(open)
    ensures OpenAfter(text, open, Token(Plain, i, i + 1)) ==
      if text[i] == '`' then open + [Tick] else if text[i] == '{' then open + [Brace] else if text[i] == '}' then Closed(open) else open
  {
  }

  lemma CloseMirrors(stack: seq<Frame>, open: seq<Bracket>)
    requires Mirrors(stack, open) && stack[|stack| - 1].CodeFrame?
    ensures Mirrors(Shifted('}', stack), Closed(open))
  {
    var n := |stack| - 1;
    if n == 0 || stack[n].depth != 0 {
      UnbraceMirrors(stack, open, n, stack[n].depth);
    }
  }

  lemma ShiftMirrors(text: string, stack: seq<Frame>, open: seq<Bracket>, i: int)
    requires Mirrors(stack, open) && stack[|stack| - 1].CodeFrame? && 0 <= i < |text|
    ensures Mirrors(Shifted(text[i], stack), OpenAfter(text, open, Token(Plain, i, i + 1)))
  {
    var n := |stack| - 1;
    TemplateMirrored(stack, open);
    PlainOpens(text, open, i);
    if text[i] == '`' {
      PushMirrors(stack, open);
    } else if text[i] == '{' {
      BraceMirrors(stack, open, n, stack[n].depth);
    } else if text[i] == '}' {
      CloseMirrors(stack, open);
    }
  }

  /** The scanner's stack and previous character are those of the tokens so far. */
  ghost predicate Tracks(text: string, toks: seq<Token>, stack: seq<Frame>, prev: Option<char>) {
    Mirrors(stack, Open(text, toks)) && prev == Previous(text, toks)
  }

  lemma TplStepPrev(text: string, stack: seq<Frame>, prev: Option<char>, i: int)
    requires 0 <= i < |text| && stack != []
    ensures var r := TplStep(text, i, stack, prev); r.prev == PreviousAfter(text, prev, r.token)
  {
    assert !IsSpace('`') && !IsSpace('{');
  }

  lemma TplStepMirrors(text: string, open: seq<Bracket>, stack: seq<Frame>, prev: Option<char>, i: int)
    requires 0 <= i < |text| && Mirrors(stack, open) && stack[|stack| - 1].TplFrame? && InTemplate(open)
    requires Mirrors(stack + [CodeFrame(0)], open + [Hole]) && Mirrors(stack[..|stack| - 1], Closed(open))
    ensures var r := TplStep(text, i, stack, prev); Mirrors(r.stack, OpenAfter(text, open, r.token))
  {
    var r := TplStep(text, i, stack, prev);
    if text[i] == '`' {
      assert OpenAfter(text, open, r.token) == Closed(open);
    } else if r.token.kind == Plain {
      assert OpenAfter(text, open, r.token) == open + [Hole];
    } else {
      assert OpenAfter(text, open, r.token) == open;
    }
  }

  lemma PopMirrors(stack: seq<Frame>, open: seq<Bracket>)
    requires Mirrors(stack, open) && stack[|stack| - 1].TplFrame?
    ensures Mirrors(stack[..|stack| - 1], Closed(open)) && InTemplate(open)
  {
  }

  lemma TplStepTracks(text: string, open: seq<Bracket>, stack: seq<Frame>, prev: Option<char>, i: int)
    requires 0 <= i < |text| && Mirrors(stack, open) && stack[|stack| - 1].TplFrame?
    ensures var r := TplStep(text, i, stack, prev);
      Mirrors(r.stack, OpenAfter(text, open, r.token)) && r.prev == PreviousAfter(text, prev, r.token)
  {
    PopMirrors(stack, open);
    PushMirrors(stack, open);
    TplStepPrev(text, stack, prev, i);
    TplStepMirrors(text, open, stack, prev, i);
  }

  /** A code step either reads one plain character and shifts, or leaves the stack alone. */
  lemma CodeStepShape(lex: Lexicon, text: string, stack: seq<Frame>, prev: Option<char>, i: int)
    requires 0 <= i < |text| && stack != [] && stack[|stack| - 1].CodeFrame?
    ensures var r := CodeStep(lex, text, i, stack, prev);
      r.Move? ==> if r.token.kind == Plain then r.token == Token(Plain, i, i + 1) && r.stack == Shifted(text[i], stack) else r.stack == stack
  {
  }

  lemma CodeStepPrev(lex: Lexicon, text: string, stack: seq<Frame>, prev: Option<char>, i: int)
    requires 0 <= i < |text| && stack != [] && stack[|stack| - 1].CodeFrame?
    ensures var r := CodeStep(lex, text, i, stack, prev);
      r.Move? ==> r.prev == PreviousAfter(text, prev, r.token)
  {
  }

  lemma ShapeTracks(text: string, open: seq<Bracket>, stack: seq<Frame>, i: int, t: Token, next: seq<Frame>)
    requires 0 <= i < |text| && Mirrors(stack, open) && stack[|stack| - 1].CodeFrame?
    requires if t.kind == Plain then t == Token(Plain, i, i + 1) && next == Shifted(text[i], stack) else next == stack
    ensures Mirrors(next, OpenAfter(text, open, t))
  {
    if t.kind == Plain {
      ShiftMirrors(text, stack, open, i);
    }
  }

  lemma CodeStepTracks(lex: Lexicon, text: string, open: seq<Bracket>, stack: seq<Frame>, prev: Option<char>, i: int)
    requires 0 <= i < |text| && Mirrors(stack, open) && stack[|stack| - 1].CodeFrame?
    ensures var r := CodeStep(lex, text, i, stack, prev);
      r.Move? ==> Mirrors(r.stack, OpenAfter(text, open, r.token)) && r.prev == PreviousAfter(text, prev, r.token)
  {
    var r := CodeStep(lex, text, i, stack, prev);
    CodeStepShape(lex, text, stack, prev, i);
    CodeStepPrev(lex, text, stack, prev, i);
    if r.Move? {
      ShapeTracks(text, open, stack, i, r.token, r.stack);
    }
  }

  /** One step of the scan, from the state the tokens leave: the token that follows, and its state. */
  lemma StepFollows(lex: Lexicon, text: string, toks: seq<Token>, i: int, stack: seq<Frame>, prev: Option<char>, t: Token)
    requires 0 <= i < |text| && GoodStack(stack) && Tracks(text, toks, stack, prev) && i == (if toks == [] then 0 else toks[|toks| - 1].hi)
    ensures var r := NextToken(lex, text, i, stack, prev);
      && (Follows(lex, text, toks, t) <==> r.Move? && r.token == t)
      && (r.Move? && r.token == t ==> Tracks(text, toks + [t], r.stack, r.prev))
  {
    var open := Open(text, toks);
    TemplateMirrored(stack, open);
    assert (toks + [t])[..|toks|] == toks;
    if stack[|stack| - 1].TplFrame? {
      TplStepTracks(text, open, stack, prev, i);
      if t.lo == i {
        TplStepIs(text, stack, prev, t);
      }
    } else {
      CodeStepTracks(lex, text, open, stack, prev, i);
      if t.lo == i {
        CodeStepIs(lex, text, stack, prev, t);
      }
    }
  }

  // ----- So the scan is the lexing -----

  lemma {:induction false} LexedPrefix(lex: Lexicon, text: string, toks: seq<Token>, i: int, k: nat)
    requires IsLexedTo(lex, text, toks, i) && k < |toks|
    ensures IsLexedTo(lex, text, toks[..k], toks[k].lo) && Follows(lex, text, toks[..k], toks[k])
    decreases |toks|
  {
    var n := |toks| - 1;
    if k < n {
      LexedPrefix(lex, text, toks[..n], toks[n].lo, k);
      assert toks[..n][..k] == toks[..k];
    }
  }

  lemma LexedNext(lex: Lexicon, text: string, toks: seq<Token>, i: int, t: Token)
    requires IsLexedTo(lex, text, toks, i) && Follows(lex, text, toks, t) && t.lo == i
    ensures IsLexedTo(lex, text, toks + [t], t.hi)
  {
    assert (toks + [t])[..|toks|] == toks;
  }

  ghost predicate Extends(toks: seq<Token>, acc: seq<Token>) {
    |acc| <= |toks| && toks[..|acc|] == acc
  }

  lemma LexedEnd(lex: Lexicon, text: string, acc: seq<Token>, i: int)
    requires IsLexedTo(lex, text, acc, i)
    ensures i == if acc == [] then 0 else acc[|acc| - 1].hi
  {
  }

  /** Nothing follows the end of the text. */
  lemma NothingFollowsEnd(lex: Lexicon, text: string, acc: seq<Token>, toks: seq<Token>)
    requires IsLexedTo(lex, text, acc, |text|) && IsLexedTo(lex, text, toks, |text|) && Extends(toks, acc)
    ensures toks == acc
  {
    LexedEnd(lex, text, acc, |text|);
    if |acc| < |toks| {
      LexedPrefix(lex, text, toks, |text|, |acc|);
    }
  }

  lemma MoreToLex(lex: Lexicon, text: string, acc: seq<Token>, i: int, toks: seq<Token>)
    requires IsLexedTo(lex, text, acc, i) && i != |text| && IsLexedTo(lex, text, toks, |text|) && Extends(toks, acc)
    ensures |acc| < |toks|
  {
    LexedEnd(lex, text, acc, i);
    LexedEnd(lex, text, toks, |text|);
    assert |acc| == |toks| ==> toks == acc;
  }

  lemma OneLonger(toks: seq<Token>, acc: seq<Token>)
    requires Extends(toks, acc) && |acc| < |toks|
    ensures Extends(toks, acc + [toks[|acc|]])
  {
    assert toks[..|acc| + 1] == acc + [toks[|acc|]];
  }

  /** Before the end, some token follows, and it is the first that is not in the prefix. */
  lemma NextFollows(lex: Lexicon, text: string, acc: seq<Token>, i: int, toks: seq<Token>)
    requires IsLexedTo(lex, text, acc, i) && i != |text| && IsLexedTo(lex, text, toks, |text|) && Extends(toks, acc)
    ensures |acc| < |toks| && Follows(lex, text, acc, toks[|acc|]) && Extends(toks, acc + [toks[|acc|]])
  {
    MoreToLex(lex, text, acc, i, toks);
    LexedPrefix(lex, text, toks, |text|, |acc|);
    OneLonger(toks, acc);
  }

  lemma {:induction false} ScanFindsLexing(lex: Lexicon, text: string, i: int, stack: seq<Frame>, prev: Option<char>, acc: seq<Token>, toks: seq<Token>)
    requires 0 <= i <= |text| && GoodStack(stack) && IsLexedTo(lex, text, acc, i) && Tracks(text, acc, stack, prev)
    ensures Scan(lex, text, i, stack, prev, acc) == Some(toks) <==> IsLexed(lex, text, toks) && Extends(toks, acc)
    decreases |text| - i
  {
    LexedEnd(lex, text, acc, i);
    if i == |text| {
      OutermostIsCode(stack, Open(text, acc));
      if IsLexed(lex, text, toks) && Extends(toks, acc) {
        NothingFollowsEnd(lex, text, acc, toks);
      }
      assert acc[..|acc|] == acc;
    } else {
      var r := NextToken(lex, text, i, stack, prev);
      if r.Move? {
        StepFollows(lex, text, acc, i, stack, prev, r.token);
        LexedNext(lex, text, acc, i, r.token);
        ScanFindsLexing(lex, text, r.token.hi, r.stack, r.prev, acc + [r.token], toks);
        assert Extends(toks, acc + [r.token]) ==> Extends(toks, acc) by {
          ShorterPrefix(toks, acc, r.token);
        }
      }
      if IsLexed(lex, text, toks) && Extends(toks, acc) {
        NextFollows(lex, text, acc, i, toks);
        StepFollows(lex, text, acc, i, stack, prev, toks[|acc|]);
      }
    }
  }

  lemma ShorterPrefix(toks: seq<Token>, acc: seq<Token>, t: Token)
    ensures Extends(toks, acc + [t]) ==> Extends(toks, acc)
  {
    if Extends(toks, acc + [t]) {
      assert toks[..|acc|] == toks[..|acc| + 1][..|acc|];
    }
  }

  /** The scan returns a list of tokens exactly when the text falls into them. */
  lemma ScanIsLexing(lex: Lexicon, text: string, toks: seq<Token>)
    ensures ScanAll(lex, text) == Some(toks) <==> IsLexed(lex, text, toks)
  {
    ScanFindsLexing(lex, text, 0, [CodeFrame(0)], None, [], toks);
  }
}
