/**
 Rendering lock file tables at the format's indents, and the theorem that the reader
 returns exactly the rendered tables, whatever is interleaved with them.
 */
module LockfileRoundTrip {
  import opened Text
  import opened Lockfile

  // ----- Rendered words and lines -----

  datatype Quote = Plain | Single | Double
  datatype Word = Word(text: string, quote: Quote)

  function Show(w: Word): string {
    match w.quote
    case Plain => w.text
    case Single => "'" + w.text + "'"
    case Double => "\"" + w.text + "\""
  }

  /** A key that the format can hold in this style. */
  predicate ValidKey(w: Word) {
    match w.quote
    case Plain =>
      w.text != [] && !IsSpace(w.text[0]) && !IsSpace(w.text[|w.text| - 1])
      && w.text[0] != '#' && !IsQuote(w.text[0]) && FindColonSpace(w.text, 0) < 0
    case Single => '\'' !in w.text
    case Double => '"' !in w.text
  }

  predicate ValidValue(w: Word) {
    w.quote.Plain? ==>
      w.text != [] && !IsSpace(w.text[0]) && !IsSpace(w.text[|w.text| - 1])
      && w.text[|w.text| - 1] != ':' && Unquote(w.text) == w.text
  }

  function Spaces(n: nat): (r: string)
    ensures |r| == n && forall i :: 0 <= i < n ==> r[i] == ' '
  {
    seq(n, _ => ' ')
  }

  function KeyLine(n: nat, key: Word): string {
    Spaces(n) + (Show(key) + ":")
  }

  function EntryLine(n: nat, key: Word, value: Word): string {
    Spaces(n) + (Show(key) + ": " + Show(value))
  }

  lemma {:induction false} TrimLeftExact(pad: string, b: string, blank: char -> bool)
    requires forall i :: 0 <= i < |pad| ==> blank(pad[i])
    requires b != [] && !blank(b[0])
    ensures TrimLeft(pad + b, blank) == b
  {
    if pad == [] {
      assert pad + b == b;
    } else {
      var s := pad + b;
      assert s[1..] == pad[1..] + b && s[0] == pad[0];
      TrimLeftExact(pad[1..], b, blank);
      assert TrimLeft(s, blank) == TrimLeft(s[1..], blank);
    }
  }

  predicate SolidEnds(b: string) {
    b != [] && !IsSpace(b[0]) && !IsSpace(b[|b| - 1])
  }

  lemma LineShape(n: nat, b: string)
    requires SolidEnds(b)
    ensures Trim(Spaces(n) + b, IsSpace) == b && Indent(Spaces(n) + b) == n
  {
    TrimLeftExact(Spaces(n), b, IsSpace);
    TrimLeftExact(Spaces(n), b, c => c == ' ');
  }

  lemma SplitKey(key: Word)
    requires ValidKey(key)
    ensures SolidEnds(Show(key) + ":") && (Show(key) + ":")[0] != '#'
    ensures SplitEntry(Show(key) + ":") == (key.text, None)
  {
    var body := Show(key) + ":";
    if !key.quote.Plain? {
      QuotedEnd(key, ":");
      assert body[|key.text| + 3..] == [];
    }
  }

  /** The closing quote of a quoted key is found where the key ends. */
  lemma QuotedEnd(key: Word, tail: string)
    requires ValidKey(key) && !key.quote.Plain?
    ensures
      var body := Show(key) + tail;
      IsQuote(body[0]) && Find(body, body[0], 1) == |key.text| + 1 && body[1..|key.text| + 1] == key.text
  {
    var body := Show(key) + tail;
    var end := |key.text| + 1;
    assert body[1..end] == key.text;
    assert forall i :: 1 <= i < end ==> body[i] == key.text[i - 1];
    assert body[end] == body[0];
  }

  lemma UnquoteShown(value: Word)
    requires ValidValue(value)
    ensures Unquote(Show(value)) == value.text && SolidEnds(Show(value)) && Show(value)[|Show(value)| - 1] != ':'
  {
    var shown := Show(value);
    if !value.quote.Plain? {
      assert shown[1..|shown| - 1] == value.text;
    }
  }

  lemma TrimOnePad(b: string)
    requires SolidEnds(b)
    ensures Trim(" " + b, IsSpace) == b && Trim(b, IsSpace) == b
  {
    TrimLeftExact(" ", b, IsSpace);
  }

  lemma SplitPair(key: Word, value: Word)
    requires ValidKey(key) && ValidValue(value)
    ensures SolidEnds(Show(key) + ": " + Show(value)) && (Show(key) + ": " + Show(value))[0] != '#'
    ensures SplitEntry(Show(key) + ": " + Show(value)) == (key.text, Some(value.text))
  {
    UnquoteShown(value);
    if key.quote.Plain? {
      SplitPlainPair(key.text, Show(value));
    } else {
      SplitQuotedPair(key, Show(value));
    }
  }

  lemma SplitQuotedPair(key: Word, v: string)
    requires ValidKey(key) && !key.quote.Plain? && SolidEnds(v)
    ensures SplitEntry(Show(key) + ": " + v) == (key.text, Some(Unquote(v)))
  {
    var body, end := Show(key) + ": " + v, |key.text| + 1;
    Assoc(Show(key), ": ", v);
    QuotedEnd(key, ": " + v);
    AfterShown(Show(key), v);
    assert |Show(key)| == end + 1;
    TrimOnePad(v);
    SplitAtQuote(body, end);
  }

  lemma AfterShown(shown: string, v: string)
    ensures var body := shown + ": " + v; body[|shown|] == ':' && body[|shown| + 1..] == " " + v
  {
    var body := shown + ": " + v;
    assert body[|shown|..] == ": " + v;
    assert body[|shown| + 1..] == (": " + v)[1..];
  }

  lemma SplitAtQuote(body: string, end: nat)
    requires body != [] && IsQuote(body[0]) && Find(body, body[0], 1) == end
    requires end + 1 < |body| && body[end + 1] == ':' && Trim(body[end + 2..], IsSpace) != []
    ensures SplitEntry(body) == (body[1..end], Some(Unquote(Trim(body[end + 2..], IsSpace))))
  {
  }

  lemma SplitPlainPair(k: string, v: string)
    requires ValidKey(Word(k, Plain)) && SolidEnds(v) && v[|v| - 1] != ':'
    ensures SplitEntry(k + ": " + v) == (k, Some(Unquote(v)))
  {
    var body := k + ": " + v;
    FirstColonSpace(k, v);
    assert body[..|k|] == k && body[|k| + 2..] == v;
    assert Trim(k, IsSpace) == k by { TrimOnePad(k); }
    assert Trim(v, IsSpace) == v by { TrimOnePad(v); }
    SplitAtColon(body, |k|);
  }

  lemma SplitAtColon(body: string, at: nat)
    requires body != [] && !IsQuote(body[0]) && body[|body| - 1] != ':'
    requires FindColonSpace(body, 0) == at
    ensures SplitEntry(body) == (Unquote(Trim(body[..at], IsSpace)), Some(Unquote(Trim(body[at + 2..], IsSpace))))
  {
  }

  lemma FirstColonSpace(k: string, v: string)
    requires FindColonSpace(k, 0) < 0
    ensures FindColonSpace(k + ": " + v, 0) == |k|
  {
    var body := k + ": " + v;
    assert body[|k|] == ':' && body[|k| + 1] == ' ';
    assert forall i :: 0 <= i < |k| ==> body[i] == k[i];
  }

  lemma LexKeyLine(n: nat, key: Word)
    requires ValidKey(key)
    ensures Lex(KeyLine(n, key)) == Entry(n, key.text, None)
  {
    SplitKey(key);
    LineShape(n, Show(key) + ":");
  }

  lemma LexEntryLine(n: nat, key: Word, value: Word)
    requires ValidKey(key) && ValidValue(value)
    ensures Lex(EntryLine(n, key, value)) == Entry(n, key.text, Some(value.text))
  {
    SplitPair(key, value);
    LineShape(n, Show(key) + ": " + Show(value));
  }

  // ----- Keywords -----

  function Keyword(text: string): Word {
    Word(text, Plain)
  }

  predicate Letters(text: string) {
    text != [] && forall i :: 0 <= i < |text| ==> 'a' <= text[i] <= 'z' || 'A' <= text[i] <= 'Z'
  }

  lemma LexKeyword(n: nat, text: string)
    requires Letters(text)
    ensures Lex(KeyLine(n, Keyword(text))) == Entry(n, text, None)
  {
    PlainKeyword(text);
    LexKeyLine(n, Keyword(text));
  }

  lemma LexKeywordEntry(n: nat, text: string, value: Word)
    requires Letters(text) && ValidValue(value)
    ensures Lex(EntryLine(n, Keyword(text), value)) == Entry(n, text, Some(value.text))
  {
    PlainKeyword(text);
    LexEntryLine(n, Keyword(text), value);
  }

  lemma PlainKeyword(text: string)
    requires Letters(text)
    ensures ValidKey(Keyword(text))
  {
    assert forall i :: 0 <= i < |text| ==> text[i] != ':';
  }
}
