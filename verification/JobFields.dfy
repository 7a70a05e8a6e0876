/**
 A parsed job of a workflow: how the release guard (ci/actionlint/release_guard.py) reads its
 `needs:`, `if:` and `continue-on-error:`, and what these fields mean to the runner, said
 field by field and without the guard's own tests.
 */
module JobFields {
  import opened Text

  datatype NeedsField = NoNeeds | NeedsScalar(name: string) | NeedsList(names: seq<string>)
  datatype IfField = NoIf | IfBool(flag: bool) | IfExpr(raw: string)
  datatype ContinueField = NoContinue | ContinueBool(flag: bool) | ContinueText(raw: string)

  /** The parts of a job the graph rules read. `publishes` and `capability` are the
      verdicts of the marker and grant scans; `environment` is the trimmed and
      case-folded environment name. */
  datatype Job = Job(
    condition: IfField,
    needs: NeedsField,
    onError: ContinueField,
    stepsOnError: seq<ContinueField>,
    environment: Option<string>,
    publishes: bool,
    capability: bool)

  const GATE_EXPR := "vars.PAIGASUS_RELEASE_ENABLED == 'true'"
  const GATE_WRAPPED := "${{ " + GATE_EXPR + " }}"
  const GATE_FORMS := {GATE_EXPR, GATE_WRAPPED}
  const STATUS_FUNCS := ["always", "cancelled", "success", "failure"]

  // ----- What a field means -----

  ghost predicate IsNeed(job: Job, d: string) {
    match job.needs
    case NoNeeds => false
    case NeedsScalar(name) => d == name
    case NeedsList(names) => exists i :: 0 <= i < |names| && names[i] == d
  }

  /** The text alone, with nothing but blanks around it. */
  ghost predicate SaysIf(job: Job, text: string) {
    job.condition.IfExpr? && IsPadded(job.condition.raw, text, IsSpace)
  }

  /** The job's own `if:` is the gate, bare or as one `${{ }}` expression. */
  ghost predicate HasGate(job: Job) {
    SaysIf(job, GATE_EXPR) || SaysIf(job, GATE_WRAPPED)
  }

  /** A failure counts as success: for `true` and for every text but `false`. */
  ghost predicate LetsFailureThrough(f: ContinueField) {
    match f
    case NoContinue => false
    case ContinueBool(flag) => flag
    case ContinueText(raw) => !IsPadded(raw, "false", IsSpace)
  }

  /** The letters of `word`, in any case and with any blanks between them, from offset `i` on. */
  predicate SpellsAt(text: string, i: nat, word: string)
    decreases |text| - i
  {
    word == ""
    || (i < |text|
        && if IsSpace(text[i]) then SpellsAt(text, i + 1, word)
           else LowerChar(text[i]) == word[0] && SpellsAt(text, i + 1, word[1..]))
  }

  ghost predicate IsSpelledIn(text: string, word: string) {
    exists i: nat :: i <= |text| && SpellsAt(text, i, word)
  }

  /** The `if:` spells the name somewhere, and an opening parenthesis behind it. */
  ghost predicate SpellsCall(job: Job, fn: string) {
    job.condition.IfExpr? && IsSpelledIn(job.condition.raw, fn + "(")
  }

  // ----- How the guard reads it -----

  /** `needs_of`: exactly the needs. */
  function NeedsOf(job: Job): (needs: seq<string>)
    ensures forall d :: d in needs <==> IsNeed(job, d)
  {
    match job.needs
    case NoNeeds => []
    case NeedsScalar(name) => [name]
    case NeedsList(names) => names
  }

  /** `if_text`. */
  function IfText(job: Job): Option<string> {
    match job.condition
    case NoIf => None
    case IfBool(flag) => Some(if flag then "true" else "false")
    case IfExpr(raw) => Some(Trim(raw, IsSpace))
  }

  /** `coe_is_false`. */
  predicate ContinueIsFalse(f: ContinueField) {
    match f
    case NoContinue => true
    case ContinueBool(flag) => !flag
    case ContinueText(raw) => Trim(raw, IsSpace) == "false"
  }

  /** The job's own `if:` is one of the two accepted spellings of the gate. */
  predicate DirectlyGated(job: Job) {
    IfText(job).Some? && IfText(job).value in GATE_FORMS
  }

  function Normalised(job: Job): string {
    match IfText(job)
    case None => ""
    case Some(text) => Lower(RemoveBlanks(text))
  }

  /** V3's test on one job for one status function. */
  predicate NamesStatusFunction(job: Job, fn: string) {
    Contains(Normalised(job), fn + "(")
  }

  // ----- It reads what the field means -----

  /** V4 objects to a field exactly when it lets a failure through. */
  lemma ContinueIsExact(f: ContinueField)
    ensures ContinueIsFalse(f) <==> !LetsFailureThrough(f)
  {
    if f.ContinueText? {
      TrimIsPadding(f.raw, "false", IsSpace);
    }
  }

  /** The guard's text of an expression is the expression without the blanks around it. */
  lemma SaysIfIsText(job: Job, text: string)
    requires HasSolidEnds(text, IsSpace)
    ensures SaysIf(job, text) <==> job.condition.IfExpr? && IfText(job) == Some(text)
  {
    if job.condition.IfExpr? {
      TrimIsPadding(job.condition.raw, text, IsSpace);
    }
  }

  lemma GateEnds()
    ensures HasSolidEnds(GATE_EXPR, IsSpace) && HasSolidEnds(GATE_WRAPPED, IsSpace)
    ensures "true" !in GATE_FORMS && "false" !in GATE_FORMS
  {
    assert |GATE_EXPR| == 39 && |GATE_WRAPPED| == 46;
    assert GATE_WRAPPED[0] == '$' && GATE_WRAPPED[45] == '}';
  }

  lemma SaysEither(job: Job, x: string, y: string)
    requires HasSolidEnds(x, IsSpace) && HasSolidEnds(y, IsSpace)
    ensures SaysIf(job, x) || SaysIf(job, y) <==> job.condition.IfExpr? && IfText(job).value in {x, y}
  {
    SaysIfIsText(job, x);
    SaysIfIsText(job, y);
  }

  lemma BoolIsNoGate(job: Job)
    requires job.condition.IfBool?
    ensures !DirectlyGated(job)
  {
    GateEnds();
  }

  /** V1 takes a job for directly gated exactly when its `if:` is the gate. */
  lemma GateIsExact(job: Job)
    ensures DirectlyGated(job) <==> HasGate(job)
  {
    if job.condition.IfBool? {
      BoolIsNoGate(job);
    } else {
      GateEnds();
      SaysEither(job, GATE_EXPR, GATE_WRAPPED);
    }
  }

  // ----- V3 finds exactly the spelled calls -----

  function Squeezed(text: string): string {
    Lower(RemoveBlanks(text))
  }

  lemma SqueezedStarts(text: string)
    requires text != ""
    ensures Squeezed(text) == (if IsSpace(text[0]) then [] else [LowerChar(text[0])]) + Squeezed(text[1..])
  {
  }

  /** Spelling at an offset is starting there once the blanks are gone. */
  lemma {:induction false} SpellsIsPrefix(text: string, i: nat, word: string)
    requires i <= |text|
    ensures SpellsAt(text, i, word) <==> StartsWith(Squeezed(text[i..]), word)
    decreases |text| - i
  {
    if word != "" && i < |text| {
      var rest, s := text[i + 1..], Squeezed(text[i..]);
      assert text[i..][1..] == rest;
      SqueezedStarts(text[i..]);
      if IsSpace(text[i]) {
        SpellsIsPrefix(text, i + 1, word);
      } else {
        SpellsIsPrefix(text, i + 1, word[1..]);
        PrefixCons(s, word);
      }
    }
  }

  lemma PrefixCons(s: string, word: string)
    requires s != "" && word != ""
    ensures StartsWith(s, word) <==> s[0] == word[0] && StartsWith(s[1..], word[1..])
  {
    if |word| <= |s| {
      assert s[..|word|] == [s[0]] + s[1..][..|word| - 1];
      assert word == [word[0]] + word[1..];
    }
  }

  lemma SqueezedSuffix(text: string, i: nat)
    requires i <= |text|
    ensures Squeezed(text) == Squeezed(text[..i]) + Squeezed(text[i..])
  {
    assert text == text[..i] + text[i..];
    RemoveBlanksConcat(text[..i], text[i..]);
  }

  /** Every suffix of the squeezed text is the squeezed rest from some offset on. */
  lemma {:induction false} SuffixIsSqueezed(text: string, k: nat) returns (i: nat)
    requires k <= |Squeezed(text)|
    ensures i <= |text| && Squeezed(text[i..]) == Squeezed(text)[k..]
    decreases |text|
  {
    if k == 0 {
      i := 0;
      assert text[0..] == text;
    } else {
      SqueezedStarts(text);
      var rest := text[1..];
      var j := SuffixIsSqueezed(rest, if IsSpace(text[0]) then k else k - 1);
      i := j + 1;
      assert text[i..] == rest[j..];
    }
  }

  lemma SqueezedContains(text: string, word: string)
    ensures Contains(Squeezed(text), word) <==> IsSpelledIn(text, word)
  {
    var s := Squeezed(text);
    if Contains(s, word) {
      var k :| 0 <= k <= |s| && OccursAt(s, word, k);
      var i := SuffixIsSqueezed(text, k);
      assert s[k..][..|word|] == s[k..k + |word|];
      SpellsIsPrefix(text, i, word);
    }
    if i: nat :| i <= |text| && SpellsAt(text, i, word) {
      SpellsIsPrefix(text, i, word);
      SqueezedSuffix(text, i);
      var k := |Squeezed(text[..i])|;
      assert s[k..k + |word|] == Squeezed(text[i..])[..|word|];
      assert OccursAt(s, word, k);
    }
  }

  lemma NoCallInABool(flag: bool, fn: string)
    ensures !Contains(Lower(RemoveBlanks(if flag then "true" else "false")), fn + "(")
  {
    var text := if flag then "true" else "false";
    SqueezedContains(text, fn + "(");
    forall i: nat | i <= |text| ensures !SpellsAt(text, i, fn + "(") {
      NothingSpelled(text, i, fn + "(");
    }
  }

  lemma {:induction false} NothingSpelled(text: string, i: nat, word: string)
    requires i <= |text| && '(' !in text && '(' in word
    ensures !SpellsAt(text, i, word)
    decreases |text| - i
  {
    if i < |text| {
      if IsSpace(text[i]) {
        NothingSpelled(text, i + 1, word);
      } else if LowerChar(text[i]) == word[0] {
        assert word[0] != '(';
        NothingSpelled(text, i + 1, word[1..]);
      }
    }
  }

  lemma CallsInText(raw: string, word: string)
    ensures Contains(Lower(RemoveBlanks(Trim(raw, IsSpace))), word) <==> IsSpelledIn(raw, word)
  {
    RemoveBlanksOfTrimmed(raw);
    SqueezedContains(raw, word);
  }

  lemma NormalisedIs(job: Job, text: string)
    requires IfText(job) == Some(text)
    ensures Normalised(job) == Lower(RemoveBlanks(text))
  {
  }

  /** V3 reports a function exactly when the `if:` spells its name, in any case and with any
      blanks in it, and then an opening parenthesis. */
  lemma CallsAreExact(job: Job, fn: string)
    ensures NamesStatusFunction(job, fn) <==> SpellsCall(job, fn)
  {
    match job.condition
    case NoIf =>
    case IfBool(flag) =>
      NormalisedIs(job, if flag then "true" else "false");
      NoCallInABool(flag, fn);
    case IfExpr(raw) =>
      NormalisedIs(job, Trim(raw, IsSpace));
      CallsInText(raw, fn + "(");
  }
}
