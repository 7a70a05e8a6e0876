/**
 The waiver engine for cargo invocations in gate scripts (`check_cargo_locked_scripts`): the
 loop that reports rows without a waiver and the loop that checks every waiver still has one row.
 */
module Waivers {
  import opened Text
  import opened Folds
  import opened ShellScan
  import opened CargoMatches
  import opened CargoLines
  import opened Listings

  datatype Waiver = Waiver(rel: string, text: string, reason: string)

  datatype Violation =
    | Unwaived(rel: string, row: Entry)
    | EmptyReason(rel: string, row: Entry)
    | Stale(rel: string, text: string)
    | Ambiguous(rel: string, text: string, times: nat)

  /** The rows of every script scanned, by path. */
  type Scripts = map<string, seq<Entry>>

  /** What the check reads off one row: its waiver key, and whether it is a violation. */
  datatype Entry = Entry(row: Row, text: string, reports: bool)

  /** An invocation must be reported: a redirection always, any other when it resolves without the flag. */
  ghost predicate MustReport(row: Row) {
    match row.kind
    case Env => true
    case Literal => row.resolves && !row.locked
    case Var => row.resolves && !row.locked
  }

  /** `_row_reports`: a flag never satisfies a redirection. */
  predicate RowReports(row: Row)
    ensures RowReports(row) <==> MustReport(row)
  {
    row.kind == Env || (row.resolves && !row.locked)
  }

  function EntryOf(row: Row): Entry {
    Entry(row, Trim(row.segment, IsSpace), RowReports(row))
  }

  function EntriesOf(rows: seq<Row>): seq<Entry> {
    MapAll(EntryOf, rows)
  }

  /** Something in the text is no white space. */
  ghost predicate SaysSomething(s: string) {
    exists i :: 0 <= i < |s| && !IsSpace(s[i])
  }

  predicate IsBlankText(s: string)
    ensures IsBlankText(s) <==> !SaysSomething(s)
  {
    StripsToNothing(s);
    Trim(s, IsSpace) == []
  }

  lemma StripsToNothing(s: string)
    ensures Trim(s, IsSpace) == [] <==> !SaysSomething(s)
  {
    var core := Trim(s, IsSpace);
    TrimmedIsPadded(s, IsSpace);
    TrimmedIsSolid(s, IsSpace);
    var a: nat, b: nat :| IsPaddedBy(s, core, a, b, IsSpace);
    assert core != [] ==> s[a] == core[0];
  }

  /** Waivers are a dictionary: no key twice. */
  ghost predicate DistinctKeys(allow: seq<Waiver>) {
    forall i, j :: 0 <= i < j < |allow| ==> allow[i].rel != allow[j].rel || allow[i].text != allow[j].text
  }

  function ReasonFor(allow: seq<Waiver>, rel: string, text: string): (r: Option<string>)
    ensures r.None? <==> forall w :: w in allow ==> w.rel != rel || w.text != text
    ensures r.Some? ==> Waiver(rel, text, r.value) in allow
  {
    if allow == [] then None
    else if allow[0].rel == rel && allow[0].text == text then Some(allow[0].reason)
    else ReasonFor(allow[1..], rel, text)
  }

  function RowsAt(seen: Scripts, rel: string): seq<Entry> {
    if rel in seen then seen[rel] else []
  }

  /** How many reporting rows carry the waiver's text. */
  function HitCount(rows: seq<Entry>, text: string): nat {
    if rows == [] then 0
    else HitCount(rows[..|rows| - 1], text) + if Hits(rows[|rows| - 1], text) then 1 else 0
  }

  predicate Hits(row: Entry, text: string) {
    row.reports && row.text == text
  }

  // ---- What is a violation ----

  /** A reporting row without a waiver. */
  predicate Unexcused(allow: seq<Waiver>, rel: string, row: Entry) {
    row.reports && ReasonFor(allow, rel, row.text).None?
  }

  /** A reporting row whose waiver gives no reason. */
  predicate SilentlyExcused(allow: seq<Waiver>, rel: string, row: Entry) {
    row.reports && match ReasonFor(allow, rel, row.text) case None => false case Some(reason) => IsBlankText(reason)
  }

  ghost predicate IsViolation(seen: Scripts, allow: seq<Waiver>, v: Violation) {
    match v
    case Unwaived(rel, row) => row in RowsAt(seen, rel) && Unexcused(allow, rel, row)
    case EmptyReason(rel, row) => row in RowsAt(seen, rel) && SilentlyExcused(allow, rel, row)
    case Stale(rel, text) => IsKey(allow, rel, text) && HitCount(RowsAt(seen, rel), text) == 0
    case Ambiguous(rel, text, times) => IsKey(allow, rel, text) && HitCount(RowsAt(seen, rel), text) == times > 1
  }

  predicate IsKey(allow: seq<Waiver>, rel: string, text: string) {
    exists i :: 0 <= i < |allow| && allow[i].rel == rel && allow[i].text == text
  }

  // ---- The two loops ----

  function RowVerdict(allow: seq<Waiver>, rel: string, row: Entry): (r: seq<Violation>)
    ensures forall v :: v in r ==> v == Unwaived(rel, row) || v == EmptyReason(rel, row)
    ensures Unwaived(rel, row) in r <==> Unexcused(allow, rel, row)
    ensures EmptyReason(rel, row) in r <==> SilentlyExcused(allow, rel, row)
  {
    if !row.reports then []
    else
      match ReasonFor(allow, rel, row.text)
      case None => [Unwaived(rel, row)]
      case Some(reason) => if IsBlankText(reason) then [EmptyReason(rel, row)] else []
  }

  function Emitted(allow: seq<Waiver>, rel: string, rows: seq<Entry>): seq<Violation> {
    if rows == [] then [] else Emitted(allow, rel, rows[..|rows| - 1]) + RowVerdict(allow, rel, rows[|rows| - 1])
  }

  /** The violations about one script's own rows. */
  ghost predicate RowViolation(allow: seq<Waiver>, rel: string, rows: seq<Entry>, v: Violation) {
    match v
    case Unwaived(at, row) => at == rel && row in rows && Unexcused(allow, rel, row)
    case EmptyReason(at, row) => at == rel && row in rows && SilentlyExcused(allow, rel, row)
    case Stale(_, _) => false
    case Ambiguous(_, _, _) => false
  }

  lemma {:induction false} EmittedAre(allow: seq<Waiver>, rel: string, rows: seq<Entry>, v: Violation)
    ensures v in Emitted(allow, rel, rows) <==> RowViolation(allow, rel, rows, v)
  {
    if rows != [] {
      var init, last := rows[..|rows| - 1], rows[|rows| - 1];
      EmittedAre(allow, rel, init, v);
      assert rows == init + [last];
      assert v in RowVerdict(allow, rel, last) <==> RowViolation(allow, rel, [last], v);
    }
  }

  method EmitRows(allow: seq<Waiver>, rel: string, rows: seq<Entry>) returns (out: seq<Violation>)
    ensures out == Emitted(allow, rel, rows)
  {
    out := [];
    for i := 0 to |rows|
      invariant out == Emitted(allow, rel, rows[..i])
    {
      assert rows[..i + 1][..i] == rows[..i];
      var verdict := JudgeRow(allow, rel, rows[i]);
      out := out + verdict;
    }
    assert rows[..|rows|] == rows;
  }

  method JudgeRow(allow: seq<Waiver>, rel: string, row: Entry) returns (out: seq<Violation>)
    ensures out == RowVerdict(allow, rel, row)
  {
    out := [];
    if row.reports {
      var reason := ReasonFor(allow, rel, row.text);
      if reason.None? {
        out := [Unwaived(rel, row)];
      } else if IsBlankText(reason.value) {
        out := [EmptyReason(rel, row)];
      }
    }
  }

  /** The verdict on one waiver. */
  function HealthOf(seen: Scripts, w: Waiver): seq<Violation> {
    var times := HitCount(RowsAt(seen, w.rel), w.text);
    if times == 0 then [Stale(w.rel, w.text)] else if times > 1 then [Ambiguous(w.rel, w.text, times)] else []
  }

  ghost predicate HealthViolation(seen: Scripts, allow: seq<Waiver>, v: Violation) {
    (v.Stale? || v.Ambiguous?) && IsViolation(seen, allow, v)
  }

  method CountHits(rows: seq<Entry>, text: string) returns (n: nat)
    ensures n == HitCount(rows, text)
  {
    n := 0;
    for i := 0 to |rows|
      invariant n == HitCount(rows[..i], text)
    {
      assert rows[..i + 1][..i] == rows[..i];
      if Hits(rows[i], text) {
        n := n + 1;
      }
    }
    assert rows[..|rows|] == rows;
  }

  lemma HealthGrows(seen: Scripts, allow: seq<Waiver>, w: Waiver, v: Violation)
    ensures HealthViolation(seen, allow + [w], v) <==> HealthViolation(seen, allow, v) || v in HealthOf(seen, w)
  {
    var more := allow + [w];
    if v.Stale? || v.Ambiguous? {
      assert IsKey(more, v.rel, v.text) <==> IsKey(allow, v.rel, v.text) || (w.rel == v.rel && w.text == v.text) by {
        assert more[|allow|] == w;
        if i :| 0 <= i < |allow| && allow[i].rel == v.rel && allow[i].text == v.text {
          assert more[i] == allow[i];
        }
      }
    }
  }

  /** The health loop. */
  method CheckHealth(seen: Scripts, allow: seq<Waiver>) returns (out: seq<Violation>)
    ensures forall v :: v in out <==> HealthViolation(seen, allow, v)
  {
    out := [];
    for i := 0 to |allow|
      invariant forall v :: v in out <==> HealthViolation(seen, allow[..i], v)
    {
      var w := allow[i];
      assert allow[..i + 1] == allow[..i] + [w];
      forall v ensures HealthViolation(seen, allow[..i + 1], v) <==> v in out || v in HealthOf(seen, w) {
        HealthGrows(seen, allow[..i], w, v);
      }
      var times := CountHits(RowsAt(seen, w.rel), w.text);
      if times == 0 {
        out := out + [Stale(w.rel, w.text)];
      } else if times > 1 {
        out := out + [Ambiguous(w.rel, w.text, times)];
      }
    }
    assert allow[..|allow|] == allow;
  }

  /** The scripts a run of the check has scanned. */
  ghost predicate IsSeen(scan: string -> Outcome<seq<Row>>, visits: seq<string>, seen: Scripts) {
    && (forall rel :: rel in seen <==> rel in visits)
    && forall rel :: rel in seen ==> scan(rel).Scanned? && seen[rel] == EntriesOf(scan(rel).value)
  }

  ghost predicate EmissionViolation(seen: Scripts, allow: seq<Waiver>, v: Violation) {
    (v.Unwaived? || v.EmptyReason?) && IsViolation(seen, allow, v)
  }

  lemma EmissionGrows(seen: Scripts, allow: seq<Waiver>, rel: string, rows: seq<Entry>, v: Violation)
    requires rel !in seen
    ensures EmissionViolation(seen[rel := rows], allow, v) <==> EmissionViolation(seen, allow, v) || v in Emitted(allow, rel, rows)
  {
    EmittedAre(allow, rel, rows, v);
  }

  /** `scan` gives what `script_cargo_lines` returns on each script. */
  ghost predicate IsScanOf(lexis: Lexis, texts: string -> seq<string>, scan: string -> Outcome<seq<Row>>) {
    forall rel {:trigger scan(rel)} :: scan(rel) == ScriptRows(lexis, texts(rel))
  }

  /** The emission loop, then the health loop; a script that does not scan stops the check. */
  method CheckScripts(lexis: Lexis, texts: string -> seq<string>, visits: seq<string>, allow: seq<Waiver>, ghost scan: string -> Outcome<seq<Row>>)
    returns (r: Outcome<seq<Violation>>, seen: Scripts)
    requires DistinctKeys(allow) && IsScanOf(lexis, texts, scan)
    ensures r.Scanned? <==> forall rel :: rel in visits ==> scan(rel).Scanned?
    ensures r.Scanned? ==> IsSeen(scan, visits, seen)
    ensures r.Scanned? ==> forall v :: v in r.value <==> IsViolation(seen, allow, v)
    ensures r.Scanned? ==> (r.value == [] <==>
      EveryRowCoveredOnce(seen, allow) && EveryWaiverCoversOnce(seen, allow) && EveryReasonSaysSomething(allow))
  {
    var rows: seq<Violation> := [];
    seen := map[];
    for i := 0 to |visits|
      invariant IsSeen(scan, visits[..i], seen)
      invariant forall v :: v in rows <==> EmissionViolation(seen, allow, v)
    {
      var rel := visits[i];
      assert visits[..i + 1] == visits[..i] + [rel];
      if rel in seen {
        continue;
      }
      var scanned := ScriptCargoLines(lexis, texts(rel));
      assert scanned == scan(rel);
      if scanned.StillOpen? {
        return StillOpen(scanned.delim), seen;
      }
      var entries := EntriesOf(scanned.value);
      var more := EmitRows(allow, rel, entries);
      forall v ensures EmissionViolation(seen[rel := entries], allow, v) <==> v in rows || v in more {
        EmissionGrows(seen, allow, rel, entries, v);
      }
      seen := seen[rel := entries];
      rows := rows + more;
    }
    assert visits[..|visits|] == visits;
    var health := CheckHealth(seen, allow);
    r := Scanned(rows + health);
    EmptyMeansClean(seen, allow, rows + health);
  }

  // ---- No row means one waiver per reporting row and one reporting row per waiver ----

  /** The `i`th row of script `rel` reports. */
  ghost predicate ReportsAt(seen: Scripts, rel: string, i: int) {
    0 <= i < |RowsAt(seen, rel)| && RowsAt(seen, rel)[i].reports
  }

  ghost predicate IsHit(rows: seq<Entry>, text: string, i: int) {
    0 <= i < |rows| && Hits(rows[i], text)
  }

  /** Waiver `k` is for the reporting row `i` of script `rel`. */
  ghost predicate Covers(seen: Scripts, allow: seq<Waiver>, k: int, rel: string, i: int) {
    0 <= k < |allow| && allow[k].rel == rel && IsHit(RowsAt(seen, rel), allow[k].text, i)
  }

  /** Exactly one waiver is for this row. */
  ghost predicate CoveredOnce(seen: Scripts, allow: seq<Waiver>, rel: string, i: int) {
    exists k :: Covers(seen, allow, k, rel, i) && forall j :: Covers(seen, allow, j, rel, i) ==> j == k
  }

  /** Exactly one row of this script is a hit. */
  ghost predicate OneHit(rows: seq<Entry>, text: string) {
    exists i :: IsHit(rows, text, i) && forall j :: IsHit(rows, text, j) ==> j == i
  }

  ghost predicate EveryRowCoveredOnce(seen: Scripts, allow: seq<Waiver>) {
    forall rel, i :: ReportsAt(seen, rel, i) ==> CoveredOnce(seen, allow, rel, i)
  }

  ghost predicate EveryWaiverCoversOnce(seen: Scripts, allow: seq<Waiver>) {
    forall k :: 0 <= k < |allow| ==> OneHit(RowsAt(seen, allow[k].rel), allow[k].text)
  }

  ghost predicate EveryReasonSaysSomething(allow: seq<Waiver>) {
    forall k :: 0 <= k < |allow| ==> SaysSomething(allow[k].reason)
  }

  ghost predicate IsClean(seen: Scripts, allow: seq<Waiver>) {
    forall v :: !IsViolation(seen, allow, v)
  }

  lemma {:induction false} CountedSomewhere(rows: seq<Entry>, text: string)
    ensures HitCount(rows, text) > 0 <==> exists i :: 0 <= i < |rows| && Hits(rows[i], text)
  {
    if rows != [] {
      var init := rows[..|rows| - 1];
      CountedSomewhere(init, text);
      if i :| 0 <= i < |init| && Hits(init[i], text) {
        assert Hits(rows[i], text);
      }
      if i :| 0 <= i < |rows| && Hits(rows[i], text) && i < |init| {
        assert Hits(init[i], text);
      }
    }
  }

  lemma {:induction false} CountedOnce(rows: seq<Entry>, text: string)
    ensures HitCount(rows, text) <= 1 <==> forall i, j :: 0 <= i < j < |rows| ==> !(Hits(rows[i], text) && Hits(rows[j], text))
  {
    if rows != [] {
      var n := |rows| - 1;
      var init := rows[..n];
      CountedOnce(init, text);
      CountedSomewhere(init, text);
      assert forall i :: 0 <= i < n ==> init[i] == rows[i];
      if Hits(rows[n], text) && HitCount(init, text) > 0 {
        var i :| 0 <= i < |init| && Hits(init[i], text);
        assert Hits(rows[i], text) && Hits(rows[n], text);
      }
    }
  }

  lemma CountsOneHit(rows: seq<Entry>, text: string)
    ensures HitCount(rows, text) == 1 <==> OneHit(rows, text)
  {
    CountedSomewhere(rows, text);
    CountedOnce(rows, text);
    if HitCount(rows, text) == 1 {
      var i :| 0 <= i < |rows| && Hits(rows[i], text);
      assert IsHit(rows, text, i);
    }
    if OneHit(rows, text) {
      var i :| IsHit(rows, text, i) && forall j :: IsHit(rows, text, j) ==> j == i;
      forall a, b | 0 <= a < b < |rows| ensures !(Hits(rows[a], text) && Hits(rows[b], text)) {
        assert IsHit(rows, text, a) && IsHit(rows, text, b) ==> a == i && b == i;
      }
    }
  }

  lemma WaiversHealthy(seen: Scripts, allow: seq<Waiver>)
    ensures (forall v :: !HealthViolation(seen, allow, v)) <==> EveryWaiverCoversOnce(seen, allow)
  {
    if forall v :: !HealthViolation(seen, allow, v) {
      forall k | 0 <= k < |allow| ensures OneHit(RowsAt(seen, allow[k].rel), allow[k].text) {
        var w, n := allow[k], HitCount(RowsAt(seen, allow[k].rel), allow[k].text);
        assert IsKey(allow, w.rel, w.text);
        assert !HealthViolation(seen, allow, Stale(w.rel, w.text));
        assert !HealthViolation(seen, allow, Ambiguous(w.rel, w.text, n));
        CountsOneHit(RowsAt(seen, w.rel), w.text);
      }
    }
    if v :| HealthViolation(seen, allow, v) {
      var k :| 0 <= k < |allow| && allow[k].rel == v.rel && allow[k].text == v.text;
      CountsOneHit(RowsAt(seen, v.rel), v.text);
      assert !OneHit(RowsAt(seen, allow[k].rel), allow[k].text);
    }
  }

  lemma ReasonIsTheOne(allow: seq<Waiver>, k: nat)
    requires DistinctKeys(allow) && k < |allow|
    ensures ReasonFor(allow, allow[k].rel, allow[k].text) == Some(allow[k].reason)
  {
    var r := ReasonFor(allow, allow[k].rel, allow[k].text);
    assert allow[k] in allow;
    var i :| 0 <= i < |allow| && allow[i] == Waiver(allow[k].rel, allow[k].text, r.value);
    assert i == k;
  }

  /** A reporting row is excused exactly when the one waiver for it gives a reason. */
  lemma RowExcused(seen: Scripts, allow: seq<Waiver>, rel: string, i: int)
    requires DistinctKeys(allow) && ReportsAt(seen, rel, i)
    ensures var row := RowsAt(seen, rel)[i];
      !Unexcused(allow, rel, row) && !SilentlyExcused(allow, rel, row) <==>
        exists k :: Covers(seen, allow, k, rel, i) && !IsBlankText(allow[k].reason)
  {
    var row := RowsAt(seen, rel)[i];
    var r := ReasonFor(allow, rel, row.text);
    if r.Some? {
      var k :| 0 <= k < |allow| && allow[k] == Waiver(rel, row.text, r.value);
      assert Covers(seen, allow, k, rel, i);
    }
    if k :| Covers(seen, allow, k, rel, i) && !IsBlankText(allow[k].reason) {
      ReasonIsTheOne(allow, k);
    }
  }

  lemma CoveredOnlyOnce(seen: Scripts, allow: seq<Waiver>, rel: string, i: int, j: int, k: int)
    requires DistinctKeys(allow) && Covers(seen, allow, j, rel, i) && Covers(seen, allow, k, rel, i)
    ensures j == k
  {
  }

  lemma RowsExcused(seen: Scripts, allow: seq<Waiver>)
    requires DistinctKeys(allow)
    ensures (forall v :: !EmissionViolation(seen, allow, v)) <==>
      forall rel, i :: ReportsAt(seen, rel, i) ==> exists k :: Covers(seen, allow, k, rel, i) && !IsBlankText(allow[k].reason)
  {
    if forall v :: !EmissionViolation(seen, allow, v) {
      forall rel, i | ReportsAt(seen, rel, i)
        ensures exists k :: Covers(seen, allow, k, rel, i) && !IsBlankText(allow[k].reason)
      {
        var row := RowsAt(seen, rel)[i];
        assert !EmissionViolation(seen, allow, Unwaived(rel, row));
        assert !EmissionViolation(seen, allow, EmptyReason(rel, row));
        RowExcused(seen, allow, rel, i);
      }
    }
    if v :| EmissionViolation(seen, allow, v) {
      var i :| 0 <= i < |RowsAt(seen, v.rel)| && RowsAt(seen, v.rel)[i] == v.row;
      assert ReportsAt(seen, v.rel, i);
      RowExcused(seen, allow, v.rel, i);
    }
  }

  lemma CleanMeansBothLoops(seen: Scripts, allow: seq<Waiver>)
    ensures IsClean(seen, allow) <==>
      (forall v :: !EmissionViolation(seen, allow, v)) && (forall v :: !HealthViolation(seen, allow, v))
  {
    if IsClean(seen, allow) {
      forall v ensures !EmissionViolation(seen, allow, v) && !HealthViolation(seen, allow, v) {
        assert !IsViolation(seen, allow, v);
      }
    }
    if v :| IsViolation(seen, allow, v) {
      assert EmissionViolation(seen, allow, v) || HealthViolation(seen, allow, v);
    }
  }

  /** The check is clean exactly when rows and waivers correspond one to one and every reason says something. */
  lemma CleanMeansOneToOne(seen: Scripts, allow: seq<Waiver>)
    requires DistinctKeys(allow)
    ensures IsClean(seen, allow) <==>
      EveryRowCoveredOnce(seen, allow) && EveryWaiverCoversOnce(seen, allow) && EveryReasonSaysSomething(allow)
  {
    WaiversHealthy(seen, allow);
    RowsExcused(seen, allow);
    CleanMeansBothLoops(seen, allow);
    if IsClean(seen, allow) {
      forall k | 0 <= k < |allow| ensures !IsBlankText(allow[k].reason) {
        var i :| IsHit(RowsAt(seen, allow[k].rel), allow[k].text, i);
        assert Covers(seen, allow, k, allow[k].rel, i) && ReportsAt(seen, allow[k].rel, i);
        var j :| Covers(seen, allow, j, allow[k].rel, i) && !IsBlankText(allow[j].reason);
        CoveredOnlyOnce(seen, allow, allow[k].rel, i, j, k);
      }
      forall rel, i | ReportsAt(seen, rel, i) ensures CoveredOnce(seen, allow, rel, i) {
        var k :| Covers(seen, allow, k, rel, i);
        forall j | Covers(seen, allow, j, rel, i) ensures j == k {
          CoveredOnlyOnce(seen, allow, rel, i, j, k);
        }
      }
    }
  }

  lemma EmptyMeansClean(seen: Scripts, allow: seq<Waiver>, found: seq<Violation>)
    requires DistinctKeys(allow) && forall v :: v in found <==> IsViolation(seen, allow, v)
    ensures found == [] <==>
      EveryRowCoveredOnce(seen, allow) && EveryWaiverCoversOnce(seen, allow) && EveryReasonSaysSomething(allow)
  {
    CleanMeansOneToOne(seen, allow);
    if found != [] {
      assert found[0] in found;
    }
  }

  // ---- A8 over the text of the scripts ----

  /** Exactly one waiver is for this row of this script. */
  ghost predicate WaivedOnce(allow: seq<Waiver>, rel: string, row: Row) {
    exists k :: IsWaiverFor(allow, k, rel, row) && forall j :: IsWaiverFor(allow, j, rel, row) ==> j == k
  }

  ghost predicate IsWaiverFor(allow: seq<Waiver>, k: int, rel: string, row: Row) {
    0 <= k < |allow| && allow[k].rel == rel && allow[k].text == Trim(row.segment, IsSpace)
  }

  ghost function LinesIn(lexis: Lexis, texts: string -> seq<string>, rel: string): seq<Line> {
    LinesOf(lexis.heredocs, texts(rel))
  }

  ghost predicate IsLayoutOf(lexis: Lexis, texts: string -> seq<string>, rel: string, blocks: seq<Block>) {
    IsLayout(LinesIn(lexis, texts, rel), 0, blocks)
  }

  ghost predicate HasLayout(lexis: Lexis, texts: string -> seq<string>, rel: string) {
    exists blocks :: IsLayoutOf(lexis, texts, rel, blocks)
  }

  ghost predicate CallsIn(lexis: Lexis, texts: string -> seq<string>, rel: string, blocks: seq<Block>, p: Place, row: Row) {
    Invokes(lexis, LinesIn(lexis, texts, rel), Logicals(blocks), p, row)
  }

  /** Script `rel` executes a cargo invocation at this place, with this row. */
  ghost predicate Executes(lexis: Lexis, texts: string -> seq<string>, rel: string, p: Place, row: Row) {
    exists blocks :: IsLayoutOf(lexis, texts, rel, blocks) && CallsIn(lexis, texts, rel, blocks, p, row)
  }

  /** What script `rel` executes at this place reports under the waiver text. */
  ghost predicate ReportsUnder(lexis: Lexis, texts: string -> seq<string>, rel: string, text: string, p: Place) {
    exists row :: Executes(lexis, texts, rel, p, row) && MustReport(row) && Trim(row.segment, IsSpace) == text
  }

  ghost predicate OneReportsUnder(lexis: Lexis, texts: string -> seq<string>, rel: string, text: string) {
    exists p :: ReportsUnder(lexis, texts, rel, text, p) && forall q :: ReportsUnder(lexis, texts, rel, text, q) ==> q == p
  }

  /** Every executed invocation that reports has exactly one waiver. */
  ghost predicate EveryCallWaivedOnce(lexis: Lexis, texts: string -> seq<string>, visits: seq<string>, allow: seq<Waiver>) {
    forall rel, p, row :: rel in visits && Executes(lexis, texts, rel, p, row) && MustReport(row) ==> WaivedOnce(allow, rel, row)
  }

  /** Every waiver is for a visited script, and for exactly one executed invocation in it that reports. */
  ghost predicate EveryWaiverHasOneCall(lexis: Lexis, texts: string -> seq<string>, visits: seq<string>, allow: seq<Waiver>) {
    forall k :: 0 <= k < |allow| ==> allow[k].rel in visits && OneReportsUnder(lexis, texts, allow[k].rel, allow[k].text)
  }

  ghost predicate IsScanner(lexis: Lexis, texts: string -> seq<string>, scan: string -> Outcome<seq<Row>>) {
    forall rel {:trigger scan(rel)} :: IsScan(lexis, LinesIn(lexis, texts, rel), scan(rel))
  }

  lemma ScriptRowsScan(lexis: Lexis, texts: string -> seq<string>)
    ensures IsScanner(lexis, texts, (rel: string) => ScriptRows(lexis, texts(rel)))
  {
    forall rel ensures IsScan(lexis, LinesIn(lexis, texts, rel), ScriptRows(lexis, texts(rel))) {
      ScriptRowsAreScan(lexis, texts(rel));
    }
  }

  /** A8 end to end, over the texts of the scripts: the check stops exactly when some script has no
      layout; otherwise it reports exactly the violations among the executed invocations, and none
      exactly when the reporting ones correspond one to one with waivers that give a reason. */
  method CheckGateScripts(lexis: Lexis, texts: string -> seq<string>, visits: seq<string>, allow: seq<Waiver>)
    returns (r: Outcome<seq<Violation>>, ghost seen: Scripts)
    requires DistinctKeys(allow)
    ensures r.Scanned? <==> forall rel :: rel in visits ==> HasLayout(lexis, texts, rel)
    ensures r.Scanned? ==> IsExecuted(lexis, texts, visits, seen) && forall v :: v in r.value <==> IsViolation(seen, allow, v)
    ensures r.Scanned? ==> (r.value == [] <==>
      && EveryCallWaivedOnce(lexis, texts, visits, allow)
      && EveryWaiverHasOneCall(lexis, texts, visits, allow)
      && EveryReasonSaysSomething(allow))
  {
    ScriptRowsScan(lexis, texts);
    ghost var scan := (rel: string) => ScriptRows(lexis, texts(rel));
    r, seen := CheckWith(lexis, texts, visits, allow, scan);
  }

  method CheckWith(lexis: Lexis, texts: string -> seq<string>, visits: seq<string>, allow: seq<Waiver>, ghost scan: string -> Outcome<seq<Row>>)
    returns (r: Outcome<seq<Violation>>, ghost seen: Scripts)
    requires DistinctKeys(allow) && IsScanOf(lexis, texts, scan) && IsScanner(lexis, texts, scan)
    ensures r.Scanned? <==> forall rel :: rel in visits ==> HasLayout(lexis, texts, rel)
    ensures r.Scanned? ==> IsExecuted(lexis, texts, visits, seen) && forall v :: v in r.value <==> IsViolation(seen, allow, v)
    ensures r.Scanned? ==> (r.value == [] <==>
      && EveryCallWaivedOnce(lexis, texts, visits, allow)
      && EveryWaiverHasOneCall(lexis, texts, visits, allow)
      && EveryReasonSaysSomething(allow))
  {
    var scanned;
    r, scanned := CheckScripts(lexis, texts, visits, allow, scan);
    seen := scanned;
    ScansHaveLayouts(lexis, texts, scan, visits);
    if r.Scanned? {
      SeenIsExecuted(lexis, texts, scan, visits, seen);
      CallsWaived(lexis, texts, visits, seen, allow);
      CallsCovered(lexis, texts, visits, seen, allow);
      WaiversHaveCalls(lexis, texts, visits, seen, allow);
    }
  }

  lemma ScansHaveLayouts(lexis: Lexis, texts: string -> seq<string>, scan: string -> Outcome<seq<Row>>, visits: seq<string>)
    requires IsScanner(lexis, texts, scan)
    ensures (forall rel :: rel in visits ==> scan(rel).Scanned?) <==> forall rel :: rel in visits ==> HasLayout(lexis, texts, rel)
  {
    forall rel ensures scan(rel).Scanned? <==> HasLayout(lexis, texts, rel) {
      assert IsScan(lexis, LinesIn(lexis, texts, rel), scan(rel));
      if blocks :| IsLayout(LinesIn(lexis, texts, rel), 0, blocks) {
        assert IsLayoutOf(lexis, texts, rel, blocks);
      }
    }
  }

  /** A layout is the only one, so it alone decides what is executed. */
  lemma ExecutesIn(lexis: Lexis, texts: string -> seq<string>, rel: string, blocks: seq<Block>, p: Place, row: Row)
    requires IsLayoutOf(lexis, texts, rel, blocks)
    ensures Executes(lexis, texts, rel, p, row) <==> CallsIn(lexis, texts, rel, blocks, p, row)
  {
    var ls := LinesIn(lexis, texts, rel);
    LayoutIsExact(ls, blocks);
    if other :| IsLayoutOf(lexis, texts, rel, other) && CallsIn(lexis, texts, rel, other, p, row) {
      LayoutIsExact(ls, other);
    }
  }

  /** The entries of script `rel` stand for its executed invocations, at these places. */
  ghost predicate StandFor(lexis: Lexis, texts: string -> seq<string>, rel: string, places: seq<Place>, entries: seq<Entry>) {
    && |places| == |entries|
    && InOrder(places)
    && (forall i :: 0 <= i < |places| ==> Executes(lexis, texts, rel, places[i], entries[i].row) && entries[i] == EntryOf(entries[i].row))
    && (forall p, row :: Executes(lexis, texts, rel, p, row) ==> exists i :: 0 <= i < |places| && places[i] == p && entries[i].row == row)
  }

  /** Every visited script with the entries of what it executes. */
  ghost predicate IsExecuted(lexis: Lexis, texts: string -> seq<string>, visits: seq<string>, seen: Scripts) {
    && (forall rel :: rel in seen <==> rel in visits)
    && forall rel :: rel in seen ==> exists places :: StandFor(lexis, texts, rel, places, seen[rel])
  }

  lemma {:induction false} MappedAt<T, U>(f: T -> U, s: seq<T>)
    ensures |MapAll(f, s)| == |s| && forall i :: 0 <= i < |s| ==> MapAll(f, s)[i] == f(s[i])
  {
    if s != [] {
      MappedAt(f, s[1..]);
    }
  }

  lemma ListedIsExecuted(lexis: Lexis, texts: string -> seq<string>, rel: string, blocks: seq<Block>, spots: seq<Place>, rows: seq<Row>, i: nat)
    requires IsLayoutOf(lexis, texts, rel, blocks) && ListsInvocations(lexis, LinesIn(lexis, texts, rel), Logicals(blocks), spots, rows)
    requires i < |spots|
    ensures Executes(lexis, texts, rel, spots[i], rows[i])
  {
    ExecutesIn(lexis, texts, rel, blocks, spots[i], rows[i]);
  }

  lemma ExecutedIsListed(lexis: Lexis, texts: string -> seq<string>, rel: string, blocks: seq<Block>, spots: seq<Place>, rows: seq<Row>,
                         p: Place, row: Row)
    returns (i: nat)
    requires IsLayoutOf(lexis, texts, rel, blocks) && ListsInvocations(lexis, LinesIn(lexis, texts, rel), Logicals(blocks), spots, rows)
    requires Executes(lexis, texts, rel, p, row)
    ensures i < |spots| == |rows| && spots[i] == p && rows[i] == row
  {
    ExecutesIn(lexis, texts, rel, blocks, p, row);
    i :| 0 <= i < |spots| && spots[i] == p && rows[i] == row;
  }

  lemma EntriesOfRows(rows: seq<Row>)
    ensures |EntriesOf(rows)| == |rows|
    ensures forall i :: 0 <= i < |rows| ==> EntriesOf(rows)[i] == EntryOf(rows[i]) && EntriesOf(rows)[i].row == rows[i]
  {
    MappedAt(EntryOf, rows);
  }

  lemma EntriesStandFor(lexis: Lexis, texts: string -> seq<string>, rel: string, blocks: seq<Block>, places: seq<Place>, rows: seq<Row>)
    requires IsLayoutOf(lexis, texts, rel, blocks)
    requires ListsInvocations(lexis, LinesIn(lexis, texts, rel), Logicals(blocks), places, rows)
    ensures StandFor(lexis, texts, rel, places, EntriesOf(rows))
  {
    EntriesOfRows(rows);
    forall i | 0 <= i < |places| ensures Executes(lexis, texts, rel, places[i], rows[i]) {
      ListedIsExecuted(lexis, texts, rel, blocks, places, rows, i);
    }
    forall p, row | Executes(lexis, texts, rel, p, row)
      ensures exists i :: 0 <= i < |places| && places[i] == p && rows[i] == row
    {
      var i := ExecutedIsListed(lexis, texts, rel, blocks, places, rows, p, row);
    }
  }

  lemma SeenIsExecuted(lexis: Lexis, texts: string -> seq<string>, scan: string -> Outcome<seq<Row>>, visits: seq<string>, seen: Scripts)
    requires IsScanner(lexis, texts, scan) && IsSeen(scan, visits, seen)
    ensures IsExecuted(lexis, texts, visits, seen)
  {
    forall rel | rel in seen ensures exists places :: StandFor(lexis, texts, rel, places, seen[rel]) {
      var ls := LinesIn(lexis, texts, rel);
      assert IsScan(lexis, ls, scan(rel));
      var blocks :| IsLayout(ls, 0, blocks);
      var places :| ListsInvocations(lexis, ls, Logicals(blocks), places, scan(rel).value);
      EntriesStandFor(lexis, texts, rel, blocks, places, scan(rel).value);
    }
  }

  /** A row's waivers are those that cover it. */
  lemma CoversIffWaives(seen: Scripts, allow: seq<Waiver>, rel: string, i: int, k: int)
    requires ReportsAt(seen, rel, i) && RowsAt(seen, rel)[i] == EntryOf(RowsAt(seen, rel)[i].row)
    ensures Covers(seen, allow, k, rel, i) <==> IsWaiverFor(allow, k, rel, RowsAt(seen, rel)[i].row)
  {
  }

  lemma CoveredIsWaived(seen: Scripts, allow: seq<Waiver>, rel: string, i: int)
    requires ReportsAt(seen, rel, i) && RowsAt(seen, rel)[i] == EntryOf(RowsAt(seen, rel)[i].row)
    ensures CoveredOnce(seen, allow, rel, i) ==> WaivedOnce(allow, rel, RowsAt(seen, rel)[i].row)
  {
    var row := RowsAt(seen, rel)[i].row;
    if k :| Covers(seen, allow, k, rel, i) && forall j :: Covers(seen, allow, j, rel, i) ==> j == k {
      CoversIffWaives(seen, allow, rel, i, k);
      forall j | IsWaiverFor(allow, j, rel, row) ensures j == k {
        CoversIffWaives(seen, allow, rel, i, j);
      }
    }
  }

  lemma WaivedIsCovered(seen: Scripts, allow: seq<Waiver>, rel: string, i: int)
    requires ReportsAt(seen, rel, i) && RowsAt(seen, rel)[i] == EntryOf(RowsAt(seen, rel)[i].row)
    ensures WaivedOnce(allow, rel, RowsAt(seen, rel)[i].row) ==> CoveredOnce(seen, allow, rel, i)
  {
    var row := RowsAt(seen, rel)[i].row;
    if k :| IsWaiverFor(allow, k, rel, row) && forall j :: IsWaiverFor(allow, j, rel, row) ==> j == k {
      CoversIffWaives(seen, allow, rel, i, k);
      forall j | Covers(seen, allow, j, rel, i) ensures j == k {
        CoversIffWaives(seen, allow, rel, i, j);
      }
    }
  }

  lemma CallIsSeen(lexis: Lexis, texts: string -> seq<string>, visits: seq<string>, seen: Scripts, rel: string, p: Place, row: Row)
    returns (i: nat)
    requires IsExecuted(lexis, texts, visits, seen) && rel in visits && Executes(lexis, texts, rel, p, row)
    ensures rel in seen && i < |seen[rel]| && seen[rel][i] == EntryOf(row)
  {
    var places :| StandFor(lexis, texts, rel, places, seen[rel]);
    i :| 0 <= i < |places| && places[i] == p && seen[rel][i].row == row;
  }

  lemma CallsWaived(lexis: Lexis, texts: string -> seq<string>, visits: seq<string>, seen: Scripts, allow: seq<Waiver>)
    requires IsExecuted(lexis, texts, visits, seen)
    ensures EveryRowCoveredOnce(seen, allow) ==> EveryCallWaivedOnce(lexis, texts, visits, allow)
  {
    if EveryRowCoveredOnce(seen, allow) {
      forall rel, p, row | rel in visits && Executes(lexis, texts, rel, p, row) && MustReport(row) ensures WaivedOnce(allow, rel, row) {
        var i := CallIsSeen(lexis, texts, visits, seen, rel, p, row);
        assert ReportsAt(seen, rel, i);
        CoveredIsWaived(seen, allow, rel, i);
      }
    }
  }

  lemma CallsCovered(lexis: Lexis, texts: string -> seq<string>, visits: seq<string>, seen: Scripts, allow: seq<Waiver>)
    requires IsExecuted(lexis, texts, visits, seen)
    ensures EveryCallWaivedOnce(lexis, texts, visits, allow) ==> EveryRowCoveredOnce(seen, allow)
  {
    if EveryCallWaivedOnce(lexis, texts, visits, allow) {
      forall rel, i | ReportsAt(seen, rel, i) ensures CoveredOnce(seen, allow, rel, i) {
        assert rel in seen;
        var places :| StandFor(lexis, texts, rel, places, seen[rel]);
        assert Executes(lexis, texts, rel, places[i], seen[rel][i].row);
        WaivedIsCovered(seen, allow, rel, i);
      }
    }
  }

  lemma HitReports(lexis: Lexis, texts: string -> seq<string>, rel: string, places: seq<Place>, entries: seq<Entry>, text: string, i: int)
    requires StandFor(lexis, texts, rel, places, entries) && IsHit(entries, text, i)
    ensures ReportsUnder(lexis, texts, rel, text, places[i])
  {
    assert Executes(lexis, texts, rel, places[i], entries[i].row);
  }

  lemma ReportsHit(lexis: Lexis, texts: string -> seq<string>, rel: string, places: seq<Place>, entries: seq<Entry>, text: string, p: Place)
    returns (i: int)
    requires StandFor(lexis, texts, rel, places, entries) && ReportsUnder(lexis, texts, rel, text, p)
    ensures IsHit(entries, text, i) && places[i] == p
  {
    var row :| Executes(lexis, texts, rel, p, row) && MustReport(row) && Trim(row.segment, IsSpace) == text;
    i :| 0 <= i < |places| && places[i] == p && entries[i].row == row;
  }

  lemma OneHitReports(lexis: Lexis, texts: string -> seq<string>, rel: string, places: seq<Place>, entries: seq<Entry>, text: string)
    requires StandFor(lexis, texts, rel, places, entries)
    ensures OneHit(entries, text) ==> OneReportsUnder(lexis, texts, rel, text)
  {
    if i :| IsHit(entries, text, i) && forall j :: IsHit(entries, text, j) ==> j == i {
      HitReports(lexis, texts, rel, places, entries, text, i);
      forall q | ReportsUnder(lexis, texts, rel, text, q) ensures q == places[i] {
        var j := ReportsHit(lexis, texts, rel, places, entries, text, q);
      }
    }
  }

  lemma OneReportHits(lexis: Lexis, texts: string -> seq<string>, rel: string, places: seq<Place>, entries: seq<Entry>, text: string)
    requires StandFor(lexis, texts, rel, places, entries)
    ensures OneReportsUnder(lexis, texts, rel, text) ==> OneHit(entries, text)
  {
    if p :| ReportsUnder(lexis, texts, rel, text, p) && forall q :: ReportsUnder(lexis, texts, rel, text, q) ==> q == p {
      var i := ReportsHit(lexis, texts, rel, places, entries, text, p);
      forall j | IsHit(entries, text, j) ensures j == i {
        HitReports(lexis, texts, rel, places, entries, text, j);
        SamePlace(places, i, j);
      }
    }
  }

  lemma WaiversHaveCalls(lexis: Lexis, texts: string -> seq<string>, visits: seq<string>, seen: Scripts, allow: seq<Waiver>)
    requires IsExecuted(lexis, texts, visits, seen)
    ensures EveryWaiverCoversOnce(seen, allow) <==> EveryWaiverHasOneCall(lexis, texts, visits, allow)
  {
    forall k | 0 <= k < |allow|
      ensures OneHit(RowsAt(seen, allow[k].rel), allow[k].text) <==>
        allow[k].rel in visits && OneReportsUnder(lexis, texts, allow[k].rel, allow[k].text)
    {
      var rel := allow[k].rel;
      if rel in seen {
        var places :| StandFor(lexis, texts, rel, places, seen[rel]);
        OneHitReports(lexis, texts, rel, places, seen[rel], allow[k].text);
        OneReportHits(lexis, texts, rel, places, seen[rel], allow[k].text);
      }
    }
  }
}
