/**
 A6 of ci/affected-graph/cargo_moon_parity.py: every crate's build, test and lint tasks key
 on the sources and the manifest of every crate it depends on, directly or not.
 */
module UpstreamInputs {
  import opened Text
  import opened CrateClosure

  const UPSTREAM_INPUT_TASKS := ["build", "test", "lint"]

  type Allowances = map<(string, string), string>
  type Floor = map<string, set<string>>

  datatype Row =
    | FloorAbsent(pid: string)
    | FloorUnexamined(pid: string)
    | FloorOmits(pid: string, upstream: string)
    | NoTask(pid: string, task: string)
    | Unreported(pid: string, task: string)
    | Omits(pid: string, task: string, entry: string)
    | Extra(pid: string, task: string, entry: string)

  /** The allowlist has an entry for the pair, and its reason is not blank. */
  ghost predicate HasReason(allow: Allowances, consumer: string, upstream: string) {
    (consumer, upstream) in allow && exists i :: 0 <= i < |allow[(consumer, upstream)]| && !IsSpace(allow[(consumer, upstream)][i])
  }

  ghost predicate Examined(projects: Projects, pid: string) {
    pid in projects && projects[pid].language == "rust"
  }

  /** The entry is the source glob or the manifest of an upstream crate. */
  ghost predicate Wanted(projects: Projects, pid: string, entry: string) {
    exists u :: u in projects && IsUpstream(projects, pid, u)
                && (entry == projects[u].sourceDir + "/src/**/*" || entry == projects[u].sourceDir + "/Cargo.toml")
  }

  /** Both buckets of the task carry a list. */
  ghost predicate Reported(p: Project, task: string) {
    task in p.inputFiles && task in p.inputGlobs && p.inputFiles[task].Some? && p.inputGlobs[task].Some?
  }

  ghost predicate Declares(p: Project, task: string, entry: string) {
    Reported(p, task) && (entry in p.inputFiles[task].value || entry in p.inputGlobs[task].value)
  }

  /** A declared entry that points into another crate's tree. */
  ghost predicate Observed(p: Project, task: string, entry: string) {
    Declares(p, task, entry) && StartsWith(entry, "rs/crates/") && !StartsWith(entry, p.sourceDir + "/")
  }

  /** `dir` is `s` up to its slash number `n`, or all of it. */
  ghost predicate IsUpToSlash(s: string, dir: string, n: nat) {
    && |dir| <= |s| && dir == s[..|dir|] && Slashes(dir) < n
    && (|dir| < |s| ==> s[|dir|] == '/' && Slashes(dir) + 1 == n)
  }

  /** The crate directory an entry points into: the text up to its fourth slash. */
  ghost predicate IsCrateDir(entry: string, dir: string) {
    IsUpToSlash(entry, dir, 4)
  }

  /** The crate it points into is allowlisted for this consumer, with a reason. */
  ghost predicate Excused(allow: Allowances, pid: string, entry: string) {
    exists dir :: IsCrateDir(entry, dir) && HasReason(allow, pid, dir)
  }

  /** What A6 must report. */
  ghost predicate IsRow(projects: Projects, allow: Allowances, floor: Floor, row: Row) {
    match row
    case FloorAbsent(pid) => pid in floor && pid !in projects
    case FloorUnexamined(pid) => pid in floor && pid in projects && projects[pid].language != "rust"
    case FloorOmits(pid, u) =>
      pid in floor && Examined(projects, pid) && u in floor[pid] && !IsUpstream(projects, pid, u)
    case NoTask(pid, task) =>
      Examined(projects, pid) && task in UPSTREAM_INPUT_TASKS
      && task !in projects[pid].inputFiles && task !in projects[pid].inputGlobs
    case Unreported(pid, task) =>
      Examined(projects, pid) && task in UPSTREAM_INPUT_TASKS
      && (task in projects[pid].inputFiles || task in projects[pid].inputGlobs)
      && !Reported(projects[pid], task)
    case Omits(pid, task, entry) =>
      Examined(projects, pid) && task in UPSTREAM_INPUT_TASKS && Reported(projects[pid], task)
      && Wanted(projects, pid, entry) && !Observed(projects[pid], task, entry)
    case Extra(pid, task, entry) =>
      Examined(projects, pid) && task in UPSTREAM_INPUT_TASKS
      && Observed(projects[pid], task, entry) && !Wanted(projects, pid, entry)
      && !Excused(allow, pid, entry)
  }

  // ----- Floor -----

  method FloorRowsOf(projects: Projects, pid: string, required: set<string>) returns (out: seq<Row>)
    ensures forall r :: r in out <==>
              match r
              case FloorAbsent(p) => p == pid && pid !in projects
              case FloorUnexamined(p) => p == pid && pid in projects && projects[pid].language != "rust"
              case FloorOmits(p, u) => p == pid && Examined(projects, pid) && u in required && !IsUpstream(projects, pid, u)
              case _ => false
  {
    if pid !in projects {
      return [FloorAbsent(pid)];
    }
    if projects[pid].language != "rust" {
      return [FloorUnexamined(pid)];
    }
    out := [];
    var derived := RustClosure(projects, pid);
    var todo := required - derived;
    while todo != {}
      invariant todo <= required - derived
      invariant forall r :: r in out <==>
                  r.FloorOmits? && r.pid == pid && r.upstream in required - derived && r.upstream !in todo
      decreases todo
    {
      var u :| u in todo;
      out := out + [FloorOmits(pid, u)];
      todo := todo - {u};
    }
  }

  method FloorRows(projects: Projects, allow: Allowances, floor: Floor) returns (out: seq<Row>)
    ensures forall r :: r in out <==>
              (r.FloorAbsent? || r.FloorUnexamined? || r.FloorOmits?) && IsRow(projects, allow, floor, r)
  {
    out := [];
    var todo := floor.Keys;
    while todo != {}
      invariant todo <= floor.Keys
      invariant forall r :: r in out <==>
                  (r.FloorAbsent? || r.FloorUnexamined? || r.FloorOmits?) && IsRow(projects, allow, floor, r) && r.pid !in todo
      decreases todo
    {
      var pid :| pid in todo;
      var rows := FloorRowsOf(projects, pid, floor[pid]);
      out := out + rows;
      todo := todo - {pid};
    }
  }

  // ----- One crate -----

  method WantedEntries(projects: Projects, pid: string) returns (want: set<string>)
    ensures forall e :: e in want <==> Wanted(projects, pid, e)
  {
    var closure := RustClosure(projects, pid);
    want := (set u | u in closure :: projects[u].sourceDir + "/src/**/*")
            + (set u | u in closure :: projects[u].sourceDir + "/Cargo.toml");
  }

  // ----- The crate an entry points into -----

  /** `"/".join(entry.split("/")[:4])`. */
  function CrateDir(entry: string): string {
    Join(FirstOf(Split(entry, '/'), 4), '/')
  }

  lemma UpToSlashStep(head: string, rest: string, tail: string, n: nat)
    requires '/' !in head && IsUpToSlash(rest, tail, n)
    ensures IsUpToSlash(head + ['/'] + rest, head + ['/'] + tail, n + 1)
  {
    var front := head + ['/'];
    NoSlashes(head);
    SlashesConcat(head, ['/']);
    SlashesConcat(front, tail);
    assert Slashes(['/']) == 1;
    assert (front + rest)[..|front + tail|] == front + rest[..|tail|];
  }

  function FirstOf(parts: seq<string>, n: nat): seq<string> {
    if |parts| <= n then parts else parts[..n]
  }

  lemma FirstOfCons(head: string, more: seq<string>, n: nat)
    requires n > 0
    ensures FirstOf([head] + more, n) == [head] + FirstOf(more, n - 1)
  {
  }

  lemma FirstOnly(s: string, head: string, more: seq<string>)
    requires '/' !in head && |head| < |s| && head == s[..|head|] && s[|head|] == '/'
    ensures IsUpToSlash(s, Join(FirstOf([head] + more, 1), '/'), 1)
  {
    NoSlashes(head);
    assert FirstOf([head] + more, 1) == [head];
  }

  lemma {:induction false} FirstParts(s: string, n: nat)
    requires 0 < n
    ensures IsUpToSlash(s, Join(FirstOf(Split(s, '/'), n), '/'), n)
    decreases |s|
  {
    var at := Find(s, '/', 0);
    if at < 0 {
      NoSlashes(s);
    } else {
      var head, rest := s[..at], s[at + 1..];
      var more := Split(rest, '/');
      FirstOfCons(head, more, n);
      assert s == head + ['/'] + rest;
      if n == 1 {
        FirstOnly(s, head, more);
      } else {
        FirstParts(rest, n - 1);
        JoinCons(head, FirstOf(more, n - 1));
        UpToSlashStep(head, rest, Join(FirstOf(more, n - 1), '/'), n - 1);
      }
    }
  }

  lemma JoinCons(head: string, kept: seq<string>)
    requires kept != []
    ensures Join([head] + kept, '/') == head + ['/'] + Join(kept, '/')
  {
    assert ([head] + kept)[1..] == kept;
  }

  lemma {:induction false} OneCrateDir(entry: string, a: string, b: string)
    requires IsCrateDir(entry, a) && IsCrateDir(entry, b) && |a| <= |b|
    ensures a == b
  {
    if |a| < |b| {
      assert b[..|a|] == a && b[|a|] == '/';
      assert b == a + ['/'] + b[|a| + 1..];
      SlashesConcat(a + ['/'], b[|a| + 1..]);
      SlashesConcat(a, ['/']);
    }
  }

  /** The code's directory is the crate directory, and there is only one. */
  lemma CrateDirIsExact(entry: string, dir: string)
    ensures IsCrateDir(entry, dir) <==> dir == CrateDir(entry)
  {
    FirstParts(entry, 4);
    if IsCrateDir(entry, dir) {
      if |dir| <= |CrateDir(entry)| {
        OneCrateDir(entry, dir, CrateDir(entry));
      } else {
        OneCrateDir(entry, CrateDir(entry), dir);
      }
    }
  }

  /** `_allowlisted`. */
  method Allowlisted(allow: Allowances, consumer: string, entry: string) returns (yes: bool)
    ensures yes <==> Excused(allow, consumer, entry)
  {
    var upstream := CrateDir(entry);
    forall dir ensures IsCrateDir(entry, dir) <==> dir == upstream {
      CrateDirIsExact(entry, dir);
    }
    if (consumer, upstream) !in allow {
      return false;
    }
    var reason := allow[(consumer, upstream)];
    StripsToSomething(reason);
    yes := Trim(reason, IsSpace) != "";
    assert Excused(allow, consumer, entry) <==> HasReason(allow, consumer, upstream);
  }

  lemma StripsToSomething(s: string)
    ensures Trim(s, IsSpace) != "" <==> exists i :: 0 <= i < |s| && !IsSpace(s[i])
  {
    var core := Trim(s, IsSpace);
    TrimmedIsPadded(s, IsSpace);
    TrimmedIsSolid(s, IsSpace);
    var a: nat, b: nat :| IsPaddedBy(s, core, a, b, IsSpace);
    assert core != "" ==> s[a] == core[0];
  }

  method OmitRows(pid: string, task: string, missing: set<string>) returns (out: seq<Row>)
    ensures forall r :: r in out <==> r.Omits? && r.pid == pid && r.task == task && r.entry in missing
  {
    out := [];
    var todo := missing;
    while todo != {}
      invariant todo <= missing
      invariant forall r :: r in out <==> r.Omits? && r.pid == pid && r.task == task && r.entry in missing && r.entry !in todo
      decreases todo
    {
      var e :| e in todo;
      out := out + [Omits(pid, task, e)];
      todo := todo - {e};
    }
  }

  method ExtraRows(allow: Allowances, pid: string, task: string, extra: set<string>) returns (out: seq<Row>)
    ensures forall r :: r in out <==>
              r.Extra? && r.pid == pid && r.task == task && r.entry in extra && !Excused(allow, pid, r.entry)
  {
    out := [];
    var todo := extra;
    while todo != {}
      invariant todo <= extra
      invariant forall r :: r in out <==>
                  r.Extra? && r.pid == pid && r.task == task && r.entry in extra && r.entry !in todo
                  && !Excused(allow, pid, r.entry)
      decreases todo
    {
      var e :| e in todo;
      var excused := Allowlisted(allow, pid, e);
      if !excused {
        out := out + [Extra(pid, task, e)];
      }
      todo := todo - {e};
    }
  }

  ghost predicate IsTaskRow(projects: Projects, allow: Allowances, pid: string, task: string, r: Row)
    requires pid in projects
  {
    match r
    case NoTask(p, t) => p == pid && t == task && task !in projects[pid].inputFiles && task !in projects[pid].inputGlobs
    case Unreported(p, t) =>
      p == pid && t == task && (task in projects[pid].inputFiles || task in projects[pid].inputGlobs)
      && !Reported(projects[pid], task)
    case Omits(p, t, e) =>
      p == pid && t == task && Reported(projects[pid], task)
      && Wanted(projects, pid, e) && !Observed(projects[pid], task, e)
    case Extra(p, t, e) =>
      p == pid && t == task && Observed(projects[pid], task, e) && !Wanted(projects, pid, e)
      && !Excused(allow, pid, e)
    case _ => false
  }

  method TaskRows(projects: Projects, allow: Allowances, pid: string, task: string, want: set<string>) returns (out: seq<Row>)
    requires pid in projects && forall e :: e in want <==> Wanted(projects, pid, e)
    ensures forall r :: r in out <==> IsTaskRow(projects, allow, pid, task, r)
  {
    var p := projects[pid];
    if task !in p.inputFiles && task !in p.inputGlobs {
      return [NoTask(pid, task)];
    }
    if task !in p.inputFiles || task !in p.inputGlobs || p.inputFiles[task].None? || p.inputGlobs[task].None? {
      return [Unreported(pid, task)];
    }
    var files, globs := p.inputFiles[task].value, p.inputGlobs[task].value;
    var resolved := (set e | e in files) + (set e | e in globs);
    var observed := set e | e in resolved && StartsWith(e, "rs/crates/") && !StartsWith(e, p.sourceDir + "/");
    var omitted := OmitRows(pid, task, want - observed);
    var extra := ExtraRows(allow, pid, task, observed - want);
    out := omitted + extra;
  }

  method CrateRows(projects: Projects, allow: Allowances, pid: string) returns (out: seq<Row>)
    requires pid in projects
    ensures forall r :: r in out <==> exists t :: t in UPSTREAM_INPUT_TASKS && IsTaskRow(projects, allow, pid, t, r)
  {
    out := [];
    var want := WantedEntries(projects, pid);
    for i := 0 to |UPSTREAM_INPUT_TASKS|
      invariant forall r :: r in out <==> exists m :: 0 <= m < i && IsTaskRow(projects, allow, pid, UPSTREAM_INPUT_TASKS[m], r)
    {
      var rows := TaskRows(projects, allow, pid, UPSTREAM_INPUT_TASKS[i], want);
      out := out + rows;
    }
  }

  ghost predicate IsCrateRow(r: Row) {
    r.NoTask? || r.Unreported? || r.Omits? || r.Extra?
  }

  lemma CrateRowsAreRows(projects: Projects, allow: Allowances, floor: Floor, pid: string, r: Row)
    requires Examined(projects, pid)
    ensures (exists t :: t in UPSTREAM_INPUT_TASKS && IsTaskRow(projects, allow, pid, t, r))
            <==> IsCrateRow(r) && r.pid == pid && IsRow(projects, allow, floor, r)
  {
    if IsCrateRow(r) && r.pid == pid && IsRow(projects, allow, floor, r) {
      assert IsTaskRow(projects, allow, pid, r.task, r);
    }
  }

  /** `check_upstream_inputs`: exactly the A6 rows. */
  method CheckUpstreamInputs(projects: Projects, allow: Allowances, floor: Floor) returns (a6: seq<Row>)
    ensures forall r :: r in a6 <==> IsRow(projects, allow, floor, r)
  {
    a6 := FloorRows(projects, allow, floor);
    ghost var floorRows := a6;
    var todo := projects.Keys;
    while todo != {}
      invariant todo <= projects.Keys
      invariant forall r :: r in a6 <==>
                  r in floorRows || (IsCrateRow(r) && r.pid !in todo && IsRow(projects, allow, floor, r))
      decreases todo
    {
      var pid :| pid in todo;
      var rows := [];
      if projects[pid].language == "rust" {
        rows := CrateRows(projects, allow, pid);
      }
      forall r
        ensures r in rows <==> IsCrateRow(r) && r.pid == pid && IsRow(projects, allow, floor, r)
      {
        if projects[pid].language == "rust" {
          CrateRowsAreRows(projects, allow, floor, pid, r);
        }
      }
      a6 := a6 + rows;
      todo := todo - {pid};
    }
  }

  // ----- What an empty list means -----

  ghost predicate Clean(projects: Projects, allow: Allowances, floor: Floor) {
    forall r :: !IsRow(projects, allow, floor, r)
  }

  /** With an empty A6 list, every task of every crate declares the source glob and the
      manifest of every transitive Rust upstream, and every other entry that points into
      another crate's tree is allowlisted with a reason. */
  lemma EmptyListMeansUpstreamCoverage(projects: Projects, allow: Allowances, floor: Floor, pid: string, task: string)
    requires Clean(projects, allow, floor) && Examined(projects, pid) && task in UPSTREAM_INPUT_TASKS
    ensures Reported(projects[pid], task)
    ensures forall u :: u in projects && IsUpstream(projects, pid, u) ==>
              Declares(projects[pid], task, projects[u].sourceDir + "/src/**/*")
              && Declares(projects[pid], task, projects[u].sourceDir + "/Cargo.toml")
    ensures forall e :: Observed(projects[pid], task, e) && !Wanted(projects, pid, e) ==>
              Excused(allow, pid, e)
    ensures pid in floor ==> forall u :: u in floor[pid] ==> IsUpstream(projects, pid, u)
  {
    assert !IsRow(projects, allow, floor, NoTask(pid, task));
    assert !IsRow(projects, allow, floor, Unreported(pid, task));
    forall u | u in projects && IsUpstream(projects, pid, u)
      ensures Declares(projects[pid], task, projects[u].sourceDir + "/src/**/*")
              && Declares(projects[pid], task, projects[u].sourceDir + "/Cargo.toml")
    {
      assert Wanted(projects, pid, projects[u].sourceDir + "/src/**/*");
      assert Wanted(projects, pid, projects[u].sourceDir + "/Cargo.toml");
      assert !IsRow(projects, allow, floor, Omits(pid, task, projects[u].sourceDir + "/src/**/*"));
      assert !IsRow(projects, allow, floor, Omits(pid, task, projects[u].sourceDir + "/Cargo.toml"));
    }
    forall e | Observed(projects[pid], task, e) && !Wanted(projects, pid, e)
      ensures Excused(allow, pid, e)
    {
      assert !IsRow(projects, allow, floor, Extra(pid, task, e));
    }
    forall u | pid in floor && u in floor[pid]
      ensures IsUpstream(projects, pid, u)
    {
      assert !IsRow(projects, allow, floor, FloorOmits(pid, u));
    }
  }
}
