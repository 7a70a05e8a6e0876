/**
 The workflow runner that the release guard reasons about, as a state machine, and the
 safety theorems: a clean static report bounds what every run can do.

 The rules are those the guard's comments state: a job starts only when every need
 counts as successful and its `if:` holds; a status function in the `if:` removes the
 first half of that; `continue-on-error` on a job makes a failure count as success, and
 on a step it hides the failure inside a job that reports success.
 */
module Runner {
  import opened Text
  import opened Graphs
  import opened JobFields
  import opened ReleaseGate
  import opened Approvals

  datatype Status =
    | Waiting
    | Running
    | Passed   // every step succeeded
    | Masked   // reports success, but a step with continue-on-error failed
    | Failed   // failed or cancelled
    | Skipped  // never started

  datatype State = State(status: map<string, Status>, approved: bool)

  /** What a run does not choose: the release flag, and the value of every other `if:`
      expression, per job. */
  datatype Env = Env(flagOn: bool, holds: (string, string) -> bool)

  datatype Event =
    | Start(id: string)
    | Finish(id: string, result: Status)
    | Drop(id: string)
    | Approve  // a person approves the pending release-approval deployments

  // ----- Rules -----

  /** A status function called at offset `i`: its name in any case, blanks, then `(` at `k`. */
  predicate CallAt(text: string, fn: string, i: int, k: int) {
    0 <= i && i + |fn| <= k < |text|
    && Lower(text[i..i + |fn|]) == fn
    && (forall j :: i + |fn| <= j < k ==> IsSpace(text[j]))
    && text[k] == '('
  }

  ghost predicate CallsStatusFunction(job: Job) {
    job.condition.IfExpr? && exists fn, i, k :: fn in STATUS_FUNCS && CallAt(job.condition.raw, fn, i, k)
  }

  /** The gate reads the flag; other expressions than the two literals are up to the environment. */
  ghost predicate IfHolds(env: Env, id: string, job: Job) {
    match job.condition
    case NoIf => true
    case IfBool(flag) => flag
    case IfExpr(raw) =>
      if HasGate(job) then env.flagOn
      else if SaysIf(job, "true") then true
      else if SaysIf(job, "false") then false
      else env.holds(id, raw)
  }

  predicate Started(s: Status) {
    s.Running? || s.Passed? || s.Masked? || s.Failed?
  }

  predicate Done(s: Status) {
    !s.Waiting? && !s.Running?
  }

  /** The need counts as successful. */
  ghost predicate NeedMet(jobs: Jobs, s: State, d: string) {
    d in jobs && d in s.status
    && (s.status[d].Passed? || s.status[d].Masked?
        || (s.status[d].Failed? && LetsFailureThrough(jobs[d].onError)))
  }

  ghost predicate MayStart(jobs: Jobs, env: Env, s: State, id: string) {
    id in jobs && id in s.status && s.status[id].Waiting?
    && IfHolds(env, id, jobs[id])
    && (jobs[id].environment == Some(APPROVAL_ENVIRONMENT) ==> s.approved)
    && (if CallsStatusFunction(jobs[id])
        then forall d :: IsNeed(jobs[id], d) && d in s.status ==> Done(s.status[d])
        else forall d :: IsNeed(jobs[id], d) ==> NeedMet(jobs, s, d))
  }

  ghost predicate CanMask(job: Job) {
    exists k :: 0 <= k < |job.stepsOnError| && LetsFailureThrough(job.stepsOnError[k])
  }

  ghost predicate Enabled(jobs: Jobs, env: Env, s: State, e: Event) {
    match e
    case Start(id) => MayStart(jobs, env, s, id)
    case Finish(id, result) =>
      id in jobs && id in s.status && s.status[id].Running?
      && (result.Passed? || result.Failed? || (result.Masked? && CanMask(jobs[id])))
    case Drop(id) => id in s.status && s.status[id].Waiting?
    case Approve => true
  }

  function Apply(s: State, e: Event): State {
    match e
    case Start(id) => s.(status := s.status[id := Running])
    case Finish(id, result) => s.(status := s.status[id := result])
    case Drop(id) => s.(status := s.status[id := Skipped])
    case Approve => s.(approved := true)
  }

  function Initial(jobs: Jobs): State {
    State(map id | id in jobs :: Waiting, false)
  }

  function After(jobs: Jobs, run: seq<Event>): State {
    if run == [] then Initial(jobs) else Apply(After(jobs, run[..|run| - 1]), run[|run| - 1])
  }

  /** A run: every event is enabled in the state its predecessors lead to. */
  ghost predicate IsRun(jobs: Jobs, env: Env, run: seq<Event>) {
    run == []
    || (IsRun(jobs, env, run[..|run| - 1])
        && Enabled(jobs, env, After(jobs, run[..|run| - 1]), run[|run| - 1]))
  }

  ghost predicate StartedIn(jobs: Jobs, run: seq<Event>, id: string) {
    id in After(jobs, run).status && Started(After(jobs, run).status[id])
  }

  ghost predicate PassedIn(jobs: Jobs, run: seq<Event>, id: string) {
    id in After(jobs, run).status && After(jobs, run).status[id].Passed?
  }

  lemma {:induction false} RunKeepsJobs(jobs: Jobs, env: Env, run: seq<Event>)
    requires IsRun(jobs, env, run)
    ensures After(jobs, run).status.Keys == jobs.Keys
  {
    if run != [] {
      RunKeepsJobs(jobs, env, run[..|run| - 1]);
    }
  }

  // ----- V3 sees every call -----

  lemma StatusFunctionNamesAreSolid(fn: string)
    requires fn in STATUS_FUNCS
    ensures fn != "" && forall i :: 0 <= i < |fn| ==> 'a' <= fn[i] <= 'z'
  {
    assert fn == "always" || fn == "cancelled" || fn == "success" || fn == "failure";
  }

  lemma {:induction false} BlanksThenParen(text: string, i: nat, k: nat)
    requires i <= k < |text| && (forall j :: i <= j < k ==> IsSpace(text[j])) && text[k] == '('
    ensures SpellsAt(text, i, "(")
    decreases k - i
  {
    if i < k {
      BlanksThenParen(text, i + 1, k);
    }
  }

  lemma {:induction false} CallIsSpelled(text: string, name: string, i: nat, k: nat)
    requires i + |name| <= k < |text| && Lower(text[i..i + |name|]) == name
    requires forall j :: 0 <= j < |name| ==> 'a' <= name[j] <= 'z'
    requires (forall j :: i + |name| <= j < k ==> IsSpace(text[j])) && text[k] == '('
    ensures SpellsAt(text, i, name + "(")
    decreases |name|
  {
    if name == "" {
      assert name + "(" == "(";
      BlanksThenParen(text, i, k);
    } else {
      var rest := name[1..];
      var here := text[i..i + |name|];
      assert here[0] == text[i] && LowerChar(text[i]) == name[0];
      assert text[i + 1..i + 1 + |rest|] == here[1..];
      assert Lower(here[1..]) == rest;
      CallIsSpelled(text, rest, i + 1, k);
      assert (name + "(")[1..] == rest + "(";
    }
  }

  /** Whatever its case and its spacing, a call that the runner honours is a call that
      V3's normalised substring test finds. */
  lemma NormalisationFindsEveryCall(job: Job)
    requires CallsStatusFunction(job)
    ensures exists fn :: fn in STATUS_FUNCS && SpellsCall(job, fn) && NamesStatusFunction(job, fn)
  {
    var text := job.condition.raw;
    var fn, i, k :| fn in STATUS_FUNCS && CallAt(text, fn, i, k);
    StatusFunctionNamesAreSolid(fn);
    CallIsSpelled(text, fn, i, k);
    assert IsSpelledIn(text, fn + "(");
    CallsAreExact(job, fn);
  }

  lemma CleanPathCallsNoStatusFunction(jobs: Jobs, id: string)
    requires GatesClean(jobs) && OnGatedPath(jobs, id) && id in jobs
    ensures !CallsStatusFunction(jobs[id])
  {
    CleanPath(jobs, id);
    if CallsStatusFunction(jobs[id]) {
      NormalisationFindsEveryCall(jobs[id]);
    }
  }

  // ----- Flag off: nothing starts -----

  /** With the flag off, no gated job on a checked path has started. */
  ghost predicate GatedIdle(jobs: Jobs, s: State) {
    forall id :: id in s.status && OnGatedPath(jobs, id) && IsGated(id, jobs, {}) ==> !Started(s.status[id])
  }

  lemma GatedMayNotStart(jobs: Jobs, env: Env, s: State, id: string)
    requires GatesClean(jobs) && !env.flagOn && GatedIdle(jobs, s) && s.status.Keys == jobs.Keys
    requires id in jobs && OnGatedPath(jobs, id) && IsGated(id, jobs, {})
    ensures !MayStart(jobs, env, s, id)
  {
    CleanPathCallsNoStatusFunction(jobs, id);
    if !HasGate(jobs[id]) {
      IsGatedIsLeastFixedPoint(jobs);
      assert id in GatedSet(jobs);
      var d :| IsNeed(jobs[id], d);
      assert d in GatedSet(jobs);
      if d in jobs {
        OnGatedPathNeed(jobs, id, d);
      }
      assert !NeedMet(jobs, s, d);
    }
  }

  lemma {:induction false} GatedIdleAlways(jobs: Jobs, env: Env, run: seq<Event>)
    requires GatesClean(jobs) && !env.flagOn && IsRun(jobs, env, run)
    ensures GatedIdle(jobs, After(jobs, run))
  {
    if run != [] {
      var before, e := run[..|run| - 1], run[|run| - 1];
      GatedIdleAlways(jobs, env, before);
      RunKeepsJobs(jobs, env, before);
      if e.Start? && OnGatedPath(jobs, e.id) && IsGated(e.id, jobs, {}) {
        GatedMayNotStart(jobs, env, After(jobs, before), e.id);
      }
    }
  }

  /** Flag-off safety: if V1, V3 and V4 report nothing and the release flag is off, no job
      outside the exempt set starts in any run, whatever the needs graph looks like. */
  lemma NothingStartsWithTheFlagOff(jobs: Jobs, env: Env, run: seq<Event>, id: string)
    requires GatesClean(jobs) && !env.flagOn && IsRun(jobs, env, run)
    requires id !in UNGATED_JOBS
    ensures !StartedIn(jobs, run, id)
  {
    RunKeepsJobs(jobs, env, run);
    if id in jobs {
      OnGatedPathSelf(jobs, id);
      assert !IsGateViolation(jobs, Ungated(id));
      GatedIdleAlways(jobs, env, run);
    }
  }

  // ----- Approval before publish -----

  /** On checked paths a started job has only passed needs, success is never masked, and
      a job in the approval environment started only after a person approved. */
  ghost predicate ChainsIntact(jobs: Jobs, s: State) {
    forall id :: id in s.status && id in jobs ==>
      && (OnGatedPath(jobs, id) ==>
            && !s.status[id].Masked?
            && (Started(s.status[id]) ==>
                  forall d :: IsNeed(jobs[id], d) ==> d in s.status && s.status[d].Passed?))
      && (Started(s.status[id]) && jobs[id].environment == Some(APPROVAL_ENVIRONMENT) ==> s.approved)
  }

  lemma StartKeepsChains(jobs: Jobs, env: Env, s: State, id: string)
    requires GatesClean(jobs) && ChainsIntact(jobs, s) && s.status.Keys == jobs.Keys
    requires MayStart(jobs, env, s, id)
    ensures ChainsIntact(jobs, Apply(s, Start(id)))
  {
    if OnGatedPath(jobs, id) {
      CleanPathCallsNoStatusFunction(jobs, id);
      forall d | IsNeed(jobs[id], d)
        ensures d in s.status && s.status[d].Passed?
      {
        assert NeedMet(jobs, s, d);
        OnGatedPathNeed(jobs, id, d);
        CleanPath(jobs, d);
      }
    }
  }

  lemma FinishKeepsChains(jobs: Jobs, env: Env, s: State, id: string, result: Status)
    requires GatesClean(jobs) && ChainsIntact(jobs, s) && s.status.Keys == jobs.Keys
    requires Enabled(jobs, env, s, Finish(id, result))
    ensures ChainsIntact(jobs, Apply(s, Finish(id, result)))
  {
    if OnGatedPath(jobs, id) {
      CleanPath(jobs, id);
    }
  }

  lemma DropKeepsChains(jobs: Jobs, s: State, id: string)
    requires ChainsIntact(jobs, s) && id in s.status && s.status[id].Waiting?
    ensures ChainsIntact(jobs, Apply(s, Drop(id)))
  {
  }

  lemma StepKeepsChains(jobs: Jobs, env: Env, s: State, e: Event)
    requires GatesClean(jobs) && ChainsIntact(jobs, s) && s.status.Keys == jobs.Keys
    requires Enabled(jobs, env, s, e)
    ensures ChainsIntact(jobs, Apply(s, e))
  {
    match e
    case Start(id) => StartKeepsChains(jobs, env, s, id);
    case Finish(id, result) => FinishKeepsChains(jobs, env, s, id, result);
    case Drop(id) => DropKeepsChains(jobs, s, id);
    case Approve =>
  }

  lemma {:induction false} ChainsAlwaysIntact(jobs: Jobs, env: Env, run: seq<Event>)
    requires GatesClean(jobs) && IsRun(jobs, env, run)
    ensures ChainsIntact(jobs, After(jobs, run))
  {
    if run != [] {
      var before := run[..|run| - 1];
      ChainsAlwaysIntact(jobs, env, before);
      RunKeepsJobs(jobs, env, before);
      StepKeepsChains(jobs, env, After(jobs, before), run[|run| - 1]);
    }
  }

  lemma NeedPassed(jobs: Jobs, s: State, id: string, d: string)
    requires ChainsIntact(jobs, s) && s.status.Keys == jobs.Keys
    requires id in jobs && OnGatedPath(jobs, id) && Started(s.status[id])
    requires Edge(NeedsGraph(jobs), id, d)
    ensures d in jobs && s.status[d].Passed? && OnGatedPath(jobs, d)
  {
    OnGatedPathNeed(jobs, id, d);
  }

  /** Along a walk of needs from a started job, every later job has passed. */
  lemma {:induction false} PassedAlongWalk(jobs: Jobs, s: State, p: seq<string>)
    requires ChainsIntact(jobs, s) && s.status.Keys == jobs.Keys
    requires IsWalk(NeedsGraph(jobs), p) && p[0] in jobs && OnGatedPath(jobs, p[0])
    requires Started(s.status[p[0]])
    ensures |p| > 1 ==> p[|p| - 1] in s.status && s.status[p[|p| - 1]].Passed?
    decreases |p|
  {
    if |p| > 1 {
      NeedPassed(jobs, s, p[0], p[1]);
      SubWalk(NeedsGraph(jobs), p, 1, |p|);
      PassedAlongWalk(jobs, s, p[1..]);
    }
  }

  /** Whatever is on the `needs:` path of a started non-exempt job has passed already. */
  lemma PathPassedBeforeStart(jobs: Jobs, env: Env, run: seq<Event>, id: string, k: string)
    requires GatesClean(jobs) && IsRun(jobs, env, run)
    requires id in jobs && id !in UNGATED_JOBS && StartedIn(jobs, run, id)
    requires k in GatedPathJobs(id, jobs, {}) && k != id
    ensures PassedIn(jobs, run, k)
  {
    ChainsAlwaysIntact(jobs, env, run);
    RunKeepsJobs(jobs, env, run);
    OnGatedPathSelf(jobs, id);
    PathJobsAreReachableJobs(id, jobs, k);
    var p :| WalkFromTo(NeedsGraph(jobs), id, k, p);
    PassedAlongWalk(jobs, After(jobs, run), p);
  }

  lemma ApprovalMeansApproved(jobs: Jobs, env: Env, run: seq<Event>, a: string)
    requires GatesClean(jobs) && BoundaryClean(jobs) && IsRun(jobs, env, run)
    requires IsRequired(jobs, a) && a in jobs && StartedIn(jobs, run, a)
    ensures After(jobs, run).approved
  {
    ChainsAlwaysIntact(jobs, env, run);
    assert !IsBoundaryViolation(jobs, UnnamedEnvironment(a));
    assert !IsBoundaryViolation(jobs, WrongEnvironment(a));
  }

  /** Approval before publish: if V1, V3, V4, V7 and V8 report nothing, then in every state
      of every run a publishing job that has started is not an approval job itself, its
      own chain's approval job has already passed, and a person has approved. */
  lemma ApprovalBeforePublish(jobs: Jobs, env: Env, run: seq<Event>, id: string)
    requires GatesClean(jobs) && BoundaryClean(jobs) && IsRun(jobs, env, run)
    requires id in jobs && jobs[id].publishes && StartedIn(jobs, run, id)
    ensures !IsRequired(jobs, id)
    ensures PassedIn(jobs, run, ApprovalForJob(id))
    ensures After(jobs, run).approved
  {
    var a := ApprovalForJob(id);
    assert !IsGateViolation(jobs, ExemptPublishes(id));
    assert !IsBoundaryViolation(jobs, PublisherOutsideApproval(id));
    assert a in GatedPathJobs(id, jobs, {});
    assert id in GatedPathJobs(id, jobs, {});
    assert !IsBoundaryViolation(jobs, PublishesUpstream(id, id));
    PathPassedBeforeStart(jobs, env, run, id, a);
    PathJobsSound(id, jobs, {}, a);
    ApprovalMeansApproved(jobs, env, run, a);
  }

  /** V20: if the verify job is on the kernel approval's path, it has passed before that
      approval job starts in any run. */
  lemma VerifyBeforeApproval(jobs: Jobs, env: Env, run: seq<Event>)
    requires GatesClean(jobs) && VerifyRows(jobs) == [] && IsRun(jobs, env, run)
    requires StartedIn(jobs, run, APPROVAL_JOB)
    ensures PassedIn(jobs, run, VERIFY_JOB)
  {
    RunKeepsJobs(jobs, env, run);
    PathPassedBeforeStart(jobs, env, run, APPROVAL_JOB, VERIFY_JOB);
  }

  /** V14: whoever holds a write capability started only after a person approved, and every
      such job other than the kernel approval job only after its own approval job passed (that
      job is on its own path, see `CapabilityGuardIsExact`). */
  lemma ApprovalBeforeCapability(jobs: Jobs, env: Env, run: seq<Event>, id: string)
    requires GatesClean(jobs) && BoundaryClean(jobs) && CapabilitiesClean(jobs) && IsRun(jobs, env, run)
    requires id in jobs && id !in UNGATED_JOBS && jobs[id].capability && StartedIn(jobs, run, id)
    ensures After(jobs, run).approved
    ensures id != APPROVAL_JOB ==> PassedIn(jobs, run, ApprovalForJob(id))
  {
    var a := ApprovalForJob(id);
    OnlyKernelApprovalOwnsItself(id);
    if id != APPROVAL_JOB {
      assert !IsCapabilityViolation(jobs, CapabilityOutsideApproval(id));
      PathPassedBeforeStart(jobs, env, run, id, a);
      PathJobsSound(id, jobs, {}, a);
    }
    ApprovalMeansApproved(jobs, env, run, a);
  }
}
