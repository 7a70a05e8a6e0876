/**
 Which jobs some run can start, and with that the exact reach of V14: its guarantee
 fails for one job only, the kernel approval job, and for that job whenever it can start.
 */
module Startability {
  import opened Text
  import opened Graphs
  import opened JobFields
  import opened ReleaseGate
  import opened Approvals
  import opened Runner

  predicate LiterallyFalse(job: Job) {
    IfText(job) == Some("false")
  }

  /** An `if:` that is literally false holds in no environment; any other holds in the one where
      everything does. */
  lemma FalseNeverHolds(env: Env, id: string, job: Job)
    ensures LiterallyFalse(job) ==> !IfHolds(env, id, job)
    ensures !LiterallyFalse(job) ==> IfHolds(AllTrue(), id, job)
  {
    GateEnds();
    GateIsExact(job);
    SaysIfIsText(job, "false");
    SaysIfIsText(job, "true");
  }

  /** The needs of every job that can run at all. */
  function LiveNeeds(jobs: Jobs): Graph<string> {
    map id | id in jobs && !LiterallyFalse(jobs[id]) :: NeedsOf(jobs[id])
  }

  /** The walk from the node ends: every node on it is defined and none is met again on its own path. */
  predicate Resolves(g: Graph<string>, id: string, seen: set<string>)
    decreases g.Keys - seen
  {
    id !in seen && id in g && forall d :: d in g[id] ==> Resolves(g, d, seen + {id})
  }

  predicate ResolvesIn(g: Graph<string>, id: string, n: nat)
    decreases n
  {
    n > 0 && id in g && forall d :: d in g[id] ==> ResolvesIn(g, d, n - 1)
  }

  /** The `needs:` walk from the job ends: every job on it is defined, none is met again on
      its own path, and none has a literally false `if:`. */
  predicate CanResolve(id: string, jobs: Jobs, seen: set<string>) {
    Resolves(LiveNeeds(jobs), id, seen)
  }

  predicate ResolvesWithin(id: string, jobs: Jobs, n: nat) {
    ResolvesIn(LiveNeeds(jobs), id, n)
  }

  lemma {:induction false} ResolvesInMonotone(g: Graph<string>, id: string, n: nat)
    requires ResolvesIn(g, id, n)
    ensures ResolvesIn(g, id, n + 1)
    decreases n
  {
    forall d | d in g[id]
      ensures ResolvesIn(g, d, n)
    {
      ResolvesInMonotone(g, d, n - 1);
    }
  }

  lemma FewerLeft(all: set<string>, seen: set<string>, id: string)
    requires id in all && id !in seen
    ensures |all - (seen + {id})| < |all - seen|
  {
    assert all - seen == (all - (seen + {id})) + {id};
  }

  lemma {:induction false} ResolvesSound(g: Graph<string>, id: string, seen: set<string>, n: nat)
    requires Resolves(g, id, seen) && |g.Keys - seen| <= n
    ensures ResolvesIn(g, id, n)
    decreases n
  {
    FewerLeft(g.Keys, seen, id);
    forall d | d in g[id]
      ensures ResolvesIn(g, d, n - 1)
    {
      ResolvesSound(g, d, seen + {id}, n - 1);
    }
  }

  ghost predicate NoneIn(g: Graph<string>, seen: set<string>, n: nat) {
    forall s :: s in seen ==> !ResolvesIn(g, s, n)
  }

  lemma NoneInLower(g: Graph<string>, seen: set<string>, n: nat)
    requires NoneIn(g, seen, n + 1)
    ensures NoneIn(g, seen, n)
  {
    forall s | s in seen
      ensures !ResolvesIn(g, s, n)
    {
      if ResolvesIn(g, s, n) {
        ResolvesInMonotone(g, s, n);
      }
    }
  }

  /** Cutting at the current path loses nothing. */
  lemma {:induction false} ResolvesComplete(g: Graph<string>, id: string, seen: set<string>, n: nat)
    requires ResolvesIn(g, id, n) && NoneIn(g, seen, n)
    ensures Resolves(g, id, seen)
    decreases n, 1
  {
    NoneInLower(g, seen, n - 1);
    if ResolvesIn(g, id, n - 1) {
      ResolvesComplete(g, id, seen, n - 1);
    } else {
      NeedsResolve(g, id, seen + {id}, n);
    }
  }

  lemma {:induction false} NeedsResolve(g: Graph<string>, id: string, path: set<string>, n: nat)
    requires ResolvesIn(g, id, n) && NoneIn(g, path, n - 1)
    ensures forall d :: d in g[id] ==> Resolves(g, d, path)
    decreases n, 0
  {
    forall d | d in g[id]
      ensures Resolves(g, d, path)
    {
      ResolvesComplete(g, d, path, n - 1);
    }
  }

  // ----- A job that starts can resolve -----

  ghost predicate StartedResolve(jobs: Jobs, s: State, n: nat) {
    forall id :: id in s.status && OnGatedPath(jobs, id) && Started(s.status[id]) ==> ResolvesWithin(id, jobs, n)
  }

  lemma {:induction false} StartedResolveAlways(jobs: Jobs, env: Env, run: seq<Event>)
    requires GatesClean(jobs) && IsRun(jobs, env, run)
    ensures StartedResolve(jobs, After(jobs, run), |run|)
  {
    if run != [] {
      var n := |run| - 1;
      var before, e := run[..n], run[n];
      var s := After(jobs, before);
      StartedResolveAlways(jobs, env, before);
      RunKeepsJobs(jobs, env, before);
      forall id | id in s.status && OnGatedPath(jobs, id) && Started(s.status[id])
        ensures ResolvesWithin(id, jobs, n + 1)
      {
        ResolvesInMonotone(LiveNeeds(jobs), id, n);
      }
      if e.Start? && OnGatedPath(jobs, e.id) {
        CleanPathCallsNoStatusFunction(jobs, e.id);
        FalseNeverHolds(env, e.id, jobs[e.id]);
        forall d | IsNeed(jobs[e.id], d)
          ensures ResolvesWithin(d, jobs, n)
        {
          assert NeedMet(jobs, s, d);
          OnGatedPathNeed(jobs, e.id, d);
        }
      }
    }
  }

  // ----- A job that can resolve starts in some run -----

  ghost function AllTrue(): Env {
    Env(true, (id: string, text: string) => true)
  }

  /** A run of the all-true environment in which everything so far has passed. */
  ghost predicate Smooth(jobs: Jobs, run: seq<Event>) {
    IsRun(jobs, AllTrue(), run) && After(jobs, run).approved
    && After(jobs, run).status.Keys == jobs.Keys
    && forall id :: id in jobs ==> After(jobs, run).status[id].Waiting? || After(jobs, run).status[id].Passed?
  }

  ghost predicate KeepsPassed(jobs: Jobs, run: seq<Event>, longer: seq<Event>) {
    forall id :: PassedIn(jobs, run, id) ==> PassedIn(jobs, longer, id)
  }

  lemma Extend(jobs: Jobs, env: Env, run: seq<Event>, e: Event)
    requires IsRun(jobs, env, run) && Enabled(jobs, env, After(jobs, run), e)
    ensures IsRun(jobs, env, run + [e]) && After(jobs, run + [e]) == Apply(After(jobs, run), e)
  {
    assert (run + [e])[..|run|] == run;
  }

  lemma StartAfterNeeds(jobs: Jobs, run: seq<Event>, id: string)
    requires Smooth(jobs, run) && id in jobs && After(jobs, run).status[id].Waiting?
    requires !LiterallyFalse(jobs[id])
    requires forall d :: IsNeed(jobs[id], d) ==> PassedIn(jobs, run, d)
    ensures IsRun(jobs, AllTrue(), run + [Start(id)])
    ensures After(jobs, run + [Start(id)]) == Apply(After(jobs, run), Start(id))
  {
    var s := After(jobs, run);
    FalseNeverHolds(AllTrue(), id, jobs[id]);
    forall d | IsNeed(jobs[id], d) ensures d in s.status && s.status[d].Passed? {
      assert PassedIn(jobs, run, d);
    }
    assert MayStart(jobs, AllTrue(), s, id);
    Extend(jobs, AllTrue(), run, Start(id));
  }

  lemma ResolvesStep(jobs: Jobs, id: string, n: nat)
    requires ResolvesWithin(id, jobs, n)
    ensures n > 0 && id in jobs && !LiterallyFalse(jobs[id])
    ensures forall d :: d in NeedsOf(jobs[id]) ==> ResolvesWithin(d, jobs, n - 1)
  {
  }

  /** A job whose needs have passed starts and passes. */
  lemma StartAndPass(jobs: Jobs, run: seq<Event>, id: string) returns (longer: seq<Event>)
    requires Smooth(jobs, run) && id in jobs && !LiterallyFalse(jobs[id])
    requires forall d :: IsNeed(jobs[id], d) ==> PassedIn(jobs, run, d)
    ensures Smooth(jobs, longer) && KeepsPassed(jobs, run, longer) && PassedIn(jobs, longer, id)
  {
    if After(jobs, run).status[id].Passed? {
      longer := run;
    } else {
      StartAfterNeeds(jobs, run, id);
      var started := run + [Start(id)];
      Extend(jobs, AllTrue(), started, Finish(id, Passed));
      longer := started + [Finish(id, Passed)];
    }
  }

  lemma {:induction false} PassJob(jobs: Jobs, run: seq<Event>, id: string, n: nat) returns (longer: seq<Event>)
    requires Smooth(jobs, run) && ResolvesWithin(id, jobs, n)
    ensures Smooth(jobs, longer) && KeepsPassed(jobs, run, longer) && PassedIn(jobs, longer, id)
    decreases n, 0
  {
    ResolvesStep(jobs, id, n);
    var ready := PassJobs(jobs, run, NeedsOf(jobs[id]), n - 1);
    longer := StartAndPass(jobs, ready, id);
  }

  lemma {:induction false} PassJobs(jobs: Jobs, run: seq<Event>, ids: seq<string>, n: nat) returns (longer: seq<Event>)
    requires Smooth(jobs, run) && forall d :: d in ids ==> ResolvesWithin(d, jobs, n)
    ensures Smooth(jobs, longer) && KeepsPassed(jobs, run, longer)
    ensures forall d :: d in ids ==> PassedIn(jobs, longer, d)
    decreases n, |ids| + 1
  {
    if ids == [] {
      longer := run;
    } else {
      var first := PassJob(jobs, run, ids[0], n);
      longer := PassJobs(jobs, first, ids[1..], n);
    }
  }

  ghost predicate CanStart(jobs: Jobs, id: string) {
    exists env, run :: IsRun(jobs, env, run) && StartedIn(jobs, run, id)
  }

  lemma {:induction false} ResolvableJobPassesInSomeRun(jobs: Jobs, id: string) returns (run: seq<Event>)
    requires CanResolve(id, jobs, {})
    ensures IsRun(jobs, AllTrue(), run) && PassedIn(jobs, run, id)
  {
    var n := |LiveNeeds(jobs).Keys - {}|;
    ResolvesSound(LiveNeeds(jobs), id, {}, n);
    Extend(jobs, AllTrue(), [], Approve);
    run := PassJob(jobs, [] + [Approve], id, n);
  }

  /** On the paths V3 and V4 keep clean, the jobs that some run starts are exactly those
      whose needs walk resolves. */
  lemma StartableIffResolvable(jobs: Jobs, id: string)
    requires GatesClean(jobs) && OnGatedPath(jobs, id)
    ensures CanStart(jobs, id) <==> CanResolve(id, jobs, {})
  {
    if CanStart(jobs, id) {
      var env, run :| IsRun(jobs, env, run) && StartedIn(jobs, run, id);
      StartedResolveAlways(jobs, env, run);
      ResolvesComplete(LiveNeeds(jobs), id, {}, |run|);
    }
    if CanResolve(id, jobs, {}) {
      var run := ResolvableJobPassesInSomeRun(jobs, id);
    }
  }

  // ----- The exact reach of V14 -----

  ghost predicate GuardedByApproval(jobs: Jobs, id: string) {
    forall env, run :: IsRun(jobs, env, run) && StartedIn(jobs, run, id) ==>
      PassedIn(jobs, run, ApprovalForJob(id))
  }

  lemma RunningApprovalIsNotPassed(jobs: Jobs)
    requires CanResolve(APPROVAL_JOB, jobs, {})
    ensures exists env, run :: IsRun(jobs, env, run) && StartedIn(jobs, run, APPROVAL_JOB)
                               && !PassedIn(jobs, run, APPROVAL_JOB)
  {
    var n := |LiveNeeds(jobs).Keys - {}|;
    ResolvesSound(LiveNeeds(jobs), APPROVAL_JOB, {}, n);
    Extend(jobs, AllTrue(), [], Approve);
    var run := PassJobs(jobs, [] + [Approve], NeedsOf(jobs[APPROVAL_JOB]), n - 1);
    if !PassedIn(jobs, run, APPROVAL_JOB) {
      StartAfterNeeds(jobs, run, APPROVAL_JOB);
      var started := run + [Start(APPROVAL_JOB)];
      assert StartedIn(jobs, started, APPROVAL_JOB);
    } else {
      var started := PrefixWhereRunning(jobs, AllTrue(), run, APPROVAL_JOB);
    }
  }

  /** A job that has passed was running in an earlier state of the run. */
  lemma {:induction false} PrefixWhereRunning(jobs: Jobs, env: Env, run: seq<Event>, id: string) returns (earlier: seq<Event>)
    requires IsRun(jobs, env, run) && PassedIn(jobs, run, id)
    ensures IsRun(jobs, env, earlier) && StartedIn(jobs, earlier, id) && !PassedIn(jobs, earlier, id)
  {
    var before := run[..|run| - 1];
    RunKeepsJobs(jobs, env, run);
    RunKeepsJobs(jobs, env, before);
    if PassedIn(jobs, before, id) {
      earlier := PrefixWhereRunning(jobs, env, before, id);
    } else {
      earlier := before;
    }
  }

  /** V14's promise, "every holder of a capability sits behind its approval", is kept for a
      job if and only if the job is not the kernel approval job or can never start. */
  lemma CapabilityGuardIsExact(jobs: Jobs, id: string)
    requires GatesClean(jobs) && BoundaryClean(jobs) && CapabilitiesClean(jobs)
    requires id in jobs && id !in UNGATED_JOBS && jobs[id].capability
    ensures GuardedByApproval(jobs, id) <==> id != APPROVAL_JOB || !CanResolve(id, jobs, {})
  {
    if id != APPROVAL_JOB {
      forall env, run | IsRun(jobs, env, run) && StartedIn(jobs, run, id)
        ensures PassedIn(jobs, run, ApprovalForJob(id))
      {
        ApprovalBeforeCapability(jobs, env, run, id);
      }
    } else if CanResolve(id, jobs, {}) {
      OnlyKernelApprovalOwnsItself(id);
      RunningApprovalIsNotPassed(jobs);
    } else {
      OnGatedPathSelf(jobs, id);
      StartableIffResolvable(jobs, id);
    }
  }

  // ----- A workflow that every rule accepts and that shows the gap -----

  /** The verify job, and behind it the approval job, which holds a write capability itself. */
  function GateHoldingCapability(): Jobs {
    map[VERIFY_JOB := Job(IfExpr(GATE_EXPR), NoNeeds, NoContinue, [], None, false, false),
        APPROVAL_JOB := Job(IfExpr(GATE_EXPR), NeedsScalar(VERIFY_JOB), NoContinue, [],
                            Some(APPROVAL_ENVIRONMENT), false, true)]
  }

  lemma NoParenthesisInGate()
    ensures '(' !in GATE_EXPR
  {
    var gate := GATE_EXPR;
    assert |gate| == 39;
    assert forall i :: 0 <= i < |gate| ==> gate[i] != '(';
  }

  lemma GateCallsNothing(job: Job, fn: string)
    requires job.condition == IfExpr(GATE_EXPR)
    ensures !SpellsCall(job, fn)
  {
    NoParenthesisInGate();
    forall i: nat | i <= |GATE_EXPR| ensures !SpellsAt(GATE_EXPR, i, fn + "(") {
      NothingSpelled(GATE_EXPR, i, fn + "(");
    }
  }

  lemma GateTextIsTrimmed(job: Job)
    requires job.condition == IfExpr(GATE_EXPR)
    ensures IfText(job) == Some(GATE_EXPR)
  {
    assert !IsSpace(GATE_EXPR[0]) && !IsSpace(GATE_EXPR[|GATE_EXPR| - 1]);
  }

  /** Two gated jobs, the second needing the first. */
  ghost predicate InARow(jobs: Jobs, first: string, second: string) {
    && jobs.Keys == {first, second} && first != second
    && NeedsOf(jobs[first]) == [] && NeedsOf(jobs[second]) == [first]
    && DirectlyGated(jobs[first]) && DirectlyGated(jobs[second])
  }

  lemma PathsInARow(jobs: Jobs, first: string, second: string)
    requires InARow(jobs, first, second)
    ensures IsGated(first, jobs, {}) && IsGated(second, jobs, {})
    ensures GatedPathJobs(first, jobs, {}) == {first}
    ensures GatedPathJobs(second, jobs, {}) == {first, second}
  {
    assert GatedPathJobs(first, jobs, {second}) == {first};
    assert {} + {second} == {second};
    assert forall d :: d in NeedsOf(jobs[second]) <==> d == first;
  }

  /** Nothing about the two jobs that a rule objects to. */
  ghost predicate Blameless(jobs: Jobs, first: string, second: string) {
    && jobs.Keys == {first, second} && second == APPROVAL_JOB
    && first !in UNGATED_JOBS && second !in UNGATED_JOBS
    && ApprovalForJob(first) == second && ApprovalForJob(second) == second
    && IsGated(first, jobs, {}) && IsGated(second, jobs, {})
    && GatedPathJobs(first, jobs, {}) == {first} && GatedPathJobs(second, jobs, {}) == {first, second}
    && (forall id, fn :: id in jobs ==> !SpellsCall(jobs[id], fn))
    && (forall id :: id in jobs ==> jobs[id].onError.NoContinue? && jobs[id].stepsOnError == [] && !jobs[id].publishes)
    && jobs[second].environment == Some(APPROVAL_ENVIRONMENT) && !jobs[first].capability
  }

  lemma BlamelessPassesGates(jobs: Jobs, first: string, second: string)
    requires Blameless(jobs, first, second)
    ensures GatesClean(jobs)
  {
    forall v
      ensures !IsGateViolation(jobs, v)
    {
      if v.Ungated? || v.ExemptPublishes? {
        assert v.id in jobs ==> v.id == first || v.id == second;
      } else if v.StatusFunction? || v.JobContinues? || v.StepContinues? {
        assert v.root in jobs ==> v.root == first || v.root == second;
      }
    }
  }

  lemma PassesBoundary(jobs: Jobs)
    requires APPROVAL_JOB in jobs && jobs[APPROVAL_JOB].environment == Some(APPROVAL_ENVIRONMENT)
    requires forall id :: id in jobs ==> ApprovalForJob(id) == APPROVAL_JOB && !jobs[id].publishes
    ensures BoundaryClean(jobs)
  {
    assert forall a :: a in Required(jobs) ==> a == APPROVAL_JOB;
  }

  lemma PassesCapabilities(jobs: Jobs, holder: string)
    requires holder in jobs && ApprovalForJob(holder) in GatedPathJobs(holder, jobs, {})
    requires forall id :: id in jobs && jobs[id].capability ==> id == holder
    ensures CapabilitiesClean(jobs)
  {
  }

  lemma BlamelessPassesApprovals(jobs: Jobs, first: string, second: string)
    requires Blameless(jobs, first, second)
    ensures BoundaryClean(jobs) && CapabilitiesClean(jobs)
  {
    PassesBoundary(jobs);
    PassesCapabilities(jobs, second);
  }

  lemma VerifyJobIsTheKernels()
    ensures ApprovalForJob(VERIFY_JOB) == APPROVAL_JOB && VERIFY_JOB != APPROVAL_JOB && VERIFY_JOB !in UNGATED_JOBS
  {
    forall c, q | 0 <= c < |CHAINS| && 0 <= q < |CHAIN_JOB_PREFIXES|
      ensures VERIFY_JOB != CHAIN_JOB_PREFIXES[q] + CHAINS[c].service
    {
      assert (CHAIN_JOB_PREFIXES[q] + CHAINS[c].service)[0] == CHAIN_JOB_PREFIXES[q][0] != VERIFY_JOB[0];
    }
    NoOwner(CHAINS, VERIFY_JOB);
    assert VERIFY_JOB[0] == 'v' && APPROVAL_JOB[0] == 'a';
    assert forall id :: id in UNGATED_JOBS ==> id[0] == 'r';
  }

  lemma WitnessIsBlameless(jobs: Jobs)
    requires jobs == GateHoldingCapability()
    ensures Blameless(jobs, VERIFY_JOB, APPROVAL_JOB)
  {
    VerifyJobIsTheKernels();
    OnlyKernelApprovalOwnsItself(APPROVAL_JOB);
    GateTextIsTrimmed(jobs[VERIFY_JOB]);
    GateTextIsTrimmed(jobs[APPROVAL_JOB]);
    PathsInARow(jobs, VERIFY_JOB, APPROVAL_JOB);
    forall id, fn | id in jobs ensures !SpellsCall(jobs[id], fn) {
      GateCallsNothing(jobs[id], fn);
    }
  }

  lemma ResolvesInARow(g: Graph<string>, first: string, second: string)
    requires first in g && second in g && first != second && g[first] == [] && g[second] == [first]
    ensures Resolves(g, second, {})
  {
    assert Resolves(g, first, {} + {second});
  }

  lemma GateIsNotFalse(job: Job)
    requires job.condition == IfExpr(GATE_EXPR)
    ensures !LiterallyFalse(job)
  {
    GateTextIsTrimmed(job);
    assert |GATE_EXPR| == 39;
  }

  /** Every graph rule of the release check accepts an approval job that itself holds a write
      capability, and a run starts it with no approval job passed before. */
  lemma ApprovalJobMayHoldACapability()
    ensures
      var jobs := GateHoldingCapability();
      && GatesClean(jobs) && BoundaryClean(jobs) && CapabilitiesClean(jobs) && VerifyRows(jobs) == []
      && jobs[APPROVAL_JOB].capability && !GuardedByApproval(jobs, APPROVAL_JOB)
  {
    var jobs := GateHoldingCapability();
    WitnessIsBlameless(jobs);
    BlamelessPassesGates(jobs, VERIFY_JOB, APPROVAL_JOB);
    BlamelessPassesApprovals(jobs, VERIFY_JOB, APPROVAL_JOB);
    VerifyJobIsTheKernels();
    GateIsNotFalse(jobs[VERIFY_JOB]);
    GateIsNotFalse(jobs[APPROVAL_JOB]);
    ResolvesInARow(LiveNeeds(jobs), VERIFY_JOB, APPROVAL_JOB);
    CapabilityGuardIsExact(jobs, APPROVAL_JOB);
  }
}
