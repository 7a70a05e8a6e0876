/**
 The job-graph rules of the release guard (ci/actionlint/release_guard.py): which
 jobs are gated on the release flag (V1), which jobs a gate depends on (V3, V4), which
 jobs may publish (V7, V8), hold a write capability (V14), and where the verify job
 sits (V20).
 */
module ReleaseGate {
  import opened Graphs
  import opened JobFields

  type Jobs = map<string, Job>

  const UNGATED_JOBS := {"release-pr"}
  const APPROVAL_JOB := "approve-release"
  const APPROVAL_ENVIRONMENT := "release-approval"
  const VERIFY_JOB := "verify-crates"

  datatype Chain = Chain(service: string, approval: string)

  const CHAINS := [
    Chain("iam", "approve-images-iam"),
    Chain("gateway", "approve-images-gateway"),
    Chain("iam-console", "approve-images-iam-console"),
    Chain("gateway-console", "approve-images-gateway-console")]
  const CHAIN_JOB_PREFIXES := ["images-build-", "publish-images-", "tag-"]

  /** The relation "has the need", as a graph. */
  function NeedsGraph(jobs: Jobs): (g: Graph<string>)
    ensures g.Keys == jobs.Keys && forall id, d :: id in jobs ==> (d in g[id] <==> IsNeed(jobs[id], d))
  {
    map id | id in jobs :: NeedsOf(jobs[id])
  }

  // ----- V1: gated directly or through an unbroken chain -----

  /** The guard's recursion. `seen` is the current path only: a job met again on
      its own path is not gated, the same job on another path is looked at afresh. */
  predicate IsGated(id: string, jobs: Jobs, seen: set<string>)
    decreases jobs.Keys - seen
  {
    if id in seen || id !in jobs then false
    else
      DirectlyGated(jobs[id])
      || (NeedsOf(jobs[id]) != []
          && forall d :: d in NeedsOf(jobs[id]) ==> IsGated(d, jobs, seen + {id}))
  }

  /** One application of the rule "its own `if:` is the gate, or it has a need and every
      need is in `gated`". */
  ghost predicate GateRule(id: string, jobs: Jobs, gated: iset<string>) {
    id in jobs
    && (HasGate(jobs[id])
        || ((exists d :: IsNeed(jobs[id], d))
            && forall d :: IsNeed(jobs[id], d) ==> d in gated))
  }

  /** The same rule as the guard applies it. */
  lemma GateRuleAsRead(id: string, jobs: Jobs, gated: iset<string>)
    requires id in jobs
    ensures GateRule(id, jobs, gated) <==>
      DirectlyGated(jobs[id]) || (NeedsOf(jobs[id]) != [] && forall d :: d in NeedsOf(jobs[id]) ==> d in gated)
  {
    GateIsExact(jobs[id]);
    if NeedsOf(jobs[id]) != [] {
      assert IsNeed(jobs[id], NeedsOf(jobs[id])[0]);
    }
  }

  /** The rule applied at most `n` times, starting from nothing. */
  predicate GatedWithin(id: string, jobs: Jobs, n: nat)
    decreases n
  {
    n > 0 && id in jobs
    && (DirectlyGated(jobs[id])
        || (NeedsOf(jobs[id]) != []
            && forall d :: d in NeedsOf(jobs[id]) ==> GatedWithin(d, jobs, n - 1)))
  }

  lemma {:induction false} GatedWithinMonotone(id: string, jobs: Jobs, n: nat)
    requires GatedWithin(id, jobs, n)
    ensures GatedWithin(id, jobs, n + 1)
    decreases n
  {
    if !DirectlyGated(jobs[id]) {
      forall d | d in NeedsOf(jobs[id])
        ensures GatedWithin(d, jobs, n)
      {
        GatedWithinMonotone(d, jobs, n - 1);
      }
    }
  }

  lemma {:induction false} GatedWithinRaise(id: string, jobs: Jobs, m: nat, n: nat)
    requires m <= n && GatedWithin(id, jobs, m)
    ensures GatedWithin(id, jobs, n)
    decreases n - m
  {
    if m < n {
      GatedWithinMonotone(id, jobs, m);
      GatedWithinRaise(id, jobs, m + 1, n);
    }
  }

  lemma {:induction false} IsGatedSound(id: string, jobs: Jobs, seen: set<string>)
    requires IsGated(id, jobs, seen)
    ensures GatedWithin(id, jobs, |jobs.Keys - seen| + 1)
    decreases jobs.Keys - seen
  {
    if !DirectlyGated(jobs[id]) {
      forall d | d in NeedsOf(jobs[id])
        ensures GatedWithin(d, jobs, |jobs.Keys - seen|)
      {
        IsGatedSound(d, jobs, seen + {id});
        assert jobs.Keys - seen == jobs.Keys - (seen + {id}) + {id};
      }
    }
  }

  ghost predicate NoneGatedWithin(seen: set<string>, jobs: Jobs, n: nat) {
    forall s :: s in seen ==> !GatedWithin(s, jobs, n)
  }

  lemma NoneGatedLower(seen: set<string>, jobs: Jobs, n: nat)
    requires NoneGatedWithin(seen, jobs, n + 1)
    ensures NoneGatedWithin(seen, jobs, n)
  {
    forall s | s in seen
      ensures !GatedWithin(s, jobs, n)
    {
      if GatedWithin(s, jobs, n) {
        GatedWithinMonotone(s, jobs, n);
      }
    }
  }

  /** A job derived in `n` rounds is found from any path whose jobs all need more than
      `n` rounds, so cutting at the current path loses nothing. */
  lemma {:induction false} IsGatedComplete(id: string, jobs: Jobs, seen: set<string>, n: nat)
    requires GatedWithin(id, jobs, n) && NoneGatedWithin(seen, jobs, n)
    ensures IsGated(id, jobs, seen)
    decreases n, 1
  {
    var path := seen + {id};
    NoneGatedLower(seen, jobs, n - 1);
    if GatedWithin(id, jobs, n - 1) {
      IsGatedComplete(id, jobs, seen, n - 1);
    } else {
      assert NoneGatedWithin(path, jobs, n - 1);
      NeedsAreGated(id, jobs, path, n);
    }
  }

  lemma {:induction false} NeedsAreGated(id: string, jobs: Jobs, path: set<string>, n: nat)
    requires GatedWithin(id, jobs, n) && NoneGatedWithin(path, jobs, n - 1)
    ensures !DirectlyGated(jobs[id]) ==> forall d :: d in NeedsOf(jobs[id]) ==> IsGated(d, jobs, path)
    decreases n, 0
  {
    if !DirectlyGated(jobs[id]) {
      forall d | d in NeedsOf(jobs[id])
        ensures IsGated(d, jobs, path)
      {
        IsGatedComplete(d, jobs, path, n - 1);
      }
    }
  }

  ghost function GatedSet(jobs: Jobs): iset<string> {
    iset id | IsGated(id, jobs, {})
  }

  lemma GatedIffWithin(id: string, jobs: Jobs, n: nat)
    requires |jobs| < n
    ensures IsGated(id, jobs, {}) <==> GatedWithin(id, jobs, n)
  {
    assert jobs.Keys - {} == jobs.Keys;
    if IsGated(id, jobs, {}) {
      IsGatedSound(id, jobs, {});
      GatedWithinRaise(id, jobs, |jobs| + 1, n);
    }
    if GatedWithin(id, jobs, n) {
      IsGatedComplete(id, jobs, {}, n);
    }
  }

  lemma {:induction false} WithinEveryClosedSet(id: string, jobs: Jobs, n: nat, closed: iset<string>)
    requires forall k :: GateRule(k, jobs, closed) ==> k in closed
    requires GatedWithin(id, jobs, n)
    ensures id in closed
    decreases n
  {
    if !DirectlyGated(jobs[id]) {
      forall d | d in NeedsOf(jobs[id])
        ensures d in closed
      {
        WithinEveryClosedSet(d, jobs, n - 1, closed);
      }
    }
    GateRuleAsRead(id, jobs, closed);
  }

  /** V1's recursion decides exactly the least set closed under the gate rule: the set
      is a fixed point, and every set closed under the rule contains it. */
  lemma IsGatedIsLeastFixedPoint(jobs: Jobs)
    ensures forall id :: id in GatedSet(jobs) <==> GateRule(id, jobs, GatedSet(jobs))
    ensures forall closed: iset<string> ::
              (forall k :: GateRule(k, jobs, closed) ==> k in closed) ==> GatedSet(jobs) <= closed
  {
    var n := |jobs| + 1;
    forall id
      ensures id in GatedSet(jobs) <==> GateRule(id, jobs, GatedSet(jobs))
    {
      GatedIffWithin(id, jobs, n + 1);
      if id in jobs {
        GateRuleAsRead(id, jobs, GatedSet(jobs));
        forall d | d in NeedsOf(jobs[id])
          ensures d in GatedSet(jobs) <==> GatedWithin(d, jobs, n)
        {
          GatedIffWithin(d, jobs, n);
        }
      }
    }
    forall closed: iset<string> | forall k :: GateRule(k, jobs, closed) ==> k in closed
      ensures GatedSet(jobs) <= closed
    {
      forall id | id in GatedSet(jobs)
        ensures id in closed
      {
        GatedIffWithin(id, jobs, n);
        WithinEveryClosedSet(id, jobs, n, closed);
      }
    }
  }

  // ----- The needs: path of a job -----

  /** The job and every defined job on its `needs:` path; `seen` is the current path. */
  function GatedPathJobs(id: string, jobs: Jobs, seen: set<string>): set<string>
    decreases jobs.Keys - seen
  {
    if id in seen || id !in jobs then {}
    else {id} + set d, k | d in NeedsOf(jobs[id]) && k in GatedPathJobs(d, jobs, seen + {id}) :: k
  }

  lemma {:induction false} PathJobsSound(id: string, jobs: Jobs, seen: set<string>, k: string)
    requires k in GatedPathJobs(id, jobs, seen)
    ensures k in jobs && Reaches(NeedsGraph(jobs), id, k)
    decreases jobs.Keys - seen
  {
    var g := NeedsGraph(jobs);
    if k == id {
      ReachesSelf(g, id);
    } else {
      var d :| d in NeedsOf(jobs[id]) && k in GatedPathJobs(d, jobs, seen + {id});
      PathJobsSound(d, jobs, seen + {id}, k);
      ReachesEdge(g, id, d);
      ReachesTransitive(g, id, d, k);
    }
  }

  lemma {:induction false} PathJobsComplete(jobs: Jobs, seen: set<string>, p: seq<string>)
    requires IsWalk(NeedsGraph(jobs), p) && Distinct(p) && p[|p| - 1] in jobs
    requires forall i :: 0 <= i < |p| ==> p[i] !in seen
    ensures p[|p| - 1] in GatedPathJobs(p[0], jobs, seen)
    decreases |p|
  {
    if |p| > 1 {
      assert Edge(NeedsGraph(jobs), p[0], p[1]);
      SubWalk(NeedsGraph(jobs), p, 1, |p|);
      PathJobsComplete(jobs, seen + {p[0]}, p[1..]);
    }
  }

  /** The walk with its path-local `seen` collects exactly the defined jobs that the
      `needs:` relation reaches, the job itself included. */
  lemma PathJobsAreReachableJobs(id: string, jobs: Jobs, k: string)
    ensures k in GatedPathJobs(id, jobs, {}) <==> k in jobs && Reaches(NeedsGraph(jobs), id, k)
  {
    if k in GatedPathJobs(id, jobs, {}) {
      PathJobsSound(id, jobs, {}, k);
    }
    if k in jobs && Reaches(NeedsGraph(jobs), id, k) {
      var p :| WalkFromTo(NeedsGraph(jobs), id, k, p);
      var q := SimpleWalk(NeedsGraph(jobs), id, k, p);
      PathJobsComplete(jobs, {}, q);
    }
  }

  // ----- Each job's own approval -----

  predicate OwnsJob(service: string, id: string) {
    exists i :: 0 <= i < |CHAIN_JOB_PREFIXES| && id == CHAIN_JOB_PREFIXES[i] + service
  }

  function ApprovalIn(chains: seq<Chain>, id: string): string {
    if chains == [] then APPROVAL_JOB
    else if OwnsJob(chains[0].service, id) then chains[0].approval
    else ApprovalIn(chains[1..], id)
  }

  function ApprovalForJob(id: string): string {
    ApprovalIn(CHAINS, id)
  }

  // ----- Violations -----

  datatype Violation =
    | Ungated(id: string)
    | StatusFunction(root: string, id: string, fn: string)
    | JobContinues(root: string, id: string)
    | StepContinues(root: string, id: string, step: int)
    | ExemptPublishes(id: string)
    | MissingApproval(approval: string)
    | UnnamedEnvironment(approval: string)
    | WrongEnvironment(approval: string)
    | PublishesUpstream(approval: string, id: string)
    | PublisherOutsideApproval(id: string)
    | CapabilityOutsideApproval(id: string)
    | VerifyJobMissing
    | VerifyNotBeforeApproval

  /** The V3 and V4 findings on the path of one gated job. */
  ghost predicate IsPathViolation(jobs: Jobs, root: string, v: Violation) {
    match v
    case StatusFunction(r, id, fn) =>
      r == root && id in GatedPathJobs(root, jobs, {}) && id in jobs
      && fn in STATUS_FUNCS && SpellsCall(jobs[id], fn)
    case JobContinues(r, id) =>
      r == root && id in GatedPathJobs(root, jobs, {}) && id in jobs
      && LetsFailureThrough(jobs[id].onError)
    case StepContinues(r, id, step) =>
      r == root && id in GatedPathJobs(root, jobs, {}) && id in jobs
      && 0 <= step < |jobs[id].stepsOnError| && LetsFailureThrough(jobs[id].stepsOnError[step])
    case _ => false
  }

  /** What V1, V3, V4 and V7 must report, job by job. */
  ghost predicate IsGateViolation(jobs: Jobs, v: Violation) {
    match v
    case Ungated(id) => id in jobs && id !in UNGATED_JOBS && !IsGated(id, jobs, {})
    case ExemptPublishes(id) => id in jobs && id in UNGATED_JOBS && jobs[id].publishes
    case StatusFunction(root, _, _) =>
      root in jobs && root !in UNGATED_JOBS && IsGated(root, jobs, {}) && IsPathViolation(jobs, root, v)
    case JobContinues(root, _) =>
      root in jobs && root !in UNGATED_JOBS && IsGated(root, jobs, {}) && IsPathViolation(jobs, root, v)
    case StepContinues(root, _, _) =>
      root in jobs && root !in UNGATED_JOBS && IsGated(root, jobs, {}) && IsPathViolation(jobs, root, v)
    case _ => false
  }

  /** The order in which the job table lists its keys. */
  ghost predicate Enumerates(order: seq<string>, jobs: Jobs) {
    Distinct(order) && forall id :: id in order <==> id in jobs
  }

  datatype Outcome = Abort | Report(rows: seq<Violation>)

  method StatusRows(root: string, id: string, job: Job) returns (out: seq<Violation>)
    ensures forall v :: v in out <==>
              v.StatusFunction? && v.root == root && v.id == id
              && v.fn in STATUS_FUNCS && SpellsCall(job, v.fn)
  {
    out := [];
    for i := 0 to |STATUS_FUNCS|
      invariant forall v :: v in out <==>
                  v.StatusFunction? && v.root == root && v.id == id
                  && v.fn in STATUS_FUNCS[..i] && SpellsCall(job, v.fn)
    {
      var fn := STATUS_FUNCS[i];
      assert STATUS_FUNCS[..i + 1] == STATUS_FUNCS[..i] + [fn];
      CallsAreExact(job, fn);
      if NamesStatusFunction(job, fn) {
        out := out + [StatusFunction(root, id, fn)];
      }
    }
    assert STATUS_FUNCS[..|STATUS_FUNCS|] == STATUS_FUNCS;
  }

  method StepRows(root: string, id: string, steps: seq<ContinueField>) returns (out: seq<Violation>)
    ensures forall v :: v in out <==>
              v.StepContinues? && v.root == root && v.id == id
              && 0 <= v.step < |steps| && LetsFailureThrough(steps[v.step])
  {
    out := [];
    for i := 0 to |steps|
      invariant forall v :: v in out <==>
                  v.StepContinues? && v.root == root && v.id == id
                  && 0 <= v.step < i && LetsFailureThrough(steps[v.step])
    {
      ContinueIsExact(steps[i]);
      if !ContinueIsFalse(steps[i]) {
        out := out + [StepContinues(root, id, i)];
      }
    }
  }

  method JobPathViolations(jobs: Jobs, root: string, id: string) returns (out: seq<Violation>)
    requires id in jobs && id in GatedPathJobs(root, jobs, {})
    ensures forall v :: v in out <==> IsPathViolation(jobs, root, v) && v.id == id
  {
    out := StatusRows(root, id, jobs[id]);
    ContinueIsExact(jobs[id].onError);
    if !ContinueIsFalse(jobs[id].onError) {
      out := out + [JobContinues(root, id)];
    }
    var steps := StepRows(root, id, jobs[id].stepsOnError);
    out := out + steps;
  }

  method PathViolations(jobs: Jobs, root: string) returns (out: seq<Violation>)
    ensures forall v :: v in out <==> IsPathViolation(jobs, root, v)
  {
    out := [];
    var todo := GatedPathJobs(root, jobs, {});
    forall id | id in todo ensures id in jobs { PathJobsSound(root, jobs, {}, id); }
    while todo != {}
      invariant todo <= GatedPathJobs(root, jobs, {})
      invariant forall v :: v in out <==> IsPathViolation(jobs, root, v) && v.id !in todo
      decreases todo
    {
      var id :| id in todo;
      var more := JobPathViolations(jobs, root, id);
      out := out + more;
      todo := todo - {id};
    }
  }

  /** One turn of the per-job loop of `check_main`. */
  method JobRows(jobs: Jobs, id: string) returns (rows: seq<Violation>)
    requires id in jobs
    ensures forall v :: v in rows <==> IsGateViolation(jobs, v) && Subject(v) == id
  {
    rows := [];
    if id in UNGATED_JOBS {
      if jobs[id].publishes {
        rows := [ExemptPublishes(id)];
      }
    } else if !IsGated(id, jobs, {}) {
      rows := [Ungated(id)];
    } else {
      rows := PathViolations(jobs, id);
    }
  }

  /** The violations whose turn has come. */
  ghost predicate ReportedBy(jobs: Jobs, turns: seq<string>, v: Violation) {
    IsGateViolation(jobs, v) && Subject(v) in turns
  }

  /** The per-job loop of `check_main`: it reports exactly the V1, V3, V4 and V7 violations. */
  method CheckGates(order: seq<string>, jobs: Jobs) returns (r: Outcome)
    requires Enumerates(order, jobs)
    ensures r.Abort? <==> jobs == map[]
    ensures r.Report? ==> forall v :: v in r.rows <==> IsGateViolation(jobs, v)
  {
    if order == [] {
      return Abort;
    }
    assert order[0] in jobs;
    var out: seq<Violation> := [];
    for i := 0 to |order|
      invariant forall v :: v in out <==> ReportedBy(jobs, order[..i], v)
    {
      var rows := JobRows(jobs, order[i]);
      assert order[..i + 1] == order[..i] + [order[i]];
      out := out + rows;
    }
    assert order[..|order|] == order;
    forall v | IsGateViolation(jobs, v) ensures Subject(v) in order {
    }
    return Report(out);
  }

  /** The job in whose turn of the loop a violation is reported. */
  function Subject(v: Violation): string {
    match v
    case Ungated(id) => id
    case ExemptPublishes(id) => id
    case StatusFunction(root, _, _) => root
    case JobContinues(root, _) => root
    case StepContinues(root, _, _) => root
    case MissingApproval(a) => a
    case UnnamedEnvironment(a) => a
    case WrongEnvironment(a) => a
    case PublishesUpstream(a, _) => a
    case PublisherOutsideApproval(id) => id
    case CapabilityOutsideApproval(id) => id
    case VerifyJobMissing => VERIFY_JOB
    case VerifyNotBeforeApproval => VERIFY_JOB
  }
}
