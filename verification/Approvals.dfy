/**
 The approval boundary of the release guard: every publisher (V8) and every holder of a
 write capability (V14) sits behind its own chain's approval job, and the verify build
 (V20) sits in front of the kernel's.
 */
module Approvals {
  import opened Graphs
  import opened JobFields
  import opened ReleaseGate

  /** The kernel's approval, or the approval of some job there is. */
  ghost predicate IsRequired(jobs: Jobs, a: string) {
    a == APPROVAL_JOB || exists id :: id in jobs && ApprovalForJob(id) == a
  }

  /** The approval jobs this file needs. */
  function Required(jobs: Jobs): (r: set<string>)
    ensures forall a :: a in r <==> IsRequired(jobs, a)
  {
    {APPROVAL_JOB} + set id | id in jobs :: ApprovalForJob(id)
  }

  /** What V8a, V8b and V8c must report once the kernel's approval job exists. */
  ghost predicate IsBoundaryViolation(jobs: Jobs, v: Violation) {
    match v
    case MissingApproval(a) => IsRequired(jobs, a) && a !in jobs
    case UnnamedEnvironment(a) => IsRequired(jobs, a) && a in jobs && jobs[a].environment.None?
    case WrongEnvironment(a) =>
      IsRequired(jobs, a) && a in jobs && jobs[a].environment.Some?
      && jobs[a].environment.value != APPROVAL_ENVIRONMENT
    case PublishesUpstream(a, id) =>
      IsRequired(jobs, a) && a in jobs && id in GatedPathJobs(a, jobs, {})
      && id in jobs && jobs[id].publishes
    case PublisherOutsideApproval(id) =>
      id in jobs && jobs[id].publishes && ApprovalForJob(id) !in GatedPathJobs(id, jobs, {})
    case _ => false
  }

  ghost predicate IsCapabilityViolation(jobs: Jobs, v: Violation) {
    v.CapabilityOutsideApproval? && v.id in jobs && v.id !in UNGATED_JOBS && jobs[v.id].capability
    && ApprovalForJob(v.id) !in GatedPathJobs(v.id, jobs, {})
  }

  method EnvironmentRows(jobs: Jobs) returns (out: seq<Violation>)
    ensures forall v :: v in out <==>
              (v.MissingApproval? || v.UnnamedEnvironment? || v.WrongEnvironment?)
              && IsBoundaryViolation(jobs, v)
  {
    out := [];
    var todo := Required(jobs);
    while todo != {}
      invariant todo <= Required(jobs)
      invariant forall v :: v in out <==>
                  (v.MissingApproval? || v.UnnamedEnvironment? || v.WrongEnvironment?)
                  && IsBoundaryViolation(jobs, v) && v.approval !in todo
      decreases todo
    {
      var a :| a in todo;
      if a !in jobs {
        out := out + [MissingApproval(a)];
      } else if jobs[a].environment.None? {
        out := out + [UnnamedEnvironment(a)];
      } else if jobs[a].environment.value != APPROVAL_ENVIRONMENT {
        out := out + [WrongEnvironment(a)];
      }
      todo := todo - {a};
    }
  }

  method UpstreamRowsOf(jobs: Jobs, a: string) returns (out: seq<Violation>)
    ensures forall v :: v in out <==>
              v.PublishesUpstream? && v.approval == a && v.id in GatedPathJobs(a, jobs, {})
              && v.id in jobs && jobs[v.id].publishes
  {
    out := [];
    var todo := GatedPathJobs(a, jobs, {});
    while todo != {}
      invariant todo <= GatedPathJobs(a, jobs, {})
      invariant forall v :: v in out <==>
                  v.PublishesUpstream? && v.approval == a && v.id in GatedPathJobs(a, jobs, {})
                  && v.id in jobs && jobs[v.id].publishes && v.id !in todo
      decreases todo
    {
      var id :| id in todo;
      if id in jobs && jobs[id].publishes {
        out := out + [PublishesUpstream(a, id)];
      }
      todo := todo - {id};
    }
  }

  method UpstreamRows(jobs: Jobs) returns (out: seq<Violation>)
    ensures forall v :: v in out <==> v.PublishesUpstream? && IsBoundaryViolation(jobs, v)
  {
    out := [];
    var todo := Required(jobs);
    while todo != {}
      invariant todo <= Required(jobs)
      invariant forall v :: v in out <==>
                  v.PublishesUpstream? && IsBoundaryViolation(jobs, v) && v.approval !in todo
      decreases todo
    {
      var a :| a in todo;
      if a in jobs {
        var rows := UpstreamRowsOf(jobs, a);
        out := out + rows;
      }
      todo := todo - {a};
    }
  }

  method PublisherRows(order: seq<string>, jobs: Jobs) returns (out: seq<Violation>)
    requires Enumerates(order, jobs)
    ensures forall v :: v in out <==> v.PublisherOutsideApproval? && IsBoundaryViolation(jobs, v)
  {
    out := [];
    for i := 0 to |order|
      invariant forall v :: v in out <==>
                  v.PublisherOutsideApproval? && IsBoundaryViolation(jobs, v) && v.id in order[..i]
    {
      var id := order[i];
      assert order[..i + 1] == order[..i] + [id];
      if jobs[id].publishes && ApprovalForJob(id) !in GatedPathJobs(id, jobs, {}) {
        out := out + [PublisherOutsideApproval(id)];
      }
    }
    assert order[..|order|] == order;
  }

  /** `approval_boundary_violations`: without the kernel approval job, that one row and
      nothing else; with it, exactly the V8a, V8b and V8c violations. */
  method CheckBoundary(order: seq<string>, jobs: Jobs) returns (out: seq<Violation>)
    requires Enumerates(order, jobs)
    ensures APPROVAL_JOB !in jobs ==> out == [MissingApproval(APPROVAL_JOB)]
    ensures APPROVAL_JOB in jobs ==> forall v :: v in out <==> IsBoundaryViolation(jobs, v)
  {
    if APPROVAL_JOB !in jobs {
      return [MissingApproval(APPROVAL_JOB)];
    }
    var env := EnvironmentRows(jobs);
    var upstream := UpstreamRows(jobs);
    var outside := PublisherRows(order, jobs);
    out := env + upstream + outside;
  }

  /** `capability_violations`: exactly the V14 violations. */
  method CheckCapabilities(order: seq<string>, jobs: Jobs) returns (out: seq<Violation>)
    requires Enumerates(order, jobs)
    ensures forall v :: v in out <==> IsCapabilityViolation(jobs, v)
  {
    out := [];
    for i := 0 to |order|
      invariant forall v :: v in out <==> IsCapabilityViolation(jobs, v) && v.id in order[..i]
    {
      var id := order[i];
      assert order[..i + 1] == order[..i] + [id];
      if id !in UNGATED_JOBS && jobs[id].capability
         && ApprovalForJob(id) !in GatedPathJobs(id, jobs, {}) {
        out := out + [CapabilityOutsideApproval(id)];
      }
    }
    assert order[..|order|] == order;
  }

  /** The two graph rules of `verify_job_violations`. */
  function VerifyRows(jobs: Jobs): seq<Violation> {
    if VERIFY_JOB !in jobs then [VerifyJobMissing]
    else if VERIFY_JOB !in GatedPathJobs(APPROVAL_JOB, jobs, {}) then [VerifyNotBeforeApproval]
    else []
  }

  /** V20's two rows are absent exactly when the verify job is on the kernel approval's path. */
  lemma VerifyRowsAreExact(jobs: Jobs)
    ensures VerifyRows(jobs) == [] <==> VERIFY_JOB in jobs && Reaches(NeedsGraph(jobs), APPROVAL_JOB, VERIFY_JOB)
  {
    PathJobsAreReachableJobs(APPROVAL_JOB, jobs, VERIFY_JOB);
  }

  // ----- A clean report -----

  ghost predicate GatesClean(jobs: Jobs) {
    forall v :: !IsGateViolation(jobs, v)
  }

  ghost predicate BoundaryClean(jobs: Jobs) {
    APPROVAL_JOB in jobs && forall v :: !IsBoundaryViolation(jobs, v)
  }

  ghost predicate CapabilitiesClean(jobs: Jobs) {
    forall v :: !IsCapabilityViolation(jobs, v)
  }

  /** The jobs that V3 and V4 look at: those on the path of some non-exempt job. */
  ghost predicate OnGatedPath(jobs: Jobs, id: string) {
    exists root :: root in jobs && root !in UNGATED_JOBS && id in GatedPathJobs(root, jobs, {})
  }

  lemma OnGatedPathSelf(jobs: Jobs, id: string)
    requires id in jobs && id !in UNGATED_JOBS
    ensures OnGatedPath(jobs, id)
  {
    assert id in GatedPathJobs(id, jobs, {});
  }

  lemma OnGatedPathNeed(jobs: Jobs, id: string, d: string)
    requires OnGatedPath(jobs, id) && id in jobs && IsNeed(jobs[id], d) && d in jobs
    ensures OnGatedPath(jobs, d)
  {
    var root :| root in jobs && root !in UNGATED_JOBS && id in GatedPathJobs(root, jobs, {});
    var g := NeedsGraph(jobs);
    PathJobsAreReachableJobs(root, jobs, id);
    ReachesEdge(g, id, d);
    ReachesTransitive(g, root, id, d);
    PathJobsAreReachableJobs(root, jobs, d);
  }

  /** What a clean report says of every job on a gated path. */
  lemma CleanPath(jobs: Jobs, id: string)
    requires GatesClean(jobs) && OnGatedPath(jobs, id) && id in jobs
    ensures forall fn :: fn in STATUS_FUNCS ==> !SpellsCall(jobs[id], fn)
    ensures !LetsFailureThrough(jobs[id].onError)
    ensures forall k :: 0 <= k < |jobs[id].stepsOnError| ==> !LetsFailureThrough(jobs[id].stepsOnError[k])
  {
    var root :| root in jobs && root !in UNGATED_JOBS && id in GatedPathJobs(root, jobs, {});
    assert !IsGateViolation(jobs, Ungated(root));
    forall fn | fn in STATUS_FUNCS
      ensures !SpellsCall(jobs[id], fn)
    {
      assert !IsGateViolation(jobs, StatusFunction(root, id, fn));
    }
    assert !IsGateViolation(jobs, JobContinues(root, id));
    forall k | 0 <= k < |jobs[id].stepsOnError|
      ensures !LetsFailureThrough(jobs[id].stepsOnError[k])
    {
      assert !IsGateViolation(jobs, StepContinues(root, id, k));
    }
  }

  // ----- Which approval owns a job -----

  /** Every chain job is owned by its own chain's approval, although one service name can
      be a prefix of another; every other job by the kernel's. */
  lemma EachChainOwnsItsJobs(c: nat, p: nat)
    requires c < |CHAINS| && p < |CHAIN_JOB_PREFIXES|
    ensures ApprovalForJob(CHAIN_JOB_PREFIXES[p] + CHAINS[c].service) == CHAINS[c].approval
  {
    var id := CHAIN_JOB_PREFIXES[p] + CHAINS[c].service;
    assert OwnsJob(CHAINS[c].service, id);
    forall k | 0 <= k < c
      ensures !OwnsJob(CHAINS[k].service, id)
    {
      forall q | 0 <= q < |CHAIN_JOB_PREFIXES|
        ensures id != CHAIN_JOB_PREFIXES[q] + CHAINS[k].service
      {
        DifferentIds(c, p, k, q);
      }
    }
    FirstOwner(CHAINS, c, id);
  }

  lemma DifferentIds(c: nat, p: nat, k: nat, q: nat)
    requires c < |CHAINS| && p < |CHAIN_JOB_PREFIXES| && k < c && q < |CHAIN_JOB_PREFIXES|
    ensures CHAIN_JOB_PREFIXES[p] + CHAINS[c].service != CHAIN_JOB_PREFIXES[q] + CHAINS[k].service
  {
    var a := CHAIN_JOB_PREFIXES[p] + CHAINS[c].service;
    var b := CHAIN_JOB_PREFIXES[q] + CHAINS[k].service;
    if p != q {
      assert a[0] == CHAIN_JOB_PREFIXES[p][0] != CHAIN_JOB_PREFIXES[q][0] == b[0];
    } else {
      assert |CHAINS[c].service| != |CHAINS[k].service|;
      assert |a| != |b|;
    }
  }

  lemma {:induction false} FirstOwner(chains: seq<Chain>, c: nat, id: string)
    requires c < |chains| && OwnsJob(chains[c].service, id)
    requires forall k :: 0 <= k < c ==> !OwnsJob(chains[k].service, id)
    ensures ApprovalIn(chains, id) == chains[c].approval
  {
    if c > 0 {
      FirstOwner(chains[1..], c - 1, id);
    }
  }

  lemma {:induction false} NoOwner(chains: seq<Chain>, id: string)
    requires forall k :: 0 <= k < |chains| ==> !OwnsJob(chains[k].service, id)
    ensures ApprovalIn(chains, id) == APPROVAL_JOB
  {
    if chains != [] {
      NoOwner(chains[1..], id);
    }
  }

  /** The job is called after its chain. */
  ghost predicate IsChainJob(c: int, id: string) {
    0 <= c < |CHAINS| && exists p :: 0 <= p < |CHAIN_JOB_PREFIXES| && id == CHAIN_JOB_PREFIXES[p] + CHAINS[c].service
  }

  /** A chain's approval owns exactly the jobs called after the chain; all others are the kernel's. */
  lemma ApprovalIsExact(id: string)
    ensures forall c :: IsChainJob(c, id) ==> ApprovalForJob(id) == CHAINS[c].approval
    ensures (forall c :: !IsChainJob(c, id)) ==> ApprovalForJob(id) == APPROVAL_JOB
  {
    forall c | IsChainJob(c, id) ensures ApprovalForJob(id) == CHAINS[c].approval {
      var p :| 0 <= p < |CHAIN_JOB_PREFIXES| && id == CHAIN_JOB_PREFIXES[p] + CHAINS[c].service;
      EachChainOwnsItsJobs(c, p);
    }
    if forall c :: !IsChainJob(c, id) {
      forall k | 0 <= k < |CHAINS| ensures !OwnsJob(CHAINS[k].service, id) {
        assert !IsChainJob(k, id);
      }
      NoOwner(CHAINS, id);
    }
  }

  lemma {:induction false} ApprovalIsListed(chains: seq<Chain>, id: string)
    ensures ApprovalIn(chains, id) == APPROVAL_JOB
            || exists c :: 0 <= c < |chains| && ApprovalIn(chains, id) == chains[c].approval
  {
    if chains != [] && !OwnsJob(chains[0].service, id) {
      ApprovalIsListed(chains[1..], id);
      if ApprovalIn(chains, id) != APPROVAL_JOB {
        var c :| 0 <= c < |chains[1..]| && ApprovalIn(chains, id) == chains[1..][c].approval;
        assert chains[c + 1].approval == ApprovalIn(chains, id);
      }
    }
  }

  /** Only the kernel's approval job answers for itself. */
  lemma OnlyKernelApprovalOwnsItself(id: string)
    ensures ApprovalForJob(id) == id <==> id == APPROVAL_JOB
  {
    forall c, q | 0 <= c < |CHAINS| && 0 <= q < |CHAIN_JOB_PREFIXES|
      ensures APPROVAL_JOB != CHAIN_JOB_PREFIXES[q] + CHAINS[c].service
    {
      assert (CHAIN_JOB_PREFIXES[q] + CHAINS[c].service)[0] == CHAIN_JOB_PREFIXES[q][0] != APPROVAL_JOB[0];
    }
    NoOwner(CHAINS, APPROVAL_JOB);
    if ApprovalForJob(id) == id && id != APPROVAL_JOB {
      ApprovalIsListed(CHAINS, id);
      var c :| 0 <= c < |CHAINS| && id == CHAINS[c].approval;
      forall k, q | 0 <= k < |CHAINS| && 0 <= q < |CHAIN_JOB_PREFIXES|
        ensures id != CHAIN_JOB_PREFIXES[q] + CHAINS[k].service
      {
        assert (CHAIN_JOB_PREFIXES[q] + CHAINS[k].service)[0] == CHAIN_JOB_PREFIXES[q][0] != id[0];
      }
      NoOwner(CHAINS, id);
      assert false;
    }
  }
}
