/**
 The graph verdicts of `check_main` put together, and what an empty report promises about
 every run of the workflow.
 */
module ReleaseCheck {
  import opened ReleaseGate
  import opened Approvals
  import opened Runner

  /** No job outside the exempt set has started while the release flag is off. */
  ghost predicate FlagHeld(jobs: Jobs, env: Env, run: seq<Event>) {
    !env.flagOn ==> forall id :: id !in UNGATED_JOBS ==> !StartedIn(jobs, run, id)
  }

  /** The job can write to the outside: it publishes, or holds a capability outside the exempt set. */
  predicate CanWrite(jobs: Jobs, id: string) {
    id in jobs && (jobs[id].publishes || (jobs[id].capability && id !in UNGATED_JOBS))
  }

  /** Every such job that has started was approved by a person, and, unless it is the kernel
      approval job, let through by its own approval job. */
  ghost predicate ApprovalHeld(jobs: Jobs, run: seq<Event>) {
    forall id :: CanWrite(jobs, id) && StartedIn(jobs, run, id) ==>
      After(jobs, run).approved && (id != APPROVAL_JOB ==> PassedIn(jobs, run, ApprovalForJob(id)))
  }

  /** The kernel approval job publishes nothing, and starts only after the verify build passed. */
  ghost predicate KernelApprovalHeld(jobs: Jobs, run: seq<Event>) {
    && (APPROVAL_JOB in jobs && StartedIn(jobs, run, APPROVAL_JOB) ==> !jobs[APPROVAL_JOB].publishes)
    && (StartedIn(jobs, run, APPROVAL_JOB) ==> PassedIn(jobs, run, VERIFY_JOB))
  }

  ghost predicate RunIsSafe(jobs: Jobs, env: Env, run: seq<Event>) {
    FlagHeld(jobs, env, run) && ApprovalHeld(jobs, run) && KernelApprovalHeld(jobs, run)
  }

  ghost predicate AllClean(jobs: Jobs) {
    GatesClean(jobs) && BoundaryClean(jobs) && CapabilitiesClean(jobs) && VerifyRows(jobs) == []
  }

  /** A clean static verdict makes every state of every run safe. */
  lemma CleanRunsAreSafe(jobs: Jobs, env: Env, run: seq<Event>)
    requires AllClean(jobs) && IsRun(jobs, env, run)
    ensures RunIsSafe(jobs, env, run)
  {
    if !env.flagOn {
      forall id | id !in UNGATED_JOBS ensures !StartedIn(jobs, run, id) {
        NothingStartsWithTheFlagOff(jobs, env, run, id);
      }
    }
    forall id | CanWrite(jobs, id) && StartedIn(jobs, run, id)
      ensures After(jobs, run).approved && (id != APPROVAL_JOB ==> PassedIn(jobs, run, ApprovalForJob(id)))
    {
      if jobs[id].publishes {
        ApprovalBeforePublish(jobs, env, run, id);
      } else {
        ApprovalBeforeCapability(jobs, env, run, id);
      }
    }
    if StartedIn(jobs, run, APPROVAL_JOB) {
      VerifyBeforeApproval(jobs, env, run);
      if APPROVAL_JOB in jobs && jobs[APPROVAL_JOB].publishes {
        ApprovalBeforePublish(jobs, env, run, APPROVAL_JOB);
        assert false;
      }
    }
  }

  /** The four graph checks of `check_main` on the release workflow, in its order. */
  method CheckRelease(order: seq<string>, jobs: Jobs) returns (r: Outcome)
    requires Enumerates(order, jobs)
    ensures r.Abort? <==> jobs == map[]
    ensures r.Report? ==> (r.rows == [] <==> AllClean(jobs))
    ensures r == Report([]) ==> forall env, run :: IsRun(jobs, env, run) ==> RunIsSafe(jobs, env, run)
  {
    r := CheckGates(order, jobs);
    if r.Abort? {
      return;
    }
    var boundary := CheckBoundary(order, jobs);
    var capabilities := CheckCapabilities(order, jobs);
    var verify := VerifyRows(jobs);
    EmptyMeansClean(jobs, r.rows, boundary, capabilities);
    r := Report(r.rows + boundary + capabilities + verify);
    if AllClean(jobs) {
      forall env, run | IsRun(jobs, env, run) ensures RunIsSafe(jobs, env, run) {
        CleanRunsAreSafe(jobs, env, run);
      }
    }
  }

  lemma EmptyMeansClean(jobs: Jobs, gates: seq<Violation>, boundary: seq<Violation>, capabilities: seq<Violation>)
    requires forall v :: v in gates <==> IsGateViolation(jobs, v)
    requires APPROVAL_JOB !in jobs ==> boundary == [MissingApproval(APPROVAL_JOB)]
    requires APPROVAL_JOB in jobs ==> forall v :: v in boundary <==> IsBoundaryViolation(jobs, v)
    requires forall v :: v in capabilities <==> IsCapabilityViolation(jobs, v)
    ensures gates == [] <==> GatesClean(jobs)
    ensures boundary == [] <==> BoundaryClean(jobs)
    ensures capabilities == [] <==> CapabilitiesClean(jobs)
  {
    if gates != [] {
      assert gates[0] in gates;
    }
    if boundary != [] {
      assert boundary[0] in boundary;
    }
    if capabilities != [] {
      assert capabilities[0] in capabilities;
    }
  }
}
