/** Cron runs: durable run rows, the address leases they hold, and the executor, crash, recovery and
    retention steps that move them. */
module CronRuns {
  import opened Names
  import opened Leases

  datatype Job = Job(service: string, cronName: string)

  datatype RunState = Claimed | Running | Succeeded | Failed | TimedOut | Skipped

  predicate IsActive(s: RunState) { s.Claimed? || s.Running? }

  datatype Run = Run(
    job: Job, scheduledAt: Option<nat>, claimedAt: nat, startedAt: Option<nat>, finishedAt: Option<nat>,
    state: RunState, deploymentId: Option<string>, containerName: Option<string>, address: Option<string>,
    exitCode: Option<int>, error: Option<string>)

  // ----- run rows -----

  datatype ClaimOutcome =
    | Fresh(run: Run)
    | DuplicateScheduledClaim(run: Run)
    | OverlapForbidden(activeRunId: string)
    | IdConflict

  /** A row of this job with this exact due time. */
  predicate IsScheduledAs(runs: map<string, Run>, id: string, job: Job, due: nat) {
    id in runs && runs[id].job == job && runs[id].scheduledAt == Some(due)
  }

  predicate IsActiveRun(runs: map<string, Run>, id: string, job: Job) {
    id in runs && runs[id].job == job && IsActive(runs[id].state)
  }

  predicate AlreadyScheduled(runs: map<string, Run>, job: Job, scheduledAt: Option<nat>) {
    scheduledAt.Some? && exists id :: id in runs && IsScheduledAs(runs, id, job, scheduledAt.value)
  }

  predicate Occupied(runs: map<string, Run>, job: Job) {
    exists id :: id in runs && IsActiveRun(runs, id, job)
  }

  function NewRun(job: Job, scheduledAt: Option<nat>, now: nat): Run {
    Run(job, scheduledAt, now, None, None, Claimed, None, None, None, None, None)
  }

  /** The claim adds a row exactly when the due time is not already claimed, no run of the job is active
      and the id is new. */
  predicate ClaimAdds(runs: map<string, Run>, job: Job, scheduledAt: Option<nat>, id: string) {
    !AlreadyScheduled(runs, job, scheduledAt) && !Occupied(runs, job) && id !in runs
  }

  function ClaimRow(runs: map<string, Run>, job: Job, scheduledAt: Option<nat>, id: string, now: nat)
    : map<string, Run>
  {
    if ClaimAdds(runs, job, scheduledAt, id) then runs[id := NewRun(job, scheduledAt, now)] else runs
  }

  /** Recording a start checks that the row exists, and nothing about its state. */
  function StartRow(runs: map<string, Run>, id: string, now: nat, deployment: string, container: string,
                    address: string)
    : map<string, Run>
  {
    if id !in runs then runs
    else runs[id := runs[id].(state := Running, startedAt := Some(now), deploymentId := Some(deployment),
                              containerName := Some(container), address := Some(address))]
  }

  function FinishRow(runs: map<string, Run>, id: string, state: RunState, now: nat, exitCode: Option<int>,
                     error: Option<string>)
    : map<string, Run>
  {
    if id !in runs then runs
    else runs[id := runs[id].(state := state, finishedAt := Some(now), exitCode := exitCode, error := error)]
  }

  function Skips(skipped: map<Job, nat>, job: Job): nat { if job in skipped then skipped[job] else 0 }

  class CronStore {
    var runs: map<string, Run>
    var skippedOverlaps: map<Job, nat>

    constructor ()
      ensures runs == map[] && skippedOverlaps == map[]
    {
      runs, skippedOverlaps := map[], map[];
    }

    method ClaimCronRun(job: Job, scheduledAt: Option<nat>, id: string, now: nat) returns (outcome: ClaimOutcome)
      modifies this
      ensures runs == ClaimRow(old(runs), job, scheduledAt, id, now)
      ensures outcome.DuplicateScheduledClaim? <==>
              exists k :: k in old(runs) && old(runs)[k].job == job && scheduledAt.Some?
                          && old(runs)[k].scheduledAt == scheduledAt
      ensures outcome.DuplicateScheduledClaim? ==>
                exists k :: k in old(runs) && old(runs)[k] == outcome.run && outcome.run.job == job
                            && outcome.run.scheduledAt == scheduledAt
      ensures outcome.OverlapForbidden? <==>
              && !outcome.DuplicateScheduledClaim?
              && exists k :: k in old(runs) && old(runs)[k].job == job && old(runs)[k].state in {Claimed, Running}
      ensures outcome.OverlapForbidden? ==>
                && outcome.activeRunId in old(runs) && old(runs)[outcome.activeRunId].job == job
                && old(runs)[outcome.activeRunId].state in {Claimed, Running}
      ensures outcome.IdConflict? ==> id in old(runs)
      ensures outcome.Fresh? ==>
                && id !in old(runs) && runs == old(runs)[id := outcome.run]
                && outcome.run.job == job && outcome.run.scheduledAt == scheduledAt && outcome.run.claimedAt == now
                && outcome.run.state == Claimed && outcome.run.startedAt == None && outcome.run.finishedAt == None
      ensures !outcome.Fresh? ==> runs == old(runs)
      ensures outcome.OverlapForbidden? ==>
                && job in skippedOverlaps && skippedOverlaps == old(skippedOverlaps)[job := skippedOverlaps[job]]
                && skippedOverlaps[job] == if job in old(skippedOverlaps) then old(skippedOverlaps)[job] + 1 else 1
      ensures !outcome.OverlapForbidden? ==> skippedOverlaps == old(skippedOverlaps)
    {
      if scheduledAt.Some? && AlreadyScheduled(runs, job, scheduledAt) {
        var k :| k in runs && IsScheduledAs(runs, k, job, scheduledAt.value);
        return DuplicateScheduledClaim(runs[k]);
      }
      if Occupied(runs, job) {
        var k :| k in runs && IsActiveRun(runs, k, job);
        skippedOverlaps := skippedOverlaps[job := 1 + Skips(skippedOverlaps, job)];
        return OverlapForbidden(k);
      }
      if id in runs { return IdConflict; }
      var run := NewRun(job, scheduledAt, now);
      runs := runs[id := run];
      return Fresh(run);
    }

    method StartCronRun(id: string, now: nat, deployment: string, container: string,
                        address: string) returns (known: bool)
      modifies this`runs
      ensures runs == StartRow(old(runs), id, now, deployment, container, address) && known == (id in old(runs))
      ensures runs.Keys == old(runs).Keys && forall k :: k in runs && k != id ==> runs[k] == old(runs)[k]
      ensures known ==>
                && runs[id].state == Running && runs[id].startedAt == Some(now)
                && runs[id].deploymentId == Some(deployment) && runs[id].containerName == Some(container)
                && runs[id].address == Some(address)
                && runs[id].job == old(runs)[id].job && runs[id].scheduledAt == old(runs)[id].scheduledAt
                && runs[id].claimedAt == old(runs)[id].claimedAt && runs[id].finishedAt == old(runs)[id].finishedAt
                && runs[id].exitCode == old(runs)[id].exitCode && runs[id].error == old(runs)[id].error
    {
      if id !in runs { return false; }
      var run := runs[id];
      run := run.(state := Running);
      run := run.(startedAt := Some(now));
      run := run.(deploymentId := Some(deployment));
      run := run.(containerName := Some(container));
      run := run.(address := Some(address));
      runs := runs[id := run];
      return true;
    }

    method FinishCronRun(id: string, state: RunState, now: nat, exitCode: Option<int>, error: Option<string>)
        returns (known: bool)
      modifies this`runs
      ensures runs == FinishRow(old(runs), id, state, now, exitCode, error) && known == (id in old(runs))
      ensures runs.Keys == old(runs).Keys && forall k :: k in runs && k != id ==> runs[k] == old(runs)[k]
      ensures known ==>
                && runs[id].state == state && runs[id].finishedAt == Some(now) && runs[id].exitCode == exitCode
                && runs[id].error == error
                && runs[id].job == old(runs)[id].job && runs[id].scheduledAt == old(runs)[id].scheduledAt
                && runs[id].claimedAt == old(runs)[id].claimedAt && runs[id].startedAt == old(runs)[id].startedAt
                && runs[id].deploymentId == old(runs)[id].deploymentId
                && runs[id].containerName == old(runs)[id].containerName && runs[id].address == old(runs)[id].address
    {
      if id !in runs { return false; }
      var run := runs[id];
      run := run.(state := state);
      run := run.(finishedAt := Some(now));
      run := run.(exitCode := exitCode);
      run := run.(error := error);
      runs := runs[id := run];
      return true;
    }
  }

  ghost predicate NoOverlap(runs: map<string, Run>) {
    forall a, b :: a in runs && b in runs && a != b && IsActive(runs[a].state) && IsActive(runs[b].state) ==>
      runs[a].job != runs[b].job
  }

  /** Recording a start keeps runs of a job apart if and only if the run is itself active or its job has no
      active run: the store alone does not protect a job from the start of a run that has finished. */
  lemma StartKeepsNoOverlapIff(runs: map<string, Run>, id: string, now: nat, deployment: string, container: string,
                               address: string)
    requires NoOverlap(runs) && id in runs
    ensures NoOverlap(StartRow(runs, id, now, deployment, container, address)) <==>
            IsActive(runs[id].state) || !Occupied(runs, runs[id].job)
  {
    var after := StartRow(runs, id, now, deployment, container, address);
    if !IsActive(runs[id].state) && Occupied(runs, runs[id].job) {
      var k :| k in runs && IsActiveRun(runs, k, runs[id].job);
      assert k in after && k != id && after[k].job == after[id].job;
    }
    if !Occupied(runs, runs[id].job) {
      assert forall k :: k in runs ==> !IsActiveRun(runs, k, runs[id].job);
    }
  }

  /** And the store lets it happen: a run is claimed and finished, another of the job claimed, and the start
      of the first recorded. */
  lemma LateStartOverlaps(job: Job, a: string, b: string, outcome: RunState, now: nat, address: string)
    requires a != b && !IsActive(outcome)
    ensures var one := FinishRow(ClaimRow(map[], job, None, a, now), a, outcome, now, None, None);
            var two := ClaimRow(one, job, None, b, now);
            && NoOverlap(two) && a in two && !IsActive(two[a].state)
            && !NoOverlap(StartRow(two, a, now, a, a, address))
  {
    var one := FinishRow(ClaimRow(map[], job, None, a, now), a, outcome, now, None, None);
    assert ClaimAdds(map[], job, None, a);
    assert ClaimAdds(one, job, None, b);
    var two := ClaimRow(one, job, None, b, now);
    assert IsActiveRun(two, b, job);
    StartKeepsNoOverlapIff(two, a, now, a, a, address);
  }

  // ----- the agent -----

  /** How far the background task of a run has come. Tasks live in memory and die with the agent. */
  datatype Phase =
    | Unleased
    | Starting
    | Started
    | Watching
    | Ending(outcome: RunState, exitCode: Option<int>)
    | Released(outcome: RunState, exitCode: Option<int>)

  /** `booted` is set once recovery has run; claims are accepted only from then on. */
  datatype Agent = Agent(runs: map<string, Run>, table: Table, tasks: map<string, Phase>, booted: bool)

  /** What recovery finds of a run's container. */
  datatype Observation = Missing | Exited(exitCode: Option<int>) | StillRunning

  /** How watching a container ends: it exits, it cannot be waited for, or it exceeds its time, and is then stopped
      with or without a code. */
  datatype Watched = ExitedWith(code: int) | Unobservable | Overran(stopped: Option<int>)

  function EndOf(found: Watched): Phase {
    match found
    case ExitedWith(code) => Ending(if code == 0 then Succeeded else Failed, Some(code))
    case Unobservable => Ending(Failed, None)
    case Overran(code) => Ending(TimedOut, code)
  }

  datatype Step =
    | ClaimRun(id: string, job: Job, scheduledAt: Option<nat>, now: nat)
    | GiveUp(id: string, now: nat, error: Option<string>)
    | LeaseRun(id: string, replica: string, now: nat, subnet: Cidr, reserved: set<nat>, error: Option<string>)
    | StartContainer(id: string, ok: bool)
    | RecordStart(id: string, now: nat, container: string, address: string, recorded: bool)
    | Exit(id: string, watched: Watched)
    | Release(id: string, now: nat)
    | Conclude(id: string, now: nat, error: Option<string>)
    | Crash
    | RecoverRun(id: string, found: Observation)
    | Boot
    | Retain(removed: set<string>)
    | RecoverLabels(containers: seq<Labels>, parse: string -> Option<nat>)
    | OtherLease(step: Leases.Step)

  /** The deployment a lease step may give an active lease to. */
  function Deployment(s: Leases.Step): Option<string> {
    match s
    case ClaimStep(d, _, _) => Some(d)
    case RecoverStep(d, _, _) => Some(d)
    case AllocateStep(d, _, _, _, _) => Some(d)
    case _ => None
  }

  /** The labels the executor gives a cron container, which names its run as its deployment. */
  function CronLabels(project: string, job: Job, server: string, run: string, address: string): Labels {
    map["jiji.managed" := "true", "jiji.project" := project, "jiji.service" := job.service, "jiji.server" := server,
        "jiji.resource" := "cron", "jiji.cron" := job.cronName, "jiji.cron-run" := run, "jiji.deployment" := run,
        "jiji.lease" := address]
  }

  /** A container that names a run as its deployment does not claim to be managed by the catalog. */
  predicate RunsAreUnmanaged(own: Labels, isRunId: string -> bool) {
    "jiji.deployment" in own && isRunId(own["jiji.deployment"]) ==> Label(own, "jiji.catalog-managed") != Some("true")
  }

  /** The executor's labels add to those of the image, whatever they are, and leave it to the image whether the
      container claims to be managed by the catalog. */
  lemma CronContainersAreUnmanagedIff(image: Labels, project: string, job: Job, server: string, run: string,
                                      address: string, isRunId: string -> bool)
    requires isRunId(run)
    ensures RunsAreUnmanaged(image + CronLabels(project, job, server, run, address), isRunId) <==>
            Label(image, "jiji.catalog-managed") != Some("true")
  {
    var own := image + CronLabels(project, job, server, run, address);
    assert own["jiji.deployment"] == run;
    assert "jiji.catalog-managed" !in CronLabels(project, job, server, run, address);
  }

  predicate InPhase(a: Agent, id: string, p: Phase) { id in a.tasks && a.tasks[id] == p }

  /** One step of the agent; a step that is not possible changes nothing. `isRunId` tells cron run ids
      from the deployment ids of services. */
  function Next(a: Agent, s: Step, isRunId: string -> bool): Agent {
    match s
    case ClaimRun(id, job, scheduledAt, now) =>
      if a.booted && isRunId(id) && ClaimAdds(a.runs, job, scheduledAt, id)
      then a.(runs := ClaimRow(a.runs, job, scheduledAt, id, now), tasks := a.tasks[id := Unleased])
      else a
    case GiveUp(id, now, error) =>
      if InPhase(a, id, Unleased)
      then a.(runs := FinishRow(a.runs, id, Failed, now, None, error), tasks := a.tasks - {id}) else a
    case LeaseRun(id, replica, now, subnet, reserved, error) =>
      if InPhase(a, id, Unleased) && subnet.prefix <= 32 then
        var (table, r) := Allocate(a.table, id, replica, now, subnet, reserved);
        if r.Leased? then a.(table := table, tasks := a.tasks[id := Starting])
        else a.(table := table, runs := FinishRow(a.runs, id, Failed, now, None, error), tasks := a.tasks - {id})
      else a
    case StartContainer(id, ok) =>
      if InPhase(a, id, Starting) then a.(tasks := a.tasks[id := if ok then Started else Ending(Failed, None)]) else a
    case RecordStart(id, now, container, address, recorded) =>
      if InPhase(a, id, Started)
      then a.(runs := if recorded then StartRow(a.runs, id, now, id, container, address) else a.runs,
              tasks := a.tasks[id := Watching]) else a
    case Exit(id, watched) =>
      if InPhase(a, id, Watching) then a.(tasks := a.tasks[id := EndOf(watched)]) else a
    case Release(id, now) =>
      if id in a.tasks && a.tasks[id].Ending?
      then a.(table := Quarantine(a.table, id, SaturatingAdd(now, DEFAULT_QUARANTINE_SECONDS)),
              tasks := a.tasks[id := Released(a.tasks[id].outcome, a.tasks[id].exitCode)]) else a
    case Conclude(id, now, error) =>
      if id in a.tasks && a.tasks[id].Released?
      then a.(runs := FinishRow(a.runs, id, a.tasks[id].outcome, now, a.tasks[id].exitCode, error),
              tasks := a.tasks - {id}) else a
    case Crash => a.(tasks := map[], booted := false)
    case RecoverRun(id, found) =>
      if !a.booted && id in a.runs && IsActive(a.runs[id].state) && id !in a.tasks
      then a.(tasks := a.tasks[id := match found
                                     case Missing => Ending(Failed, None)
                                     case Exited(code) => Ending(if code == Some(0) then Succeeded else Failed, code)
                                     case StillRunning => Watching])
      else a
    case Boot => a.(booted := true)
    case Retain(removed) =>
      if forall id :: id in removed ==> id in a.runs && !IsActive(a.runs[id].state)
      then a.(runs := a.runs - removed) else a
    case RecoverLabels(containers, parse) =>
      if forall own :: own in containers ==> RunsAreUnmanaged(own, isRunId)
      then a.(table := RecoverAll(a.table, DiscoverAll(containers), parse)) else a
    case OtherLease(step) =>
      if Deployment(step).Some? && isRunId(Deployment(step).value) then a else a.(table := Leases.Next(a.table, step))
  }

  function After(steps: seq<Step>, isRunId: string -> bool): Agent {
    if steps == [] then Agent(map[], Table(map[], false, {}), map[], false)
    else Next(After(steps[..|steps|-1], isRunId), steps[|steps|-1], isRunId)
  }

  // ----- the invariant -----

  predicate HoldsActiveLease(t: Table, id: string) {
    id in t.leases && t.leases[id].quarantinedUntil.None?
  }

  /** A task belongs to an active run and will end it in a terminal state. */
  ghost predicate TasksAreActive(a: Agent) {
    forall id :: id in a.tasks ==> TaskIsActive(a, id)
  }

  ghost predicate TaskIsActive(a: Agent, id: string) {
    && id in a.tasks && id in a.runs && IsActive(a.runs[id].state)
    && (a.tasks[id].Ending? || a.tasks[id].Released? ==> !IsActive(a.tasks[id].outcome))
  }

  /** A run that has no lease yet, or has released it, holds no active one. */
  ghost predicate LeaselessTasks(a: Agent) {
    forall id :: id in a.tasks && (a.tasks[id].Released? || a.tasks[id].Unleased?) ==> !HoldsActiveLease(a.table, id)
  }

  /** Only an active run holds an active lease. */
  ghost predicate LeasesAreActive(a: Agent, isRunId: string -> bool) {
    forall id :: isRunId(id) && HoldsActiveLease(a.table, id) ==> id in a.runs && IsActive(a.runs[id].state)
  }

  ghost predicate RunIds(a: Agent, isRunId: string -> bool) { forall id :: id in a.runs ==> isRunId(id) }

  ghost predicate Inv(a: Agent, isRunId: string -> bool) {
    NoOverlap(a.runs) && TasksAreActive(a) && LeaselessTasks(a) && LeasesAreActive(a, isRunId) && RunIds(a, isRunId)
  }

  /** A lease step gives an active lease only to the deployment it names. */
  lemma LeaseStepsAreLocal(t: Table, s: Leases.Step, id: string)
    requires Deployment(s) != Some(id) && HoldsActiveLease(Leases.Next(t, s), id)
    ensures HoldsActiveLease(t, id)
  {
  }

  lemma AllocationIsLocal(t: Table, d: string, replica: string, now: nat, c: Cidr, reserved: set<nat>, id: string)
    requires c.prefix <= 32
    ensures var (t', r) := Allocate(t, d, replica, now, c, reserved);
            (HoldsActiveLease(t', id) ==> HoldsActiveLease(t, id) || (id == d && r.Leased?))
  {
    AllocateIsFirstFit(t, d, replica, now, c, reserved);
  }

  /** How a run row can come to be active in one step: it was, for the same job, or it is the claim of a
      job that had no active run. */
  lemma RunsMove(a: Agent, s: Step, isRunId: string -> bool, x: string)
    requires TasksAreActive(a)
    requires x in Next(a, s, isRunId).runs && IsActive(Next(a, s, isRunId).runs[x].state)
    ensures var run := Next(a, s, isRunId).runs[x];
            || (x in a.runs && IsActive(a.runs[x].state) && a.runs[x].job == run.job)
            || (s.ClaimRun? && x == s.id && run.job == s.job && !Occupied(a.runs, s.job) && x !in a.runs)
  {
  }

  lemma NextKeepsNoOverlap(a: Agent, s: Step, isRunId: string -> bool)
    requires NoOverlap(a.runs) && TasksAreActive(a)
    ensures NoOverlap(Next(a, s, isRunId).runs)
  {
    var runs := Next(a, s, isRunId).runs;
    forall x, y | x in runs && y in runs && x != y && IsActive(runs[x].state) && IsActive(runs[y].state)
      ensures runs[x].job != runs[y].job
    {
      RunsMove(a, s, isRunId, x);
      RunsMove(a, s, isRunId, y);
      assert x in a.runs && IsActive(a.runs[x].state) ==> IsActiveRun(a.runs, x, a.runs[x].job);
      assert y in a.runs && IsActive(a.runs[y].state) ==> IsActiveRun(a.runs, y, a.runs[y].job);
    }
  }

  /** What discovery reports of such a container proves no lease of a run, although the container carries the
      run as its deployment and its address as its lease. */
  lemma CronLabelsProveNoLease(own: Labels, parse: string -> Option<nat>, isRunId: string -> bool)
    requires RunsAreUnmanaged(own, isRunId)
    ensures var proved := LabeledLease(Discovered(own), parse); proved.Some? ==> !isRunId(proved.value.0)
  {
  }

  /** The other way: a run whose image claims to be managed by the catalog, and names the replica of its lease,
      gets its released lease back from its exited container. */
  lemma ManagedImageRevivesLease(t: Table, image: Labels, project: string, job: Job, server: string, run: string,
                                 text: string, parse: string -> Option<nat>)
    requires run != "" && run in t.leases && !HoldsActiveLease(t, run)
    requires Label(image, "jiji.catalog-managed") == Some("true") && Label(image, "jiji.lease-owned") != Some("false")
    requires Label(image, "jiji.replica") == Some(t.leases[run].replicaId)
    requires text != "" && parse(text) == Some(t.leases[run].address)
    ensures var own := image + CronLabels(project, job, server, run, text);
            HoldsActiveLease(RecoverAll(t, DiscoverAll([own]), parse), run)
  {
    var own := image + CronLabels(project, job, server, run, text);
    assert DiscoverAll([own]) == [Discovered(own)];
    ManagedLabelsProveLease(image, project, job, server, run, text, parse, t.leases[run]);
    RecoveredOne(t, Discovered(own), parse, run);
  }

  lemma ManagedLabelsProveLease(image: Labels, project: string, job: Job, server: string, run: string, text: string,
                                parse: string -> Option<nat>, lease: Lease)
    requires run != "" && text != "" && parse(text) == Some(lease.address)
    requires Label(image, "jiji.catalog-managed") == Some("true") && Label(image, "jiji.lease-owned") != Some("false")
    requires Label(image, "jiji.replica") == Some(lease.replicaId)
    ensures var own := image + CronLabels(project, job, server, run, text);
            LabeledLease(Discovered(own), parse) == Some((run, Lease(lease.replicaId, lease.address, None)))
  {
    var cron := CronLabels(project, job, server, run, text);
    CronLabelKeys(project, job, server, run, text);
    SeenLabels(image, cron);
  }

  lemma CronLabelKeys(project: string, job: Job, server: string, run: string, text: string)
    ensures var cron := CronLabels(project, job, server, run, text);
            && "jiji.catalog-managed" !in cron && "jiji.lease-owned" !in cron && "jiji.replica" !in cron
            && Label(cron, "jiji.deployment") == (if run == "" then None else Some(run))
            && Label(cron, "jiji.lease") == (if text == "" then None else Some(text))
  {
  }

  /** What discovery sees of the labels recovery reads, where the upper layer has two of them. */
  lemma SeenLabels(image: Labels, cron: Labels)
    requires "jiji.catalog-managed" !in cron && "jiji.lease-owned" !in cron && "jiji.replica" !in cron
    requires "jiji.deployment" in cron && "jiji.lease" in cron
    ensures var seen := Discovered(image + cron);
            && Label(seen, "jiji.catalog-managed") == Label(image, "jiji.catalog-managed")
            && Label(seen, "jiji.lease-owned") == Label(image, "jiji.lease-owned")
            && Label(seen, "jiji.replica") == Label(image, "jiji.replica")
            && Label(seen, "jiji.deployment") == Label(cron, "jiji.deployment")
            && Label(seen, "jiji.lease") == Label(cron, "jiji.lease")
  {
  }

  lemma RecoveredOne(t: Table, seen: Labels, parse: string -> Option<nat>, run: string)
    requires run in t.leases
    requires LabeledLease(seen, parse) == Some((run, t.leases[run].(quarantinedUntil := None)))
    ensures HoldsActiveLease(RecoverAll(t, [seen], parse), run)
  {
    assert [seen][..0] == [];
    assert RecoverAll(t, [], parse) == t;
  }

  lemma {:induction false} RecoveryIsLocal(t: Table, containers: seq<Labels>, parse: string -> Option<nat>,
                                           isRunId: string -> bool, x: string)
    requires forall own :: own in containers ==> RunsAreUnmanaged(own, isRunId)
    requires isRunId(x) && HoldsActiveLease(RecoverAll(t, DiscoverAll(containers), parse), x)
    ensures HoldsActiveLease(t, x)
  {
    if containers != [] {
      var init, last := containers[..|containers|-1], containers[|containers|-1];
      assert last in containers;
      assert DiscoverAll(containers)[..|containers|-1] == DiscoverAll(init);
      CronLabelsProveNoLease(last, parse, isRunId);
      RecoveryIsLocal(t, init, parse, isRunId, x);
    }
  }

  /** Where an active lease of a run can come from in one step. */
  lemma LeasesMove(a: Agent, s: Step, isRunId: string -> bool, x: string)
    requires isRunId(x) && HoldsActiveLease(Next(a, s, isRunId).table, x)
    ensures
      var b := Next(a, s, isRunId);
      || HoldsActiveLease(a.table, x)
      || (&& s.LeaseRun? && s.id == x && InPhase(a, x, Unleased)
          && b == a.(table := b.table, tasks := a.tasks[x := Starting]))
  {
    match s
    case LeaseRun(id, replica, now, subnet, reserved, _) =>
      if InPhase(a, id, Unleased) && subnet.prefix <= 32 {
        AllocationIsLocal(a.table, id, replica, now, subnet, reserved, x);
      }
    case RecoverLabels(containers, parse) =>
      if forall own :: own in containers ==> RunsAreUnmanaged(own, isRunId) {
        RecoveryIsLocal(a.table, containers, parse, isRunId, x);
      }
    case OtherLease(step) =>
      if !(Deployment(step).Some? && isRunId(Deployment(step).value)) {
        LeaseStepsAreLocal(a.table, step, x);
      }
    case _ =>
  }

  lemma NextKeepsTasks(a: Agent, s: Step, isRunId: string -> bool)
    requires TasksAreActive(a)
    ensures TasksAreActive(Next(a, s, isRunId))
  {
    var b := Next(a, s, isRunId);
    forall id | id in b.tasks ensures TaskIsActive(b, id) {
      TaskStaysActive(a, s, isRunId, id);
    }
  }

  lemma TaskStaysActive(a: Agent, s: Step, isRunId: string -> bool, id: string)
    requires TasksAreActive(a) && id in Next(a, s, isRunId).tasks
    ensures TaskIsActive(Next(a, s, isRunId), id)
  {
    assert id in a.tasks ==> TaskIsActive(a, id);
  }

  /** Where a task without an active lease comes from: it was one already, or it is a new claim, or it has
      just released. */
  lemma LeaselessMove(a: Agent, s: Step, isRunId: string -> bool, x: string)
    requires x in Next(a, s, isRunId).tasks
    requires Next(a, s, isRunId).tasks[x].Released? || Next(a, s, isRunId).tasks[x].Unleased?
    ensures || (&& x in a.tasks && (a.tasks[x].Released? || a.tasks[x].Unleased?)
                && !(s.LeaseRun? && s.id == x && Next(a, s, isRunId) != a))
            || (s.ClaimRun? && s.id == x && x !in a.runs && Next(a, s, isRunId).table == a.table)
            || (s.Release? && s.id == x && !HoldsActiveLease(Next(a, s, isRunId).table, x))
  {
  }

  lemma NextKeepsLeaseless(a: Agent, s: Step, isRunId: string -> bool)
    requires Inv(a, isRunId)
    ensures LeaselessTasks(Next(a, s, isRunId))
  {
    var b := Next(a, s, isRunId);
    NextKeepsTasks(a, s, isRunId);
    NextKeepsRunIds(a, s, isRunId);
    forall x | x in b.tasks && (b.tasks[x].Released? || b.tasks[x].Unleased?) ensures !HoldsActiveLease(b.table, x) {
      LeaselessMove(a, s, isRunId, x);
      if HoldsActiveLease(b.table, x) { LeasesMove(a, s, isRunId, x); }
    }
  }

  lemma NextKeepsRunIds(a: Agent, s: Step, isRunId: string -> bool)
    requires RunIds(a, isRunId)
    ensures RunIds(Next(a, s, isRunId), isRunId)
  {
  }

  /** A run with an active lease stays active until the lease is released. */
  lemma LeasedRunsStay(a: Agent, s: Step, isRunId: string -> bool, x: string)
    requires TasksAreActive(a) && LeaselessTasks(a) && x in a.runs && IsActive(a.runs[x].state)
    requires HoldsActiveLease(a.table, x) || InPhase(Next(a, s, isRunId), x, Starting)
    ensures x in Next(a, s, isRunId).runs && IsActive(Next(a, s, isRunId).runs[x].state)
  {
  }

  lemma NextKeepsLeases(a: Agent, s: Step, isRunId: string -> bool)
    requires Inv(a, isRunId)
    ensures LeasesAreActive(Next(a, s, isRunId), isRunId)
  {
    var b := Next(a, s, isRunId);
    forall x | isRunId(x) && HoldsActiveLease(b.table, x) ensures x in b.runs && IsActive(b.runs[x].state) {
      LeasesMove(a, s, isRunId, x);
      LeasedRunsStay(a, s, isRunId, x);
    }
  }

  lemma NextKeepsInv(a: Agent, s: Step, isRunId: string -> bool)
    requires Inv(a, isRunId)
    ensures Inv(Next(a, s, isRunId), isRunId)
  {
    NextKeepsNoOverlap(a, s, isRunId);
    NextKeepsTasks(a, s, isRunId);
    NextKeepsLeaseless(a, s, isRunId);
    NextKeepsLeases(a, s, isRunId);
    NextKeepsRunIds(a, s, isRunId);
  }

  lemma {:induction false} EveryRunKeepsInv(steps: seq<Step>, isRunId: string -> bool)
    ensures Inv(After(steps, isRunId), isRunId)
  {
    if steps != [] {
      EveryRunKeepsInv(steps[..|steps|-1], isRunId);
      NextKeepsInv(After(steps[..|steps|-1], isRunId), steps[|steps|-1], isRunId);
    }
  }

  /** In every reachable state each job has at most one claimed or running run, and a run that is
      finished, or no longer recorded, holds no active lease. */
  lemma RunsAreExclusive(steps: seq<Step>, isRunId: string -> bool, x: string, y: string)
    ensures var a := After(steps, isRunId);
            && (x in a.runs && y in a.runs && x != y && IsActive(a.runs[x].state) && IsActive(a.runs[y].state) ==>
                  a.runs[x].job != a.runs[y].job)
            && (isRunId(x) && !(x in a.runs && IsActive(a.runs[x].state)) ==> !HoldsActiveLease(a.table, x))
  {
    EveryRunKeepsInv(steps, isRunId);
  }

  /** A finished run is never active again while its row is retained. */
  lemma {:induction false} FinishedStaysFinished(steps: seq<Step>, isRunId: string -> bool, i: nat, j: nat, id: string)
    requires i <= j <= |steps|
    requires forall k :: i <= k <= j ==> id in After(steps[..k], isRunId).runs
    requires !IsActive(After(steps[..i], isRunId).runs[id].state)
    ensures !IsActive(After(steps[..j], isRunId).runs[id].state)
  {
    if i < j {
      FinishedStaysFinished(steps, isRunId, i, j - 1, id);
      EveryRunKeepsInv(steps[..j-1], isRunId);
      assert steps[..j][..j-1] == steps[..j-1];
      assert id in After(steps[..j-1], isRunId).runs && id in After(steps[..j], isRunId).runs;
      FinishedStep(After(steps[..j-1], isRunId), steps[j-1], isRunId, id);
    }
  }

  lemma FinishedStep(a: Agent, s: Step, isRunId: string -> bool, id: string)
    requires TasksAreActive(a) && id in a.runs && !IsActive(a.runs[id].state) && id in Next(a, s, isRunId).runs
    ensures !IsActive(Next(a, s, isRunId).runs[id].state)
  {
    if IsActive(Next(a, s, isRunId).runs[id].state) { RunsMove(a, s, isRunId, id); }
  }

  // ----- what the rows say -----

  /** A result as it may be recorded: success is exit code 0, failure any other or none. */
  ghost predicate IsResult(state: RunState, exitCode: Option<int>) {
    || (state == Succeeded && exitCode == Some(0))
    || (state == Failed && exitCode != Some(0))
    || state == TimedOut
  }

  /** An active row has no result yet, any other has one and the time of it; a running one says what it runs. */
  ghost predicate RowIsTrue(id: string, run: Run) {
    if run.state in {Claimed, Running}
    then && run.exitCode == None && run.finishedAt == None
         && (run.state == Running ==> run.startedAt.Some? && run.deploymentId == Some(id))
    else IsResult(run.state, run.exitCode) && run.finishedAt.Some?
  }

  ghost predicate TaskIsTrue(phase: Phase) {
    phase.Ending? || phase.Released? ==> IsResult(phase.outcome, phase.exitCode)
  }

  ghost predicate AllTrue(a: Agent) {
    && (forall id :: id in a.runs ==> RowIsTrue(id, a.runs[id]))
    && (forall id :: id in a.tasks ==> TaskIsTrue(a.tasks[id]))
  }

  lemma NextKeepsTrue(a: Agent, s: Step, isRunId: string -> bool)
    requires TasksAreActive(a) && AllTrue(a)
    ensures AllTrue(Next(a, s, isRunId))
  {
    var b := Next(a, s, isRunId);
    forall id | id in b.tasks ensures TaskIsTrue(b.tasks[id]) {
      assert id in a.tasks ==> TaskIsTrue(a.tasks[id]);
      TaskStaysTrue(a, s, isRunId, id);
    }
    forall id | id in b.runs ensures RowIsTrue(id, b.runs[id]) {
      assert id in a.runs ==> RowIsTrue(id, a.runs[id]);
      assert id in a.tasks ==> TaskIsActive(a, id) && TaskIsTrue(a.tasks[id]);
      RowStaysTrue(a, s, isRunId, id);
    }
  }

  lemma TaskStaysTrue(a: Agent, s: Step, isRunId: string -> bool, id: string)
    requires id in Next(a, s, isRunId).tasks && (id in a.tasks ==> TaskIsTrue(a.tasks[id]))
    ensures TaskIsTrue(Next(a, s, isRunId).tasks[id])
  {
  }

  lemma RowStaysTrue(a: Agent, s: Step, isRunId: string -> bool, id: string)
    requires id in Next(a, s, isRunId).runs && (id in a.runs ==> RowIsTrue(id, a.runs[id]))
    requires id in a.tasks ==> TaskIsActive(a, id) && TaskIsTrue(a.tasks[id])
    ensures RowIsTrue(id, Next(a, s, isRunId).runs[id])
  {
  }

  /** In every reachable state a run is recorded as succeeded only with exit code 0, as failed only without it, as
      finished exactly with a time, and as running only with its start and its own id as deployment. */
  lemma {:induction false} ResultsAreTrue(steps: seq<Step>, isRunId: string -> bool)
    ensures AllTrue(After(steps, isRunId))
  {
    if steps != [] {
      ResultsAreTrue(steps[..|steps|-1], isRunId);
      EveryRunKeepsInv(steps[..|steps|-1], isRunId);
      NextKeepsTrue(After(steps[..|steps|-1], isRunId), steps[|steps|-1], isRunId);
    }
  }

  /** What a step finds out about the end of a run. */
  ghost predicate Reports(s: Step, id: string, state: RunState, exitCode: Option<int>) {
    match s
    case StartContainer(x, ok) => x == id && !ok && state == Failed && exitCode == None
    case Exit(x, ExitedWith(code)) =>
      x == id && exitCode == Some(code) && state == if code == 0 then Succeeded else Failed
    case Exit(x, Unobservable) => x == id && state == Failed && exitCode == None
    case Exit(x, Overran(code)) => x == id && state == TimedOut && exitCode == code
    case RecoverRun(x, Missing) => x == id && state == Failed && exitCode == None
    case RecoverRun(x, Exited(code)) =>
      x == id && exitCode == code && state == if code == Some(0) then Succeeded else Failed
    case _ => false
  }

  /** The run's task will conclude it with this result, its row being this. */
  ghost predicate IsEnding(a: Agent, id: string, row: Run, state: RunState, exitCode: Option<int>) {
    && id in a.runs && a.runs[id] == row
    && id in a.tasks && a.tasks[id] in {Ending(state, exitCode), Released(state, exitCode)}
  }

  ghost predicate Concludes(s: Step, id: string) { s.Conclude? && s.id == id }

  lemma TasksStayActive(steps: seq<Step>, isRunId: string -> bool)
    ensures TasksAreActive(After(steps, isRunId))
  {
    EveryRunKeepsInv(steps, isRunId);
  }

  lemma ReportIsTaken(a: Agent, s: Step, isRunId: string -> bool, id: string, state: RunState, exitCode: Option<int>)
    requires TasksAreActive(a) && Reports(s, id, state, exitCode) && Next(a, s, isRunId) != a
    ensures id in a.runs && IsEnding(Next(a, s, isRunId), id, a.runs[id], state, exitCode)
  {
    assert id in a.tasks ==> TaskIsActive(a, id);
  }

  lemma EndingStays(a: Agent, s: Step, isRunId: string -> bool, id: string, row: Run, state: RunState,
                    exitCode: Option<int>)
    requires TasksAreActive(a) && IsEnding(a, id, row, state, exitCode) && !s.Crash? && !Concludes(s, id)
    ensures IsEnding(Next(a, s, isRunId), id, row, state, exitCode)
  {
    assert TaskIsActive(a, id);
  }

  lemma EndIsTaken(a: Agent, s: Step, isRunId: string -> bool, id: string, row: Run, state: RunState,
                   exitCode: Option<int>)
    requires IsEnding(a, id, row, state, exitCode) && Concludes(s, id) && Next(a, s, isRunId) != a
    ensures var b := Next(a, s, isRunId);
            id in b.runs && IsConcluded(row, b.runs[id], state, exitCode, s.now, s.error)
  {
  }

  /** The row after the run was concluded against the row before. */
  ghost predicate IsConcluded(before: Run, after: Run, state: RunState, exitCode: Option<int>, now: nat,
                              error: Option<string>) {
    && after.state == state && after.exitCode == exitCode && after.finishedAt == Some(now) && after.error == error
    && after.job == before.job && after.scheduledAt == before.scheduledAt && after.claimedAt == before.claimedAt
    && after.startedAt == before.startedAt && after.deploymentId == before.deploymentId
    && after.containerName == before.containerName && after.address == before.address
  }

  lemma {:induction false} EndingStaysOver(steps: seq<Step>, isRunId: string -> bool, i: nat, j: nat, id: string,
                                           row: Run, state: RunState, exitCode: Option<int>)
    requires i <= j <= |steps| && IsEnding(After(steps[..i], isRunId), id, row, state, exitCode)
    requires forall k :: i <= k < j ==> !steps[k].Crash? && !Concludes(steps[k], id)
    ensures IsEnding(After(steps[..j], isRunId), id, row, state, exitCode)
    decreases j
  {
    if i < j {
      EndingStaysOver(steps, isRunId, i, j - 1, id, row, state, exitCode);
      TasksStayActive(steps[..j-1], isRunId);
      assert steps[..j][..j-1] == steps[..j-1];
      EndingStays(After(steps[..j-1], isRunId), steps[j-1], isRunId, id, row, state, exitCode);
    }
  }

  lemma ReportIsTakenAt(steps: seq<Step>, isRunId: string -> bool, i: nat, id: string, state: RunState,
                        exitCode: Option<int>)
    requires i < |steps| && Reports(steps[i], id, state, exitCode)
    requires After(steps[..i+1], isRunId) != After(steps[..i], isRunId)
    ensures id in After(steps[..i], isRunId).runs
    ensures IsEnding(After(steps[..i+1], isRunId), id, After(steps[..i], isRunId).runs[id], state, exitCode)
  {
    assert steps[..i+1][..i] == steps[..i];
    TasksStayActive(steps[..i], isRunId);
    ReportIsTaken(After(steps[..i], isRunId), steps[i], isRunId, id, state, exitCode);
  }

  lemma EndIsTakenAt(steps: seq<Step>, isRunId: string -> bool, j: nat, id: string, row: Run, state: RunState,
                     exitCode: Option<int>)
    requires j < |steps| && Concludes(steps[j], id) && IsEnding(After(steps[..j], isRunId), id, row, state, exitCode)
    requires After(steps[..j+1], isRunId) != After(steps[..j], isRunId)
    ensures var runs := After(steps[..j+1], isRunId).runs;
            id in runs && IsConcluded(row, runs[id], state, exitCode, steps[j].now, steps[j].error)
  {
    assert steps[..j+1][..j] == steps[..j];
    EndIsTaken(After(steps[..j], isRunId), steps[j], isRunId, id, row, state, exitCode);
  }

  /** In every run, whatever other runs do in between: what was found out about the end of a run, by starting,
      watching or recovering its container, is what its row says once it is concluded, unless the agent crashes
      first; and nothing else of the row changes. */
  lemma OutcomeIsRecorded(steps: seq<Step>, isRunId: string -> bool, i: nat, j: nat, id: string, state: RunState,
                          exitCode: Option<int>)
    requires i < j < |steps| && Reports(steps[i], id, state, exitCode) && Concludes(steps[j], id)
    requires After(steps[..i+1], isRunId) != After(steps[..i], isRunId)
    requires After(steps[..j+1], isRunId) != After(steps[..j], isRunId)
    requires forall k :: i < k < j ==> !steps[k].Crash? && !Concludes(steps[k], id)
    ensures var before, after := After(steps[..i], isRunId).runs, After(steps[..j+1], isRunId).runs;
            && id in before && id in after
            && IsConcluded(before[id], after[id], state, exitCode, steps[j].now, steps[j].error)
  {
    ReportIsTakenAt(steps, isRunId, i, id, state, exitCode);
    var row := After(steps[..i], isRunId).runs[id];
    EndingStaysOver(steps, isRunId, i + 1, j, id, row, state, exitCode);
    EndIsTakenAt(steps, isRunId, j, id, row, state, exitCode);
  }

  // ----- a run from its claim to its end -----

  /** No row stands in the way of a claim. */
  ghost predicate IsClaimable(runs: map<string, Run>, job: Job, scheduledAt: Option<nat>, id: string) {
    && id !in runs
    && forall k :: k in runs && runs[k].job == job ==>
         runs[k].state !in {Claimed, Running} && (scheduledAt.Some? ==> runs[k].scheduledAt != scheduledAt)
  }

  /** An address is free for the run, or it has one already. */
  ghost predicate HasRoom(t: Table, id: string, now: nat, subnet: Cidr, reserved: set<nat>) {
    && subnet.prefix <= 32
    && (IsKept(t, id, now) || exists a: nat :: IsHost(subnet, a) && !IsTaken(t, now, reserved, a))
  }

  lemma ClaimableIff(runs: map<string, Run>, job: Job, scheduledAt: Option<nat>, id: string)
    ensures ClaimAdds(runs, job, scheduledAt, id) <==> IsClaimable(runs, job, scheduledAt, id)
  {
    if scheduledAt.Some? && exists k :: k in runs && runs[k].job == job && runs[k].scheduledAt == scheduledAt {
      var k :| k in runs && runs[k].job == job && runs[k].scheduledAt == scheduledAt;
      assert IsScheduledAs(runs, k, job, scheduledAt.value);
    }
    if k :| k in runs && runs[k].job == job && runs[k].state in {Claimed, Running} {
      assert IsActiveRun(runs, k, job);
    }
  }

  lemma ClaimAndLease(a: Agent, isRunId: string -> bool, id: string, job: Job, scheduledAt: Option<nat>, claimed: nat,
                      replica: string, subnet: Cidr, reserved: set<nat>, error: Option<string>) returns (t: Table)
    requires a.booted && isRunId(id) && IsClaimable(a.runs, job, scheduledAt, id)
    requires HasRoom(a.table, id, claimed, subnet, reserved)
    ensures var b := Next(a, ClaimRun(id, job, scheduledAt, claimed), isRunId);
            && id in t.leases
            && Next(b, LeaseRun(id, replica, claimed, subnet, reserved, error), isRunId) ==
               Agent(a.runs[id := Run(job, scheduledAt, claimed, None, None, Claimed, None, None, None, None, None)], t,
                     a.tasks[id := Starting], true)
  {
    ClaimableIff(a.runs, job, scheduledAt, id);
    AllocateIsFirstFit(a.table, id, replica, claimed, subnet, reserved);
    t := Allocate(a.table, id, replica, claimed, subnet, reserved).0;
    assert a.tasks[id := Unleased][id := Starting] == a.tasks[id := Starting];
  }

  lemma StartAndWatch(a: Agent, isRunId: string -> bool, id: string, row: Run, started: nat, container: string,
                      address: string)
    requires InPhase(a, id, Starting) && id in a.runs && a.runs[id] == row
    ensures var b := Next(a, StartContainer(id, true), isRunId);
            Next(b, RecordStart(id, started, container, address, true), isRunId) ==
            a.(runs := a.runs[id := row.(state := Running, startedAt := Some(started), deploymentId := Some(id),
                                         containerName := Some(container), address := Some(address))],
               tasks := a.tasks[id := Watching])
  {
    assert a.tasks[id := Started][id := Watching] == a.tasks[id := Watching];
  }

  /** The lease is quarantined for 30 seconds, as far as the clock reaches. */
  ghost predicate IsHeldBack(t: Table, id: string, released: nat) {
    && id in t.leases && t.leases[id].quarantinedUntil.Some?
    && var until := t.leases[id].quarantinedUntil.value;
       until <= U64_MAX && (until == released + 30 || until == U64_MAX < released + 30)
  }

  lemma ReleaseAndConclude(a: Agent, isRunId: string -> bool, id: string, row: Run, state: RunState,
                           exitCode: Option<int>, released: nat, finished: nat, error: Option<string>)
    requires InPhase(a, id, Ending(state, exitCode)) && id in a.runs && a.runs[id] == row && id in a.table.leases
    ensures var b := Next(a, Release(id, released), isRunId);
            var c := Next(b, Conclude(id, finished, error), isRunId);
            && c.runs == a.runs[id := row.(state := state, finishedAt := Some(finished), exitCode := exitCode,
                                           error := error)]
            && id !in c.tasks && IsHeldBack(c.table, id, released)
  {
  }

  /** From every state of a booted agent: a claimable run for which there is an address, whose container starts, is
      recorded and is then watched to its end, leaves exactly one new row, which says all of this, and its address
      held back from the release on. */
  lemma RunCompletes(a: Agent, isRunId: string -> bool, id: string, job: Job, scheduledAt: Option<nat>, claimed: nat,
                     replica: string, subnet: Cidr, reserved: set<nat>, started: nat, container: string,
                     address: string, watched: Watched, released: nat, finished: nat, error: Option<string>,
                     state: RunState, exitCode: Option<int>)
    requires a.booted && isRunId(id) && IsClaimable(a.runs, job, scheduledAt, id)
    requires HasRoom(a.table, id, claimed, subnet, reserved) && Reports(Exit(id, watched), id, state, exitCode)
    ensures var b := Next(a, ClaimRun(id, job, scheduledAt, claimed), isRunId);
            var c := Next(b, LeaseRun(id, replica, claimed, subnet, reserved, error), isRunId);
            var d := Next(c, StartContainer(id, true), isRunId);
            var e := Next(d, RecordStart(id, started, container, address, true), isRunId);
            var f := Next(e, Exit(id, watched), isRunId);
            var g := Next(f, Release(id, released), isRunId);
            var h := Next(g, Conclude(id, finished, error), isRunId);
            && h.runs == a.runs[id := Run(job, scheduledAt, claimed, Some(started), Some(finished), state, Some(id),
                                          Some(container), Some(address), exitCode, error)]
            && id !in h.tasks && IsHeldBack(h.table, id, released)
  {
    var t := ClaimAndLease(a, isRunId, id, job, scheduledAt, claimed, replica, subnet, reserved, error);
    var row := Run(job, scheduledAt, claimed, None, None, Claimed, None, None, None, None, None);
    var c := Agent(a.runs[id := row], t, a.tasks[id := Starting], true);
    StartAndWatch(c, isRunId, id, row, started, container, address);
    var running := row.(state := Running, startedAt := Some(started), deploymentId := Some(id),
                        containerName := Some(container), address := Some(address));
    var e := c.(runs := c.runs[id := running], tasks := c.tasks[id := Watching]);
    var f := e.(tasks := e.tasks[id := Ending(state, exitCode)]);
    assert Next(e, Exit(id, watched), isRunId) == f;
    ReleaseAndConclude(f, isRunId, id, running, state, exitCode, released, finished, error);
    assert a.runs[id := row][id := running] == a.runs[id := running];
  }

  /** From every state in which a run is active and leased: if the agent crashes and finds its container gone or
      exited, the run is concluded accordingly and its address held back. */
  lemma CrashedRunCompletes(a: Agent, isRunId: string -> bool, id: string, found: Observation, released: nat,
                            finished: nat, error: Option<string>, state: RunState, exitCode: Option<int>)
    requires id in a.runs && a.runs[id].state in {Claimed, Running} && id in a.table.leases
    requires Reports(RecoverRun(id, found), id, state, exitCode)
    ensures var b := Next(a, Crash, isRunId);
            var c := Next(b, RecoverRun(id, found), isRunId);
            var d := Next(c, Release(id, released), isRunId);
            var e := Next(d, Conclude(id, finished, error), isRunId);
            && e.runs == a.runs[id := a.runs[id].(state := state, finishedAt := Some(finished), exitCode := exitCode,
                                                  error := error)]
            && id !in e.tasks && IsHeldBack(e.table, id, released)
  {
    var c := a.(tasks := map[id := Ending(state, exitCode)], booted := false);
    assert Next(Next(a, Crash, isRunId), RecoverRun(id, found), isRunId) == c;
    ReleaseAndConclude(c, isRunId, id, a.runs[id], state, exitCode, released, finished, error);
  }

  /** A run that is still running is watched again after a crash, and the agent takes new claims once it has booted. */
  lemma CrashedRunIsWatched(a: Agent, isRunId: string -> bool, id: string)
    requires id in a.runs && a.runs[id].state in {Claimed, Running}
    ensures var b := Next(a, Crash, isRunId);
            var c := Next(b, RecoverRun(id, StillRunning), isRunId);
            var d := Next(c, Boot, isRunId);
            !b.booted && !c.booted && d.booted && InPhase(d, id, Watching) && d.runs == a.runs && d.table == a.table
  {
  }

  /** From a crash until the agent has booted again no run is claimed, whatever else happens. */
  lemma {:induction false} NoClaimBeforeBoot(steps: seq<Step>, isRunId: string -> bool, i: nat, j: nat, id: string)
    requires i < j <= |steps| && steps[i].Crash? && forall k :: i < k < j ==> !steps[k].Boot?
    ensures !After(steps[..j], isRunId).booted
    ensures id in After(steps[..j], isRunId).runs ==> id in After(steps[..i], isRunId).runs
  {
    assert steps[..j][..j-1] == steps[..j-1];
    if i + 1 < j {
      NoClaimBeforeBoot(steps, isRunId, i, j - 1, id);
      UnbootedStep(After(steps[..j-1], isRunId), steps[j-1], isRunId, id);
    }
  }

  lemma UnbootedStep(a: Agent, s: Step, isRunId: string -> bool, id: string)
    requires !a.booted && !s.Boot?
    ensures !Next(a, s, isRunId).booted && (id in Next(a, s, isRunId).runs ==> id in a.runs)
  {
  }

  /** A run that gets no address, or is given up before, fails at once. */
  lemma UnleasedRunFails(a: Agent, isRunId: string -> bool, id: string, replica: string, now: nat, subnet: Cidr,
                         reserved: set<nat>, error: Option<string>)
    requires InPhase(a, id, Unleased) && id in a.runs && subnet.prefix <= 32
    ensures var failed := a.runs[id := a.runs[id].(state := Failed, finishedAt := Some(now), exitCode := None,
                                                   error := error)];
            var b := Next(a, LeaseRun(id, replica, now, subnet, reserved, error), isRunId);
            var c := Next(a, GiveUp(id, now, error), isRunId);
            && c.runs == failed && id !in c.tasks && c.table == a.table
            && (!HasRoom(a.table, id, now, subnet, reserved) ==> b.runs == failed && id !in b.tasks)
  {
    AllocateIsFirstFit(a.table, id, replica, now, subnet, reserved);
  }

  /** Retention takes exactly the rows it names, and only finished ones. */
  lemma RetentionIsOfFinished(a: Agent, isRunId: string -> bool, removed: set<string>)
    ensures var b := Next(a, Retain(removed), isRunId);
            && (b.runs == a.runs || b.runs == a.runs - removed)
            && (b.runs != a.runs ==>
                  forall id :: id in removed ==> id in a.runs && a.runs[id].state !in {Claimed, Running})
            && ((forall id :: id in removed ==> id in a.runs && a.runs[id].state !in {Claimed, Running}) ==>
                  forall id :: id in b.runs <==> id in a.runs && id !in removed)
  {
  }

  lemma ProofIsReported(containers: seq<Labels>, parse: string -> Option<nat>, i: nat, d: string, lease: Lease)
    requires i < |containers| && Proves(containers[i], parse, d, lease)
    ensures exists labels :: labels in DiscoverAll(containers) && LabeledLease(labels, parse) == Some((d, lease))
    ensures lease.quarantinedUntil == None
  {
    ProvesIff(containers[i], parse, d, lease);
    assert DiscoverAll(containers)[i] in DiscoverAll(containers);
  }

  lemma RecoverLabelsStep(a: Agent, isRunId: string -> bool, containers: seq<Labels>, parse: string -> Option<nat>,
                          t: Table)
    requires forall own :: own in containers ==> RunsAreUnmanaged(own, isRunId)
    requires t == RecoverAll(a.table, DiscoverAll(containers), parse)
    ensures Next(a, RecoverLabels(containers, parse), isRunId) == a.(table := t)
  {
  }

  /** A container of a service that proves the lease its deployment had makes it active again. */
  lemma LabelsRevive(a: Agent, isRunId: string -> bool, containers: seq<Labels>, parse: string -> Option<nat>, i: nat,
                     d: string, lease: Lease)
    requires i < |containers| && Proves(containers[i], parse, d, lease)
    requires forall own :: own in containers ==> RunsAreUnmanaged(own, isRunId)
    requires d in a.table.leases && a.table.leases[d].replicaId == lease.replicaId
    requires a.table.leases[d].address == lease.address
    ensures var b := Next(a, RecoverLabels(containers, parse), isRunId);
            d in b.table.leases && b.table.leases[d] == lease && b.runs == a.runs && b.tasks == a.tasks
  {
    var t := RecoverAll(a.table, DiscoverAll(containers), parse);
    ProofIsReported(containers, parse, i, d, lease);
    RecoveryRevives(a.table, DiscoverAll(containers), parse, d, lease);
    RecoverLabelsStep(a, isRunId, containers, parse, t);
  }

  function ServiceSteps(steps: seq<Leases.Step>): seq<Step> {
    seq(|steps|, i requires 0 <= i < |steps| => OtherLease(steps[i]))
  }

  /** While only services lease, the agent's lease table is that of the same steps on their own. */
  lemma {:induction false} ServicesLeaseAsBefore(steps: seq<Leases.Step>, isRunId: string -> bool)
    requires forall s :: s in steps ==> Deployment(s).None? || !isRunId(Deployment(s).value)
    ensures After(ServiceSteps(steps), isRunId).table == Leases.After(steps)
  {
    if steps != [] {
      ServicesLeaseAsBefore(steps[..|steps|-1], isRunId);
      assert ServiceSteps(steps)[..|steps|-1] == ServiceSteps(steps[..|steps|-1]);
      assert steps[|steps|-1] in steps;
    }
  }
}
