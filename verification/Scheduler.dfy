/** The cron scheduler: evaluating installed jobs against a clock, catching up after missed times, and
    surviving a crash between claiming a due run and saving the next due time. */
module Scheduler {
  import opened Names
  import opened CronRuns

  /** `next(t)` is the least occurrence strictly after `t` of an arbitrary unbounded set of times. */
  ghost predicate IsSchedule(occurs: nat -> bool, next: nat -> nat) {
    forall t :: next(t) > t && occurs(next(t)) && forall o: nat :: occurs(o) && o > t ==> next(t) <= o
  }

  /** An installed job; its schedule stands for the expression and time zone. */
  datatype Spec = Spec(job: Job, next: nat -> nat)

  datatype State = State(runs: map<string, Run>, nextDue: map<Job, nat>)

  /** The due time saved after a due run was evaluated: the natural next occurrence if it is still
      ahead, otherwise the next one after now. */
  function CatchUp(next: nat -> nat, due: nat, now: nat): nat {
    if next(due) > now then next(due) else next(now)
  }

  /** Both branches save exactly the first occurrence after now: missed times are skipped, none that is
      still ahead is. */
  lemma CatchUpIsFirstAfterNow(occurs: nat -> bool, next: nat -> nat, due: nat, now: nat)
    requires IsSchedule(occurs, next) && due <= now
    ensures CatchUp(next, due, now) == next(now)
    ensures occurs(CatchUp(next, due, now)) && CatchUp(next, due, now) > now
    ensures forall o: nat :: occurs(o) && o > now ==> CatchUp(next, due, now) <= o
  {
    assert occurs(next(due)) && occurs(next(now));
  }

  /** One job's share of a tick. `runId` is the id derived from the job and the due time. */
  function TickJob(s: State, spec: Spec, now: nat, runId: (Job, nat) -> string): State {
    if spec.job !in s.nextDue then s.(nextDue := s.nextDue[spec.job := spec.next(now)])
    else
      var due := s.nextDue[spec.job];
      if due > now then s
      else State(ClaimRow(s.runs, spec.job, Some(due), runId(spec.job, due), now),
                 s.nextDue[spec.job := CatchUp(spec.next, due, now)])
  }

  function Tick(s: State, specs: seq<Spec>, now: nat, runId: (Job, nat) -> string): State {
    if specs == [] then s else TickJob(Tick(s, specs[..|specs|-1], now, runId), specs[|specs|-1], now, runId)
  }

  ghost predicate DistinctJobs(specs: seq<Spec>) {
    forall i, j :: 0 <= i < j < |specs| ==> specs[i].job != specs[j].job
  }

  /** Ids derived from different jobs or due times differ. */
  ghost predicate DistinctIds(runId: (Job, nat) -> string) {
    forall j, d, j', d' :: runId(j, d) == runId(j', d') ==> j == j' && d == d'
  }

  ghost predicate IsNewRun(s: State, t: State, job: Job, id: string) {
    id in t.runs && id !in s.runs && t.runs[id].job == job
  }

  /** The job is due, its due time has no row yet, no run of it is active and the derived id is fresh. */
  ghost predicate Claimable(s: State, job: Job, now: nat, runId: (Job, nat) -> string) {
    job in s.nextDue && s.nextDue[job] <= now &&
      IsClaimable(s.runs, job, Some(s.nextDue[job]), runId(job, s.nextDue[job]))
  }

  /** What one tick does for a job: nothing while it is not due; otherwise its next due time becomes the
      first occurrence after now. It gets a new run if and only if it is claimable, and then exactly one,
      for the time that was due. */
  ghost predicate Ticked(s: State, t: State, spec: Spec, now: nat, runId: (Job, nat) -> string) {
    var job := spec.job;
    && job in t.nextDue
    && t.nextDue[job] == (if job in s.nextDue && s.nextDue[job] > now then s.nextDue[job] else spec.next(now))
    && (forall id :: IsNewRun(s, t, job, id) <==> Claimable(s, job, now, runId) && id == runId(job, s.nextDue[job]))
    && (forall id :: IsNewRun(s, t, job, id) ==> 
          t.runs[id] == Run(job, Some(s.nextDue[job]), now, None, None, Claimed, None, None, None, None, None))
  }

  /** The rows of a job are the same in both, and rows only in `t` have ids derived from other jobs. */
  ghost predicate SameFor(s: State, t: State, job: Job, runId: (Job, nat) -> string) {
    && (job in t.nextDue <==> job in s.nextDue) && (job in s.nextDue ==> t.nextDue[job] == s.nextDue[job])
    && (forall id :: id in s.runs ==> id in t.runs && t.runs[id] == s.runs[id])
    && (forall id :: id in t.runs && id !in s.runs ==>
          t.runs[id].job != job && exists due :: id == runId(t.runs[id].job, due))
  }

  lemma {:induction false} TickLeavesOthers(s: State, specs: seq<Spec>, now: nat, runId: (Job, nat) -> string, job: Job)
    requires forall spec :: spec in specs ==> spec.job != job
    ensures SameFor(s, Tick(s, specs, now, runId), job, runId)
  {
    if specs != [] {
      var last := specs[|specs|-1];
      TickLeavesOthers(s, specs[..|specs|-1], now, runId, job);
      assert last in specs;
      var before, t := Tick(s, specs[..|specs|-1], now, runId), Tick(s, specs, now, runId);
      forall id | id in t.runs && id !in s.runs
        ensures t.runs[id].job != job && exists due :: id == runId(t.runs[id].job, due)
      {
        if id in before.runs { assert t.runs[id] == before.runs[id]; }
      }
    }
  }

  lemma ClaimableIsLocal(s: State, t: State, job: Job, now: nat, runId: (Job, nat) -> string)
    requires SameFor(s, t, job, runId) && DistinctIds(runId)
    ensures Claimable(t, job, now, runId) <==> Claimable(s, job, now, runId)
  {
    if job in s.nextDue {
      var due := s.nextDue[job];
      assert runId(job, due) in t.runs <==> runId(job, due) in s.runs;
    }
  }

  lemma OtherJobIsTicked(s: State, before: State, spec: Spec, last: Spec, now: nat, runId: (Job, nat) -> string)
    requires Ticked(s, before, spec, now, runId) && spec.job != last.job
    ensures Ticked(s, TickJob(before, last, now, runId), spec, now, runId)
  {
    var t := TickJob(before, last, now, runId);
    forall id
      ensures IsNewRun(s, t, spec.job, id) <==> IsNewRun(s, before, spec.job, id)
      ensures IsNewRun(s, t, spec.job, id) ==> t.runs[id] == before.runs[id]
    {
    }
  }

  lemma LastJobIsTicked(occurs: nat -> bool, s: State, before: State, last: Spec, now: nat, runId: (Job, nat) -> string)
    requires IsSchedule(occurs, last.next) && DistinctIds(runId) && SameFor(s, before, last.job, runId)
    ensures Ticked(s, TickJob(before, last, now, runId), last, now, runId)
  {
    ClaimableIsLocal(s, before, last.job, now, runId);
    if last.job in before.nextDue {
      var due := before.nextDue[last.job];
      ClaimableIff(before.runs, last.job, Some(due), runId(last.job, due));
    }
    if last.job in s.nextDue && s.nextDue[last.job] <= now {
      CatchUpIsFirstAfterNow(occurs, last.next, s.nextDue[last.job], now);
    }
    var t := TickJob(before, last, now, runId);
    forall id
      ensures IsNewRun(s, t, last.job, id) <==>
                Claimable(before, last.job, now, runId) && id == runId(last.job, s.nextDue[last.job])
    {
      assert id in before.runs ==> t.runs[id] == before.runs[id];
    }
  }

  /** A tick does for every installed job exactly what it should, whatever the other jobs are. */
  lemma {:induction false} TickIsCorrect(occurs: Job -> (nat -> bool), s: State, specs: seq<Spec>, now: nat,
                                         runId: (Job, nat) -> string, i: nat)
    requires DistinctJobs(specs) && DistinctIds(runId) && i < |specs|
    requires forall spec :: spec in specs ==> IsSchedule(occurs(spec.job), spec.next)
    ensures Ticked(s, Tick(s, specs, now, runId), specs[i], now, runId)
    decreases |specs|
  {
    var init, last := specs[..|specs|-1], specs[|specs|-1];
    var before := Tick(s, init, now, runId);
    if i < |init| {
      TickIsCorrect(occurs, s, init, now, runId, i);
      OtherJobIsTicked(s, before, init[i], last, now, runId);
    } else {
      forall spec | spec in init ensures spec.job != last.job {
        var k :| 0 <= k < |init| && init[k] == spec;
        assert specs[k].job != specs[i].job;
      }
      TickLeavesOthers(s, init, now, runId, last.job);
      assert last in specs;
      LastJobIsTicked(occurs(last.job), s, before, last, now, runId);
    }
  }

  class SchedulerLoop {
    var runs: map<string, Run>
    var nextDue: map<Job, nat>

    ghost function Contents(): State
      reads this
    {
      State(runs, nextDue)
    }

    constructor (runs: map<string, Run>, nextDue: map<Job, nat>)
      ensures Contents() == State(runs, nextDue)
    {
      this.runs, this.nextDue := runs, nextDue;
    }

    method EvaluateAll(specs: seq<Spec>, now: nat, runId: (Job, nat) -> string)
      modifies this
      ensures Contents() == Tick(old(Contents()), specs, now, runId)
    {
      for i := 0 to |specs|
        invariant Contents() == Tick(old(Contents()), specs[..i], now, runId)
      {
        assert specs[..i+1][..i] == specs[..i];
        var spec := specs[i];
        if spec.job !in nextDue {
          nextDue := nextDue[spec.job := spec.next(now)];
          continue;
        }
        var due := nextDue[spec.job];
        if due > now { continue; }
        runs := ClaimRow(runs, spec.job, Some(due), runId(spec.job, due), now);
        var natural := spec.next(due);
        var next := natural;
        if natural <= now { next := spec.next(now); }
        nextDue := nextDue[spec.job := next];
      }
      assert specs[..|specs|] == specs;
    }
  }

  // ----- crashes between claim and save -----

  /** The durable steps of the scheduler and of what else touches run rows; a crash is the absence of
      the save that would have followed a claim. */
  datatype Step =
    | Initialise(spec: Spec, now: nat)
    | ClaimDue(spec: Spec, now: nat)
    | SaveNext(spec: Spec, now: nat)
    | ClaimManually(job: Job, id: string, now: nat)
    | ChangeState(id: string, run: Run)
    | Forget(removed: set<string>)

  function DueRunId(s: State, spec: Spec, runId: (Job, nat) -> string): string {
    if spec.job in s.nextDue then runId(spec.job, s.nextDue[spec.job]) else ""
  }

  predicate IsDue(s: State, spec: Spec, now: nat) { spec.job in s.nextDue && s.nextDue[spec.job] <= now }

  function Next(s: State, step: Step, runId: (Job, nat) -> string): State {
    match step
    case Initialise(spec, now) =>
      if spec.job in s.nextDue then s else s.(nextDue := s.nextDue[spec.job := spec.next(now)])
    case ClaimDue(spec, now) =>
      if IsDue(s, spec, now)
      then s.(runs := ClaimRow(s.runs, spec.job, Some(s.nextDue[spec.job]), DueRunId(s, spec, runId), now)) else s
    case SaveNext(spec, now) =>
      if IsDue(s, spec, now)
      then s.(nextDue := s.nextDue[spec.job := CatchUp(spec.next, s.nextDue[spec.job], now)]) else s
    case ClaimManually(job, id, now) => s.(runs := ClaimRow(s.runs, job, None, id, now))
    case ChangeState(id, run) =>
      if id in s.runs && run.job == s.runs[id].job && run.scheduledAt == s.runs[id].scheduledAt
      then s.(runs := s.runs[id := run]) else s
    case Forget(removed) => s.(runs := s.runs - removed)
  }

  /** A job's share of a tick is two durable steps, the claim and the save, or the first saving of a due time. */
  lemma TickIsSteps(s: State, spec: Spec, now: nat, runId: (Job, nat) -> string)
    ensures TickJob(s, spec, now, runId) ==
            if spec.job !in s.nextDue then Next(s, Initialise(spec, now), runId)
            else Next(Next(s, ClaimDue(spec, now), runId), SaveNext(spec, now), runId)
  {
  }

  /** Whatever the executor, recovery or retention does to the run rows, short of a scheduled claim, is one of the
      steps admitted here or none at all. */
  lemma ExecutorIsAdmitted(a: Agent, x: CronRuns.Step, isRunId: string -> bool, nextDue: map<Job, nat>,
                           runId: (Job, nat) -> string)
    requires x.ClaimRun? ==> x.scheduledAt == None
    ensures var b := CronRuns.Next(a, x, isRunId);
            b.runs == a.runs || exists step: Step :: Next(State(a.runs, nextDue), step, runId) == State(b.runs, nextDue)
  {
    var s, b := State(a.runs, nextDue), CronRuns.Next(a, x, isRunId);
    if b.runs != a.runs {
      var step := Forget({});
      if x.ClaimRun? {
        step := ClaimManually(x.job, x.id, x.now);
      } else if x.Retain? {
        step := Forget(x.removed);
      } else {
        assert x.GiveUp? || x.LeaseRun? || x.RecordStart? || x.Conclude?;
        step := ChangeState(x.id, b.runs[x.id]);
      }
      assert Next(s, step, runId) == State(b.runs, nextDue);
    }
  }

  function After(steps: seq<Step>, runId: (Job, nat) -> string): State {
    if steps == [] then State(map[], map[])
    else Next(After(steps[..|steps|-1], runId), steps[|steps|-1], runId)
  }

  /** The step claims a new run of the job for the due time. */
  predicate ClaimsDue(s: State, step: Step, runId: (Job, nat) -> string, job: Job, due: nat) {
    && step.ClaimDue? && IsDue(s, step.spec, step.now) && step.spec.job == job && s.nextDue[job] == due
    && ClaimAdds(s.runs, job, Some(due), DueRunId(s, step.spec, runId))
  }

  ghost predicate HasRow(s: State, job: Job, due: nat) {
    exists id :: IsScheduledAs(s.runs, id, job, due)
  }

  /** A row outlives every step but a retention. */
  lemma RowStays(s: State, step: Step, runId: (Job, nat) -> string, job: Job, due: nat)
    requires HasRow(s, job, due) && !step.Forget?
    ensures HasRow(Next(s, step, runId), job, due)
  {
    var id :| IsScheduledAs(s.runs, id, job, due);
    assert IsScheduledAs(Next(s, step, runId).runs, id, job, due);
  }

  lemma ClaimNeedsNoRow(s: State, step: Step, runId: (Job, nat) -> string, job: Job, due: nat)
    requires ClaimsDue(s, step, runId, job, due)
    ensures !HasRow(s, job, due) && HasRow(Next(s, step, runId), job, due)
  {
    assert IsScheduledAs(Next(s, step, runId).runs, DueRunId(s, step.spec, runId), job, due);
  }

  /** A step that saves a due time takes it from a schedule that only looks ahead. */
  ghost predicate LooksAhead(step: Step) {
    step.Initialise? || step.SaveNext? ==> forall t :: step.spec.next(t) > t
  }

  ghost predicate FutureOnly(steps: seq<Step>) {
    forall k :: 0 <= k < |steps| ==> LooksAhead(steps[k])
  }

  /** Saved due times only move forward, and strictly with every save that finds the job due. */
  lemma DueTimesRise(s: State, step: Step, runId: (Job, nat) -> string, job: Job)
    requires job in s.nextDue && LooksAhead(step)
    ensures job in Next(s, step, runId).nextDue && s.nextDue[job] <= Next(s, step, runId).nextDue[job]
    ensures step.SaveNext? && step.spec.job == job && IsDue(s, step.spec, step.now) ==>
              s.nextDue[job] < Next(s, step, runId).nextDue[job]
  {
  }

  /** The step is a retention that takes the row of this due time away. */
  ghost predicate ForgetsRow(steps: seq<Step>, runId: (Job, nat) -> string, k: nat, job: Job, due: nat) {
    && k < |steps| && steps[k].Forget?
    && HasRow(After(steps[..k], runId), job, due) && !HasRow(After(steps[..k+1], runId), job, due)
  }

  /** While its row is retained a due time is not claimed again: before the next claim there is a retention
      step that took the very row away. */
  lemma {:induction false} ClaimedOnceWhileRetained(steps: seq<Step>, runId: (Job, nat) -> string, i: nat, j: nat,
                                                    job: Job, due: nat)
    requires i < j < |steps|
    requires HasRow(After(steps[..i+1], runId), job, due)
    requires ClaimsDue(After(steps[..j], runId), steps[j], runId, job, due)
    ensures exists k :: i < k < j && ForgetsRow(steps, runId, k, job, due)
    decreases j - i
  {
    if i + 1 == j {
      ClaimNeedsNoRow(After(steps[..j], runId), steps[j], runId, job, due);
    } else {
      AfterOneStep(steps, runId, i + 1);
      if HasRow(After(steps[..i+2], runId), job, due) {
        ClaimedOnceWhileRetained(steps, runId, i + 1, j, job, due);
      } else {
        if !steps[i+1].Forget? { RowStays(After(steps[..i+1], runId), steps[i+1], runId, job, due); }
        assert ForgetsRow(steps, runId, i + 1, job, due);
      }
    }
  }

  ghost predicate Rises(s: State, t: State, job: Job) {
    job in s.nextDue ==> job in t.nextDue && s.nextDue[job] <= t.nextDue[job]
  }

  lemma StepRises(steps: seq<Step>, runId: (Job, nat) -> string, k: nat, job: Job)
    requires k < |steps| && FutureOnly(steps)
    ensures Rises(After(steps[..k], runId), After(steps[..k+1], runId), job)
  {
    AfterOneStep(steps, runId, k);
    if job in After(steps[..k], runId).nextDue { DueTimesRise(After(steps[..k], runId), steps[k], runId, job); }
  }

  lemma RisesOn(s: State, t: State, u: State, job: Job)
    requires Rises(s, t, job) && Rises(t, u, job)
    ensures Rises(s, u, job)
  {
  }

  /** Over every run saved due times never move back. */
  lemma {:induction false} DueTimesRiseOver(steps: seq<Step>, runId: (Job, nat) -> string, i: nat, j: nat, job: Job)
    requires i <= j <= |steps| && FutureOnly(steps)
    ensures Rises(After(steps[..i], runId), After(steps[..j], runId), job)
    decreases j
  {
    if i < j {
      DueTimesRiseOver(steps, runId, i, j - 1, job);
      StepRises(steps, runId, j - 1, job);
      RisesOn(After(steps[..i], runId), After(steps[..j-1], runId), After(steps[..j], runId), job);
    }
  }

  lemma AfterOneStep(steps: seq<Step>, runId: (Job, nat) -> string, k: nat)
    requires k < |steps|
    ensures After(steps[..k+1], runId) == Next(After(steps[..k], runId), steps[k], runId)
  {
    assert steps[..k+1][..k] == steps[..k];
  }

  /** Between two moments with one saved due time no save found the job due. */
  lemma SameDueMeansNoSave(steps: seq<Step>, runId: (Job, nat) -> string, i: nat, k: nat, j: nat, job: Job)
    requires i <= k < j <= |steps| && FutureOnly(steps)
    requires job in After(steps[..i], runId).nextDue && job in After(steps[..j], runId).nextDue
    requires After(steps[..i], runId).nextDue[job] == After(steps[..j], runId).nextDue[job]
    requires steps[k].SaveNext? && steps[k].spec.job == job
    ensures !IsDue(After(steps[..k], runId), steps[k].spec, steps[k].now)
  {
    DueTimesRiseOver(steps, runId, i, k, job);
    AfterOneStep(steps, runId, k);
    DueTimesRise(After(steps[..k], runId), steps[k], runId, job);
    DueTimesRiseOver(steps, runId, k + 1, j, job);
  }

  /** Claiming the same due time twice takes both a crash and a loss: no save of the job took effect
      between the two claims, and a retention step took the first claim's row away. */
  lemma DoubleClaimNeedsCrashAndLoss(steps: seq<Step>, runId: (Job, nat) -> string, i: nat, j: nat, job: Job, due: nat)
    requires i < j < |steps| && FutureOnly(steps)
    requires ClaimsDue(After(steps[..i], runId), steps[i], runId, job, due)
    requires ClaimsDue(After(steps[..j], runId), steps[j], runId, job, due)
    ensures exists k :: i < k < j && ForgetsRow(steps, runId, k, job, due)
    ensures forall k :: i < k < j && steps[k].SaveNext? && steps[k].spec.job == job ==>
              !IsDue(After(steps[..k], runId), steps[k].spec, steps[k].now)
  {
    assert steps[..i+1][..i] == steps[..i];
    ClaimNeedsNoRow(After(steps[..i], runId), steps[i], runId, job, due);
    ClaimedOnceWhileRetained(steps, runId, i, j, job, due);
    forall k | i < k < j && steps[k].SaveNext? && steps[k].spec.job == job
      ensures !IsDue(After(steps[..k], runId), steps[k].spec, steps[k].now)
    {
      SameDueMeansNoSave(steps, runId, i, k, j, job);
    }
  }
}
