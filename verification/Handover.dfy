/** Cron ownership from the CLI's side: choosing the owner of a service's jobs, installing them there and
    sweeping every other host, while any remote call may fail before or after taking effect. */
module Handover {
  import opened Names
  import opened CronRuns
  import Catalog

  // ----- the owner -----

  datatype Assignment = Assignment(replicaId: string, ordinal: nat, server: string)

  /** The first active, healthy record of a replica in the catalog listing. */
  function RecordOf(catalog: seq<Catalog.Record>, replica: string): Option<Catalog.Record> {
    if catalog == [] then None
    else if catalog[0].replicaId == replica && Catalog.Eligible(catalog[0]) then Some(catalog[0])
    else RecordOf(catalog[1..], replica)
  }

  datatype Choice = Choice(assignment: Assignment, record: Catalog.Record)

  /** The lowest-ordinal assignment that has a record; the first of equals. */
  function SelectCronOwner(assignments: seq<Assignment>, catalog: seq<Catalog.Record>): Option<Choice> {
    if assignments == [] then None
    else
      var before := SelectCronOwner(assignments[..|assignments|-1], catalog);
      var last := assignments[|assignments|-1];
      var record := RecordOf(catalog, last.replicaId);
      if record.Some? && (before.None? || last.ordinal < before.value.assignment.ordinal)
      then Some(Choice(last, record.value)) else before
  }

  /** An active, healthy record of the replica. */
  ghost predicate IsReplica(r: Catalog.Record, replica: string) {
    r.replicaId == replica && r.state == Catalog.DeploymentState.Active && r.health == Catalog.Health.Healthy
  }

  ghost predicate IsFirst(catalog: seq<Catalog.Record>, replica: string, r: Catalog.Record) {
    && IsReplica(r, replica)
    && exists k :: 0 <= k < |catalog| && catalog[k] == r && forall j :: 0 <= j < k ==> !IsReplica(catalog[j], replica)
  }

  lemma {:induction false} RecordOfIsEligible(catalog: seq<Catalog.Record>, replica: string)
    ensures var r := RecordOf(catalog, replica);
            && (r.None? ==> forall x :: x in catalog ==> !IsReplica(x, replica))
            && (r.Some? ==> IsFirst(catalog, replica, r.value))
  {
    if catalog != [] {
      RecordOfIsEligible(catalog[1..], replica);
      if IsReplica(catalog[0], replica) {
        assert catalog[0] == RecordOf(catalog, replica).value;
      } else if RecordOf(catalog, replica).Some? {
        var r := RecordOf(catalog, replica).value;
        var rest := catalog[1..];
        var k :| 0 <= k < |rest| && rest[k] == r && forall j :: 0 <= j < k ==> !IsReplica(rest[j], replica);
        assert catalog[k+1] == r;
        assert forall j :: 0 < j < k + 1 ==> catalog[j] == rest[j-1];
      }
    }
  }

  /** An assignment that could own the jobs: its replica is active and healthy. */
  ghost predicate CanOwn(a: Assignment, catalog: seq<Catalog.Record>) {
    exists r :: r in catalog && IsReplica(r, a.replicaId)
  }

  /** No assignment that could own the jobs has a lower ordinal, and none listed earlier the same. */
  ghost predicate IsLowest(assignments: seq<Assignment>, catalog: seq<Catalog.Record>, a: Assignment) {
    && (forall b :: b in assignments && CanOwn(b, catalog) ==> a.ordinal <= b.ordinal)
    && exists i :: 0 <= i < |assignments| && assignments[i] == a &&
         forall j :: 0 <= j < i && CanOwn(assignments[j], catalog) ==> a.ordinal < assignments[j].ordinal
  }

  /** An owner is found exactly when some assigned replica is active and healthy; it is the first of lowest
      ordinal, with the first such record of its replica. */
  lemma {:induction false} OwnerIsLowestOrdinal(assignments: seq<Assignment>, catalog: seq<Catalog.Record>)
    ensures var c := SelectCronOwner(assignments, catalog);
            && (c.None? <==> forall a :: a in assignments ==> !CanOwn(a, catalog))
            && (c.Some? ==>
                  && IsFirst(catalog, c.value.assignment.replicaId, c.value.record)
                  && IsLowest(assignments, catalog, c.value.assignment))
  {
    if assignments != [] {
      var init, last := assignments[..|assignments|-1], assignments[|assignments|-1];
      OwnerIsLowestOrdinal(init, catalog);
      RecordOfIsEligible(catalog, last.replicaId);
      assert assignments == init + [last];
      assert CanOwn(last, catalog) <==> RecordOf(catalog, last.replicaId).Some?;
      var before, c := SelectCronOwner(init, catalog), SelectCronOwner(assignments, catalog);
      if before.Some? && c == before {
        LowestStays(assignments, catalog, c.value.assignment);
      } else if c.Some? {
        LastIsLowest(assignments, catalog);
      }
    }
  }

  lemma LowestStays(assignments: seq<Assignment>, catalog: seq<Catalog.Record>, a: Assignment)
    requires assignments != [] && IsLowest(assignments[..|assignments|-1], catalog, a)
    requires CanOwn(assignments[|assignments|-1], catalog) ==> a.ordinal <= assignments[|assignments|-1].ordinal
    ensures IsLowest(assignments, catalog, a)
  {
    var init := assignments[..|assignments|-1];
    assert assignments == init + [assignments[|assignments|-1]];
    var i :| 0 <= i < |init| && init[i] == a &&
      forall j :: 0 <= j < i && CanOwn(init[j], catalog) ==> a.ordinal < init[j].ordinal;
    assert assignments[i] == a;
  }

  lemma LastIsLowest(assignments: seq<Assignment>, catalog: seq<Catalog.Record>)
    requires assignments != []
    requires forall b :: b in assignments[..|assignments|-1] && CanOwn(b, catalog) ==>
               assignments[|assignments|-1].ordinal < b.ordinal
    ensures IsLowest(assignments, catalog, assignments[|assignments|-1])
  {
    assert assignments == assignments[..|assignments|-1] + [assignments[|assignments|-1]];
    assert forall j :: 0 <= j < |assignments| - 1 ==> assignments[j] in assignments[..|assignments|-1];
  }

  // ----- the fleet -----

  /** What became of a remote call: answered, refused or lost before it took effect, or lost after. */
  datatype Reply = Answered | LostBefore | LostAfter

  type Fleet = map<string, set<Job>>

  ghost predicate Flawless(env: nat -> Reply) { forall i :: env(i).Answered? }

  /** How far owner resolution came. `Unready` knows the owner but cannot install on it. */
  datatype Resolution = Unresolved | Unready(owner: string) | Ready(owner: string)

  ghost predicate InstalledSomewhere(fleet: Fleet, job: Job) {
    exists h :: h in fleet && job in fleet[h]
  }

  function JobsOf(service: string, names: set<string>): set<Job> { set n | n in names :: Job(service, n) }

  function OfService(jobs: set<Job>, service: string): set<Job> { set j | j in jobs && j.service == service }

  /** A configured job that was installed on some host is installed on some host. */
  ghost predicate NoneLost(start: Fleet, fleet: Fleet, wanted: set<Job>) {
    forall j :: j in wanted && InstalledSomewhere(start, j) ==> InstalledSomewhere(fleet, j)
  }

  /** Where the configured jobs are while hosts are swept: installed ones are on the owner, the others
      have not been removed from anywhere. */
  ghost predicate Secured(start: Fleet, fleet: Fleet, wanted: set<Job>, owner: string, installed: set<Job>) {
    && fleet.Keys == start.Keys
    && installed <= wanted
    && (installed != {} ==> owner in fleet)
    && (forall j :: j in installed ==> j in fleet[owner])
    && (forall j, h :: j in wanted && j !in installed && h in start && j in start[h] ==> j in fleet[h])
  }

  lemma SecuredLosesNone(start: Fleet, fleet: Fleet, wanted: set<Job>, owner: string, installed: set<Job>)
    requires Secured(start, fleet, wanted, owner, installed)
    ensures NoneLost(start, fleet, wanted)
  {
    forall j | j in wanted && InstalledSomewhere(start, j) ensures InstalledSomewhere(fleet, j) {
      if j !in installed {
        var h :| h in start && j in start[h];
        assert j in fleet[h];
      }
    }
  }

  /** Taking one job off a host keeps the configured jobs secured, unless it is needed there. */
  lemma RemovalKeepsSecured(start: Fleet, fleet: Fleet, wanted: set<Job>, owner: string, installed: set<Job>,
                            host: string, job: Job)
    requires Secured(start, fleet, wanted, owner, installed) && host in fleet
    requires job in wanted ==> host != owner && job in installed
    ensures Secured(start, fleet[host := fleet[host] - {job}], wanted, owner, installed)
  {
  }

  lemma InstallKeepsSecured(start: Fleet, fleet: Fleet, wanted: set<Job>, owner: string, installed: set<Job>, job: Job)
    requires Secured(start, fleet, wanted, owner, installed) && owner in fleet && job in wanted
    ensures Secured(start, fleet[owner := fleet[owner] + {job}], wanted, owner, installed)
    ensures Secured(start, fleet[owner := fleet[owner] + {job}], wanted, owner, installed + {job})
  {
  }

  /** What a host may keep: the owner everything configured, another host only what did not get installed
      on the owner; everything configured where the owner is unknown. */
  function KeptOn(host: string, owner: Option<string>, wanted: set<Job>, installed: set<Job>): set<Job> {
    if owner.Some? && owner.value != host then wanted - installed else wanted
  }

  class Reconciler {
    var fleet: Fleet
    var calls: nat
    /** Every state the fleet has been in. */
    ghost var history: seq<Fleet>

    constructor (fleet: Fleet)
      ensures this.fleet == fleet && history == [fleet] && calls == 0
    {
      this.fleet, calls, history := fleet, 0, [fleet];
    }

    ghost predicate Tracked()
      reads this
    {
      history != [] && history[|history|-1] == fleet
    }

    /** One call that changes one host's jobs, if it takes effect. */
    method Call(host: string, jobs: set<Job>, env: nat -> Reply) returns (answered: bool)
      requires host in fleet && Tracked()
      modifies this
      ensures fleet == if env(old(calls)).LostBefore? then old(fleet) else old(fleet)[host := jobs]
      ensures answered <==> env(old(calls)).Answered?
      ensures calls == old(calls) + 1
      ensures history == old(history) + [fleet] && Tracked()
    {
      var reply := env(calls);
      calls := calls + 1;
      if !reply.LostBefore? { fleet := fleet[host := jobs]; }
      history := history + [fleet];
      answered := reply.Answered?;
    }

    /** Installs each configured job on the owner and reports those that were acknowledged. */
    method InstallOnOwner(owner: string, wanted: set<Job>, env: nat -> Reply) returns (installed: set<Job>)
      requires owner in fleet && Tracked()
      modifies this
      ensures Tracked() && old(history) <= history
      ensures Secured(old(fleet), fleet, wanted, owner, installed)
      ensures OnlyChanges(old(fleet), fleet, owner)
      ensures old(fleet)[owner] <= fleet[owner] <= old(fleet)[owner] + wanted
      ensures Flawless(env) ==> installed == wanted
      ensures forall k :: |old(history)| <= k < |history| ==> NoneLost(old(fleet), history[k], wanted)
    {
      installed := {};
      var pending := wanted;
      while pending != {}
        invariant Tracked() && old(history) <= history && pending <= wanted
        invariant Secured(old(fleet), fleet, wanted, owner, installed)
        invariant OnlyChanges(old(fleet), fleet, owner)
        invariant old(fleet)[owner] <= fleet[owner] <= old(fleet)[owner] + wanted
        invariant Flawless(env) ==> installed == wanted - pending
        invariant forall k :: |old(history)| <= k < |history| ==> NoneLost(old(fleet), history[k], wanted)
      {
        var job :| job in pending;
        pending := pending - {job};
        InstallKeepsSecured(old(fleet), fleet, wanted, owner, installed, job);
        var answered := Call(owner, fleet[owner] + {job}, env);
        if answered { installed := installed + {job}; }
        SecuredLosesNone(old(fleet), fleet, wanted, owner, installed);
      }
    }

    /** Removes jobs from one host, one call each. */
    method RemoveJobs(host: string, stale: set<Job>, env: nat -> Reply, ghost start: Fleet, ghost wanted: set<Job>,
                      ghost owner: string, ghost installed: set<Job>)
      requires host in fleet && Tracked()
      requires Secured(start, fleet, wanted, owner, installed)
      requires forall j :: j in stale && j in wanted ==> host != owner && j in installed
      modifies this
      ensures Tracked() && old(history) <= history
      ensures Secured(start, fleet, wanted, owner, installed)
      ensures OnlyChanges(old(fleet), fleet, host)
      ensures Swept(old(fleet)[host], fleet[host], stale, Flawless(env))
      ensures forall k :: |old(history)| <= k < |history| ==> NoneLost(start, history[k], wanted)
    {
      var pending := stale;
      ghost var tried: set<Job> := {};
      while pending != {}
        invariant Tracked() && old(history) <= history
        invariant tried + pending == stale
        invariant Secured(start, fleet, wanted, owner, installed)
        invariant OnlyChanges(old(fleet), fleet, host)
        invariant Swept(old(fleet)[host], fleet[host], tried, Flawless(env))
        invariant forall k :: |old(history)| <= k < |history| ==> NoneLost(start, history[k], wanted)
      {
        var job :| job in pending;
        pending := pending - {job};
        RemovalKeepsSecured(start, fleet, wanted, owner, installed, host, job);
        SweptOneMore(old(fleet)[host], fleet[host], tried, Flawless(env), job);
        var _ := Call(host, fleet[host] - {job}, env);
        tried := tried + {job};
        SecuredLosesNone(start, fleet, wanted, owner, installed);
      }
    }

    /** Lists one host's jobs and removes those of the service that it may not keep. */
    method RemoveSpecsAbsentFrom(host: string, service: string, kept: set<Job>, env: nat -> Reply, ghost start: Fleet,
                                 ghost wanted: set<Job>, ghost owner: string, ghost installed: set<Job>)
      requires host in fleet && Tracked()
      requires Secured(start, fleet, wanted, owner, installed)
      requires if host == owner then wanted <= kept else wanted - installed <= kept
      modifies this
      ensures Tracked() && old(history) <= history
      ensures Secured(start, fleet, wanted, owner, installed)
      ensures OnlyChanges(old(fleet), fleet, host)
      ensures Swept(old(fleet)[host], fleet[host], OfService(old(fleet)[host], service) - kept, Flawless(env))
      ensures !env(old(calls)).Answered? ==> fleet == old(fleet)
      ensures forall k :: |old(history)| <= k < |history| ==> NoneLost(start, history[k], wanted)
    {
      var listed := env(calls);
      calls := calls + 1;
      if !listed.Answered? { return; }
      RemoveJobs(host, OfService(fleet[host], service) - kept, env, start, wanted, owner, installed);
    }

    /** Sweeps every host, whatever failed on the hosts before it. */
    method SweepHosts(service: string, wanted: set<Job>, owner: Option<string>, installed: set<Job>,
                      env: nat -> Reply, ghost start: Fleet, ghost place: string)
      requires Tracked()
      requires Secured(start, fleet, wanted, place, installed)
      requires owner.Some? ==> place == owner.value
      requires owner.None? ==> installed == {}
      modifies this
      ensures Tracked() && old(history) <= history && fleet.Keys == old(fleet).Keys
      ensures AllSwept(old(fleet), fleet, {}, service, owner, wanted, installed, Flawless(env))
      ensures forall k :: |old(history)| <= k < |history| ==> NoneLost(start, history[k], wanted)
    {
      var pending := fleet.Keys;
      while pending != {}
        invariant Tracked() && old(history) <= history && pending <= fleet.Keys && fleet.Keys == old(fleet).Keys
        invariant Secured(start, fleet, wanted, place, installed)
        invariant AllSwept(old(fleet), fleet, pending, service, owner, wanted, installed, Flawless(env))
        invariant forall k :: |old(history)| <= k < |history| ==> NoneLost(start, history[k], wanted)
      {
        var host :| host in pending;
        ghost var before := fleet;
        var kept := KeptOn(host, owner, wanted, installed);
        RemoveSpecsAbsentFrom(host, service, kept, env, start, wanted, place, installed);
        SweptHost(old(fleet), before, fleet, pending, service, owner, wanted, installed, Flawless(env), host);
        pending := pending - {host};
      }
    }

    /** The whole reconciliation of one service over the connected hosts: install on the owner if it is
        ready, then sweep every host. */
    method ReconcileServiceCrons(service: string, crons: set<string>, resolution: Resolution, env: nat -> Reply)
      requires Tracked()
      requires resolution.Ready? ==> resolution.owner in fleet
      modifies this
      ensures Tracked() && old(history) <= history && fleet.Keys == old(fleet).Keys
      // at no intermediate step is a configured job lost
      ensures forall k :: |old(history)| <= k < |history| ==> NoneLost(old(fleet), history[k], JobsOf(service, crons))
      // if every call succeeds, deleted jobs end nowhere, and configured ones on exactly a ready owner, or where
      // they were while there is none
      ensures Flawless(env) ==>
                forall h, name :: h in fleet ==>
                  (Job(service, name) in fleet[h] <==>
                    && name in crons
                    && if resolution.Ready? then h == resolution.owner else Job(service, name) in old(fleet)[h])
      // no host but a ready owner gains a job, and that only configured ones
      ensures forall h, j :: h in fleet && j in fleet[h] && j !in old(fleet)[h] ==>
                resolution.Ready? && h == resolution.owner && j.service == service && j.cronName in crons
      // jobs of other services are never touched
      ensures forall h, j: Job :: h in fleet && j.service != service ==> (j in fleet[h] <==> j in old(fleet)[h])
    {
      var wanted := JobsOf(service, crons);
      var installed: set<Job> := {};
      var owner: Option<string> := None;
      if crons != {} && !resolution.Unresolved? {
        owner := Some(resolution.owner);
        if resolution.Ready? {
          installed := InstallOnOwner(resolution.owner, wanted, env);
        }
      }
      ghost var middle := fleet;
      SweepHosts(service, wanted, owner, installed, env, old(fleet), if owner.Some? then owner.value else "");
      forall h | h in fleet
        ensures Settled(old(fleet)[h], middle[h], fleet[h], service, KeptOn(h, owner, wanted, installed), Flawless(env))
      {
        var kept := KeptOn(h, owner, wanted, installed);
        HostSettles(old(fleet)[h], middle[h], fleet[h], service, crons, kept, Flawless(env));
      }
    }
  }

  /** One host's jobs before and after some were to be removed. */
  ghost predicate Swept(before: set<Job>, after: set<Job>, stale: set<Job>, flawless: bool) {
    && before - stale <= after <= before
    && (flawless ==> after == before - stale)
  }

  lemma SweptOneMore(before: set<Job>, after: set<Job>, tried: set<Job>, flawless: bool, job: Job)
    requires Swept(before, after, tried, flawless)
    ensures Swept(before, after - {job}, tried + {job}, flawless)
    ensures !flawless ==> Swept(before, after, tried + {job}, flawless)
  {
  }

  ghost predicate OnlyChanges(before: Fleet, after: Fleet, host: string) {
    after.Keys == before.Keys && forall h :: h in before && h != host ==> after[h] == before[h]
  }

  /** Every host but the pending ones has been swept, and those are as they were. */
  ghost predicate AllSwept(before: Fleet, after: Fleet, pending: set<string>, service: string, owner: Option<string>,
                           wanted: set<Job>, installed: set<Job>, flawless: bool) {
    && after.Keys == before.Keys
    && forall h :: h in before ==>
         if h in pending then after[h] == before[h]
         else Swept(before[h], after[h], OfService(before[h], service) - KeptOn(h, owner, wanted, installed), flawless)
  }

  lemma SweptHost(before: Fleet, during: Fleet, after: Fleet, pending: set<string>, service: string,
                  owner: Option<string>, wanted: set<Job>, installed: set<Job>, flawless: bool, host: string)
    requires AllSwept(before, during, pending, service, owner, wanted, installed, flawless)
    requires host in pending && host in before && OnlyChanges(during, after, host)
    requires Swept(during[host], after[host],
               OfService(during[host], service) - KeptOn(host, owner, wanted, installed), flawless)
    ensures AllSwept(before, after, pending - {host}, service, owner, wanted, installed, flawless)
  {
  }

  /** What the installs and the sweep leave on one host: of other services what was there, of the service
      at most what was there after the installs, and exactly what may be kept of it if no call fails. */
  ghost predicate Settled(before: set<Job>, middle: set<Job>, after: set<Job>, service: string, kept: set<Job>,
                          flawless: bool) {
    && (forall j: Job :: j.service != service ==> (j in after <==> j in before))
    && after <= middle
    && (flawless ==> forall j: Job :: j.service == service ==> (j in after <==> j in middle && j in kept))
  }

  lemma HostSettles(before: set<Job>, middle: set<Job>, after: set<Job>, service: string, crons: set<string>,
                    kept: set<Job>, flawless: bool)
    requires before <= middle <= before + JobsOf(service, crons)
    requires Swept(middle, after, OfService(middle, service) - kept, flawless)
    ensures Settled(before, middle, after, service, kept, flawless)
  {
  }
}
