/** The catalog replication protocol: nodes commit records they own, exchange snapshots of only their
    own winners over late, repeated, reordered and interrupted connections, and compact their logs. */
module Replication {
  import opened Names
  import opened Ledger
  import opened Membership
  import opened Catalog
  import opened OperationStore
  import Desired

  const MAX_CATALOG_RECORDS := 4096
  const MAX_DESIRED_RECORDS := 1024

  type Host = Store<string, Record>

  /** A snapshot in flight; its records are in the order the sender's table listed them. */
  datatype Message = Message(sender: string, records: seq<Record>)

  /** What is fixed during a run: the agreed membership, and the owner and replica of a deployment. */
  datatype World = World(
    scope: Scope, members: map<string, Member>, digest: Record -> nat,
    owner: string -> string, replica: string -> string)

  /** The integer columns of the winners table are signed. */
  predicate Fits(r: Record) { r.ownerEpoch <= I64_MAX && r.revision <= I64_MAX }

  function StoreRules(scope: Scope, members: map<string, Member>, digest: Record -> nat): Rules<string, Record> {
    Bounded(CatalogRules(scope, members, digest), (r: Record) => Fits(r))
  }

  function HostRules(w: World): Rules<string, Record> { StoreRules(w.scope, w.members, w.digest) }

  /** `committed` and `published` record history: what each node wrote locally, and what has ever been
      a winner on its owner. Messages are never removed, so any of them may arrive again later. */
  datatype Cluster = Cluster(
    hosts: map<string, Host>, committed: map<string, set<Record>>, published: set<Record>, sent: set<Message>)

  ghost predicate Tied(w: World, r: Record) {
    r.ownerNodeId == w.owner(r.deploymentId) && r.replicaId == w.replica(r.deploymentId)
  }

  // ----- the exchange -----

  datatype Exchanged<!K(==), !R(==)> = Exchanged(host: Store<K, R>, ok: bool)

  /** One half of `apply_exchange`: record by record, stopping at the first refusal. Only `budget` records
      are processed, which covers a store that runs out of quota and an agent that stops part way. */
  function ApplyExchange<K(==), R(==)>(rules: Rules<K, R>, s: Store<K, R>, p: Provenance, records: seq<R>, budget: nat)
    : Exchanged<K, R>
    decreases |records|
  {
    if records == [] then Exchanged(s, true)
    else if budget == 0 then Exchanged(s, false)
    else
      var verdict := Submit(rules, s, p, records[0]);
      if verdict.Rejected? then Exchanged(s, false)
      else ApplyExchange(rules, Write(rules, s, records[0], verdict), p, records[1..], budget - 1)
  }

  lemma ExchangeOneMore<K, R>(rules: Rules<K, R>, s: Store<K, R>, p: Provenance, records: seq<R>, i: nat)
    requires i < |records|
    ensures var verdict := Submit(rules, s, p, records[i]);
            ApplyExchange(rules, s, p, records[i..], |records| - i) ==
              if verdict.Rejected? then Exchanged(s, false)
              else ApplyExchange(rules, Write(rules, s, records[i], verdict), p, records[i+1..], |records| - i - 1)
  {
    assert records[i..][0] == records[i] && records[i..][1..] == records[i+1..];
  }

  function Applies<R>(p: Provenance, records: seq<R>): seq<Op<R>> {
    seq(|records|, i requires 0 <= i < |records| => Apply(p, records[i]))
  }

  /** The exchange applied the first `n` records, none of which was refused. It succeeded exactly if these are
      all; otherwise the next one is refused or the budget is spent. */
  ghost predicate StopsAfter<K, R>(rules: Rules<K, R>, s: Store<K, R>, p: Provenance, records: seq<R>, budget: nat,
                                   x: Exchanged<K, R>, n: nat) {
    && n <= |records| && n <= budget && x.host == Run(rules, s, Applies(p, records[..n]))
    && (forall i: nat :: i < n ==> !Submit(rules, Run(rules, s, Applies(p, records[..i])), p, records[i]).Rejected?)
    && (x.ok <==> n == |records|)
    && (!x.ok ==> n == budget || Submit(rules, x.host, p, records[n]).Rejected?)
  }

  lemma AppliesFromFirst<K, R>(rules: Rules<K, R>, s: Store<K, R>, p: Provenance, records: seq<R>, n: nat)
    requires 0 < n <= |records|
    ensures Run(rules, s, Applies(p, records[..n])) ==
            Run(rules, Ledger.Step(rules, s, Apply(p, records[0])), Applies(p, records[1..][..n-1]))
  {
    assert Applies(p, records[..n]) == [Apply(p, records[0])] + Applies(p, records[1..][..n-1]);
    RunFromFirst(rules, s, Apply(p, records[0]), Applies(p, records[1..][..n-1]));
  }

  lemma StopsOneLater<K, R>(rules: Rules<K, R>, s: Store<K, R>, p: Provenance, records: seq<R>, budget: nat,
                            x: Exchanged<K, R>, n: nat)
    requires records != [] && budget > 0 && !Submit(rules, s, p, records[0]).Rejected?
    requires StopsAfter(rules, Ledger.Step(rules, s, Apply(p, records[0])), p, records[1..], budget - 1, x, n)
    ensures StopsAfter(rules, s, p, records, budget, x, n + 1)
  {
    AppliesFromFirst(rules, s, p, records, n + 1);
    forall i: nat | i < n + 1
      ensures !Submit(rules, Run(rules, s, Applies(p, records[..i])), p, records[i]).Rejected?
    {
      if i == 0 {
        assert Applies(p, records[..0]) == [];
      } else {
        AppliesFromFirst(rules, s, p, records, i);
        assert records[i] == records[1..][i-1];
      }
    }
  }

  lemma StopsAtOnce<K, R>(rules: Rules<K, R>, s: Store<K, R>, p: Provenance, records: seq<R>, budget: nat)
    requires records == [] || budget == 0 || Submit(rules, s, p, records[0]).Rejected?
    ensures StopsAfter(rules, s, p, records, budget, ApplyExchange(rules, s, p, records, budget), 0)
  {
    assert Applies(p, records[..0]) == [];
  }

  /** An exchange is the run that applies a prefix of its records up to the first refusal. */
  lemma {:induction false} ExchangeIsPrefix<K, R>(rules: Rules<K, R>, s: Store<K, R>, p: Provenance, records: seq<R>,
                                                  budget: nat)
    ensures exists n: nat :: StopsAfter(rules, s, p, records, budget, ApplyExchange(rules, s, p, records, budget), n)
    decreases |records|
  {
    var x := ApplyExchange(rules, s, p, records, budget);
    if records == [] || budget == 0 || Submit(rules, s, p, records[0]).Rejected? {
      StopsAtOnce(rules, s, p, records, budget);
    } else {
      var s' := Ledger.Step(rules, s, Apply(p, records[0]));
      ExchangeIsPrefix(rules, s', p, records[1..], budget - 1);
      var n: nat :| StopsAfter(rules, s', p, records[1..], budget - 1, x, n);
      StopsOneLater(rules, s, p, records, budget, x, n);
    }
  }

  method ApplyRecords<K(==), R(==)>(store: OperationLog<K, R>, rules: Rules<K, R>, p: Provenance, records: seq<R>)
      returns (ok: bool)
    modifies store
    ensures Exchanged(store.Contents(), ok) == ApplyExchange(rules, old(store.Contents()), p, records, |records|)
  {
    assert records[0..] == records;
    for i := 0 to |records|
      invariant ApplyExchange(rules, old(store.Contents()), p, records, |records|)
                == ApplyExchange(rules, store.Contents(), p, records[i..], |records| - i)
    {
      ExchangeOneMore(rules, store.Contents(), p, records, i);
      var verdict := store.Apply(rules, p, records[i]);
      if verdict.Rejected? { return false; }
    }
    return true;
  }

  /** What one peer sends another. */
  datatype Exchange = Exchange(
    projectId: string, recoveryEpoch: nat, protocolVersion: nat, schemaVersion: nat,
    operations: seq<Record>, desired: seq<Desired.Wish>)

  datatype Refusal = WrongProject | RecoveryEpoch | IncompatibleVersion | SnapshotTooLarge

  function ValidateExchange(e: Exchange, scope: Scope): Option<Refusal> {
    if e.projectId != scope.projectId then Some(Refusal.WrongProject)
    else if e.recoveryEpoch != scope.recoveryEpoch then Some(Refusal.RecoveryEpoch)
    else if e.protocolVersion != CATALOG_PROTOCOL_VERSION || e.schemaVersion != CATALOG_SCHEMA_VERSION
    then Some(IncompatibleVersion)
    else if |e.operations| > MAX_CATALOG_RECORDS || |e.desired| > MAX_DESIRED_RECORDS then Some(SnapshotTooLarge)
    else None
  }

  /** The whole exchange as it runs against the durable stores: nothing of one that is not meant for this
      project and version or is too large; the catalog records; and, only if none was refused, the
      desired-state records. */
  method ReceiveExchange(catalog: OperationLog<string, Record>, desired: OperationLog<string, Desired.Wish>,
                         e: Exchange, scope: Scope, members: map<string, Member>, digest: Record -> nat,
                         wishDigest: Desired.Wish -> nat, source: Source) returns (ok: bool)
    modifies catalog, desired
    ensures var first := ApplyExchange(StoreRules(scope, members, digest), old(catalog.Contents()), Peer(source),
                                       e.operations, |e.operations|);
            var second := ApplyExchange(Desired.StoreRules(scope, members, wishDigest), old(desired.Contents()),
                                        Peer(source), e.desired, |e.desired|);
            if && e.projectId == scope.projectId && e.recoveryEpoch == scope.recoveryEpoch
               && e.protocolVersion == 1 && e.schemaVersion == 2 && |e.operations| <= 4096 && |e.desired| <= 1024
            then
              && catalog.Contents() == first.host
              && ok == (first.ok && second.ok)
              && desired.Contents() == if first.ok then second.host else old(desired.Contents())
            else !ok && catalog.Contents() == old(catalog.Contents()) && desired.Contents() == old(desired.Contents())
  {
    if ValidateExchange(e, scope).Some? { return false; }
    ok := ApplyRecords(catalog, StoreRules(scope, members, digest), Peer(source), e.operations);
    if !ok { return false; }
    ok := ApplyRecords(desired, Desired.StoreRules(scope, members, wishDigest), Peer(source), e.desired);
  }

  // ----- local commits -----

  ghost function Greatest(s: set<nat>): nat {
    if s == {} then 0 else
      var x :| x in s;
      var rest := Greatest(s - {x});
      if x > rest then x else rest
  }

  lemma {:induction false} GreatestIsMaximum(s: set<nat>)
    ensures forall x :: x in s ==> x <= Greatest(s)
    ensures s != {} ==> Greatest(s) in s
  {
    if s != {} {
      GreatestStep(s);
      var x :| x in s && Greatest(s) == if x > Greatest(s - {x}) then x else Greatest(s - {x});
      GreatestIsMaximum(s - {x});
      forall y | y in s ensures y <= Greatest(s) {
        if y != x { assert y in s - {x}; }
      }
    }
  }

  lemma GreatestStep(s: set<nat>)
    requires s != {}
    ensures exists x :: x in s && Greatest(s) == if x > Greatest(s - {x}) then x else Greatest(s - {x})
  {
  }

  function Revisions(table: map<string, Record>, replica: string): set<nat> {
    set d | d in table && table[d].replicaId == replica :: table[d].revision
  }

  /** One above the greatest revision known for the replica, saturating at the width of the field. */
  ghost function NextRevision(table: map<string, Record>, replica: string): nat {
    var top := Greatest(Revisions(table, replica));
    if top >= U64_MAX then U64_MAX else top + 1
  }

  /** What `CatalogCommit` writes on `node`, or nothing when the node is unknown or the replica is
      fenced to another owner. */
  ghost function CommitRecord(w: World, table: map<string, Record>, node: string, draft: Record): Option<Record> {
    if node !in w.members then None
    else if exists d :: d in table && table[d].replicaId == draft.replicaId && table[d].ownerNodeId != node
                        && table[d].ownerEpoch >= w.members[node].ownerEpoch then None
    else Some(draft.(
      projectId := w.scope.projectId, recoveryEpoch := w.scope.recoveryEpoch,
      protocolVersion := CATALOG_PROTOCOL_VERSION, schemaVersion := CATALOG_SCHEMA_VERSION,
      ownerNodeId := node, ownerEpoch := w.members[node].ownerEpoch,
      revision := NextRevision(table, draft.replicaId)))
  }

  /** What local recovery writes for a deployment it owns: the record it read earlier, under a new
      revision, state and health. */
  ghost function RestateRecord(table: map<string, Record>, original: Record, state: DeploymentState, health: Health)
    : Record
  {
    original.(revision := NextRevision(table, original.replicaId), state := state, health := health)
  }

  // ----- steps -----

  datatype Step =
    | Commit(node: string, draft: Record)
    | Restate(node: string, original: Record, state: DeploymentState, health: Health)
    | Send(node: string, listing: seq<Record>)
    | Receive(node: string, message: Message, budget: nat)
    | CompactHost(node: string)

  ghost function WriteLocally(rules: Rules<string, Record>, c: Cluster, n: string, r: Record): Cluster
    requires n in c.hosts && n in c.committed
  {
    var verdict := Submit(rules, c.hosts[n], Local, r);
    c.(hosts := c.hosts[n := Write(rules, c.hosts[n], r, verdict)],
       committed := if verdict.Applied? || verdict.Superseded?
                    then c.committed[n := c.committed[n] + {r}] else c.committed,
       published := if verdict.Applied? then c.published + {r} else c.published)
  }

  /** The sender's own winners, each once, in whatever order the table lists them. */
  ghost predicate IsSnapshot(s: Host, node: string, listing: seq<Record>) {
    && |listing| <= MAX_CATALOG_RECORDS
    && (forall r :: r in listing <==> r in s.table.Values && r.ownerNodeId == node)
    && (forall i, j :: 0 <= i < j < |listing| ==> listing[i].deploymentId != listing[j].deploymentId)
  }

  /** One step of the cluster; a step that is not possible changes nothing. */
  ghost function Next(w: World, rules: Rules<string, Record>, c: Cluster, step: Step): Cluster
    requires c.hosts.Keys == c.committed.Keys
  {
    if step.node !in c.hosts then c
    else match step
      case Commit(n, draft) =>
        var r := CommitRecord(w, c.hosts[n].table, n, draft);
        if r.Some? && Tied(w, r.value) then WriteLocally(rules, c, n, r.value) else c
      case Restate(n, original, state, health) =>
        if original in c.published && original.ownerNodeId == n
        then WriteLocally(rules, c, n, RestateRecord(c.hosts[n].table, original, state, health))
        else c
      case Send(n, listing) =>
        if IsSnapshot(c.hosts[n], n, listing) then c.(sent := c.sent + {Message(n, listing)}) else c
      case Receive(n, message, budget) =>
        if message in c.sent && message.sender in w.members
        then c.(hosts := c.hosts[n := ApplyExchange(rules, c.hosts[n],
                                                    Peer(V4(w.members[message.sender].managementAddress)),
                                                    message.records, budget).host])
        else c
      case CompactHost(n) => c.(hosts := c.hosts[n := Compact(c.hosts[n])])
  }

  ghost function Start(nodes: set<string>): Cluster {
    Cluster(map n | n in nodes :: Store([], map[]), map n | n in nodes :: {}, {}, {})
  }

  ghost function After(w: World, rules: Rules<string, Record>, nodes: set<string>, steps: seq<Step>): (c: Cluster)
    ensures c.hosts.Keys == c.committed.Keys
  {
    if steps == [] then Start(nodes)
    else Next(w, rules, After(w, rules, nodes, steps[..|steps|-1]), steps[|steps|-1])
  }

  // ----- the invariant -----

  /** What the proofs use of the catalog rules. */
  ghost predicate CatalogLike(rules: Rules<string, Record>) {
    && Lawful(rules) && FencesTombstones(rules)
    && Ranked(rules)
    && (forall m, r :: rules.early(m, r) == StaleOwner(m, r))
    && (forall m, r :: rules.late(m, r).None? <==> Resurrection(m, r).None? && Fits(r))
  }

  ghost predicate Ranked(rules: Rules<string, Record>) {
    && (forall r :: rules.slot(r) == r.deploymentId)
    && (forall r :: rules.rank(r).epoch == r.ownerEpoch && rules.rank(r).tomb == r.state.Tombstoned?)
  }

  lemma HostRulesAreCatalogLike(w: World)
    requires Injective(w.digest)
    ensures CatalogLike(HostRules(w))
  {
    CatalogRulesAreLawful(w.scope, w.members, w.digest);
    BoundedIsLawful(CatalogRules(w.scope, w.members, w.digest), (r: Record) => Fits(r));
  }

  ghost predicate HostsConsistent(rules: Rules<string, Record>, hosts: map<string, Host>) {
    forall n :: n in hosts ==> Consistent(rules, hosts[n])
  }

  /** Every logged record was committed locally by the owner it claims. */
  ghost predicate LogsAreOwned(w: World, hosts: map<string, Host>, committed: map<string, set<Record>>) {
    forall n, r :: n in hosts && r in hosts[n].log ==>
      Tied(w, r) && r.ownerNodeId in committed && r in committed[r.ownerNodeId]
  }

  /** An owner's own winner is at or above everything it ever committed. */
  ghost predicate CommitsAreCovered(w: World, rules: Rules<string, Record>, hosts: map<string, Host>,
                                    committed: map<string, set<Record>>) {
    forall n, r :: n in committed && r in committed[n] ==> IsCoveredAt(w, rules, hosts, n, r)
  }

  ghost predicate IsCoveredAt(w: World, rules: Rules<string, Record>, hosts: map<string, Host>, n: string, r: Record) {
    Tied(w, r) && r.ownerNodeId == n && n in hosts && Covered(rules, hosts[n].table, r)
  }

  ghost predicate HasWinner(hosts: map<string, Host>, n: string, d: string) {
    n in hosts && d in hosts[n].table
  }

  ghost predicate WinnersArePublished(hosts: map<string, Host>, published: set<Record>) {
    forall n, d {:trigger HasWinner(hosts, n, d)} :: HasWinner(hosts, n, d) ==> hosts[n].table[d] in published
  }

  /** A published tombstone still fences its epoch on its owner. */
  ghost predicate Fenced(table: map<string, Record>, r: Record) {
    (r.deploymentId in table && r.state.Tombstoned? && table[r.deploymentId].ownerEpoch == r.ownerEpoch)
    ==> table[r.deploymentId].state.Tombstoned?
  }

  ghost predicate PublishedIsCommitted(rules: Rules<string, Record>, hosts: map<string, Host>,
                                       committed: map<string, set<Record>>, published: set<Record>) {
    forall r :: r in published ==>
      && r.ownerNodeId in committed && r in committed[r.ownerNodeId]
      && r.ownerNodeId in hosts && Fenced(hosts[r.ownerNodeId].table, r)
      && rules.check(Verified, r).None? && Fits(r)
  }

  ghost predicate IsFromOwner(m: Message, published: set<Record>) {
    && (forall r :: r in m.records ==> r in published && r.ownerNodeId == m.sender)
    && (forall i, j :: 0 <= i < j < |m.records| ==> m.records[i].deploymentId != m.records[j].deploymentId)
  }

  ghost predicate MessagesAreFromOwners(sent: set<Message>, published: set<Record>) {
    forall m :: m in sent ==> IsFromOwner(m, published)
  }

  ghost predicate Inv(w: World, rules: Rules<string, Record>, c: Cluster) {
    && c.hosts.Keys == c.committed.Keys
    && HostsConsistent(rules, c.hosts)
    && LogsAreOwned(w, c.hosts, c.committed)
    && CommitsAreCovered(w, rules, c.hosts, c.committed)
    && WinnersArePublished(c.hosts, c.published)
    && PublishedIsCommitted(rules, c.hosts, c.committed, c.published)
    && MessagesAreFromOwners(c.sent, c.published)
    && NoneAboveTombstone(rules, c.published)
  }

  /** What a host may become when one record is offered to it, or when it compacts: nothing is logged
      but what was and the record, no winner falls, and a new winner can only be the record. */
  ghost predicate Evolves(rules: Rules<string, Record>, s: Host, s': Host, r: Record, verdict: Verdict) {
    && (forall x :: x in s'.log ==> x in s.log || (x == r && (verdict.Applied? || verdict.Superseded?)))
    && Advances(rules, s.table, s'.table)
    && (forall d :: d in s'.table ==>
          (d in s.table && s'.table[d] == s.table[d]) || (verdict.Applied? && d == r.deploymentId))
    && (verdict.Applied? ==>
          r.deploymentId in s'.table && s'.table[r.deploymentId] == r && !Covered(rules, s.table, r) && Fits(r))
    && (verdict.Applied? || verdict.Superseded? ==> Covered(rules, s'.table, r) && rules.check(Verified, r).None?)
  }

  lemma WriteEvolves(rules: Rules<string, Record>, s: Host, p: Provenance, r: Record)
    requires CatalogLike(rules) && Consistent(rules, s)
    ensures Evolves(rules, s, Write(rules, s, r, Submit(rules, s, p, r)), r, Submit(rules, s, p, r))
  {
    var verdict := Submit(rules, s, p, r);
    if r in s.log {
      assert Write(rules, s, r, verdict) == s;
    } else {
      SubmitIsJudge(rules, s, p, r);
      AbsorbAdvances(rules, View(s.table, Elems(s.log)), p, r);
      assert verdict.Applied? ==> rules.late(s.table, r).None?;
    }
  }

  lemma CompactEvolves(rules: Rules<string, Record>, s: Host, r: Record)
    requires CatalogLike(rules) && Consistent(rules, s)
    ensures Evolves(rules, s, Compact(s), r, Duplicate)
  {
    KeepIsFilter(s.log, s.table.Values);
    forall x | x in Compact(s).log ensures x in s.log {
      assert x in Elems(Compact(s).log);
    }
  }

  lemma CoveredStays(rules: Rules<string, Record>, s: Host, s': Host, x: Record)
    requires Ranked(rules) && Advances(rules, s.table, s'.table) && Covered(rules, s.table, x)
    ensures Covered(rules, s'.table, x)
    ensures Fenced(s.table, x) ==> Fenced(s'.table, x)
  {
  }

  /** An owner never makes a live record a winner above its own tombstone of the same epoch. */
  lemma PublishingRespectsTombstones(w: World, rules: Rules<string, Record>, c: Cluster, n: string, r: Record)
    requires Ranked(rules) && CommitsAreCovered(w, rules, c.hosts, c.committed)
    requires PublishedIsCommitted(rules, c.hosts, c.committed, c.published) && NoneAboveTombstone(rules, c.published)
    requires n in c.hosts && r.ownerNodeId == n && Tied(w, r)
    requires !Covered(rules, c.hosts[n].table, r) && Resurrection(c.hosts[n].table, r).None?
    ensures NoneAboveTombstone(rules, c.published + {r})
  {
    var table := c.hosts[n].table;
    forall x | x in c.published && x.deploymentId == r.deploymentId && x.ownerEpoch == r.ownerEpoch
      ensures Less(rules.rank(x), rules.rank(r))
      ensures x.state.Tombstoned? ==> r.state.Tombstoned?
    {
      assert x in c.committed[n];
      assert Covered(rules, table, x) && Fenced(table, x);
      NewWinnerIsAbove(rules, table, x, r);
    }
    OneMoreAbove(rules, c.published, r);
  }

  lemma NewWinnerIsAbove(rules: Rules<string, Record>, table: map<string, Record>, x: Record, r: Record)
    requires Ranked(rules) && Covered(rules, table, x) && Fenced(table, x)
    requires !Covered(rules, table, r) && Resurrection(table, r).None?
    requires x.deploymentId == r.deploymentId && x.ownerEpoch == r.ownerEpoch
    ensures Less(rules.rank(x), rules.rank(r))
    ensures x.state.Tombstoned? ==> r.state.Tombstoned?
  {
  }

  lemma OneMoreAbove(rules: Rules<string, Record>, published: set<Record>, r: Record)
    requires NoneAboveTombstone(rules, published)
    requires forall x :: x in published && x.deploymentId == r.deploymentId && x.ownerEpoch == r.ownerEpoch ==>
               Less(rules.rank(x), rules.rank(r)) && (x.state.Tombstoned? ==> r.state.Tombstoned?)
    ensures NoneAboveTombstone(rules, published + {r})
  {
  }

  /** The cluster after host `n` evolved on a record; `local` when the node itself committed it. */
  ghost function Evolve(c: Cluster, n: string, s': Host, r: Record, verdict: Verdict, local: bool): Cluster
    requires n in c.committed
  {
    c.(hosts := c.hosts[n := s'],
       committed := if local && (verdict.Applied? || verdict.Superseded?)
                    then c.committed[n := c.committed[n] + {r}] else c.committed,
       published := if local && verdict.Applied? then c.published + {r} else c.published)
  }

  /** The record is the node's own commit, or one some owner published. */
  ghost predicate Admissible(w: World, c: Cluster, n: string, r: Record, verdict: Verdict, local: bool) {
    if local then r.ownerNodeId == n && Tied(w, r)
    else verdict.Applied? || verdict.Superseded? ==> r in c.published
  }

  lemma EvolveKeepsLogs(w: World, rules: Rules<string, Record>, c: Cluster, n: string, s': Host, r: Record,
                        verdict: Verdict, local: bool)
    requires n in c.hosts && n in c.committed && Evolves(rules, c.hosts[n], s', r, verdict)
    requires Admissible(w, c, n, r, verdict, local)
    requires LogsAreOwned(w, c.hosts, c.committed) && CommitsAreCovered(w, rules, c.hosts, c.committed)
    requires PublishedIsCommitted(rules, c.hosts, c.committed, c.published)
    ensures var c' := Evolve(c, n, s', r, verdict, local); LogsAreOwned(w, c'.hosts, c'.committed)
  {
  }

  lemma EvolveKeepsCommits(w: World, rules: Rules<string, Record>, c: Cluster, n: string, s': Host, r: Record,
                           verdict: Verdict, local: bool)
    requires Ranked(rules) && n in c.hosts && n in c.committed && Evolves(rules, c.hosts[n], s', r, verdict)
    requires Admissible(w, c, n, r, verdict, local) && CommitsAreCovered(w, rules, c.hosts, c.committed)
    ensures var c' := Evolve(c, n, s', r, verdict, local); CommitsAreCovered(w, rules, c'.hosts, c'.committed)
  {
    AdvanceKeepsCommits(w, rules, c.hosts, c.committed, n, s');
    if local && (verdict.Applied? || verdict.Superseded?) {
      CommitIsCovered(w, rules, c.hosts[n := s'], c.committed, n, r);
    }
  }

  lemma AdvanceKeepsCommits(w: World, rules: Rules<string, Record>, hosts: map<string, Host>,
                            committed: map<string, set<Record>>, n: string, s': Host)
    requires Ranked(rules) && n in hosts && Advances(rules, hosts[n].table, s'.table)
    requires CommitsAreCovered(w, rules, hosts, committed)
    ensures CommitsAreCovered(w, rules, hosts[n := s'], committed)
  {
    var hosts' := hosts[n := s'];
    forall m, x | m in committed && x in committed[m]
      ensures IsCoveredAt(w, rules, hosts', m, x)
    {
      assert IsCoveredAt(w, rules, hosts, m, x);
      if m == n { CoveredStays(rules, hosts[n], s', x); }
    }
  }

  lemma CommitIsCovered(w: World, rules: Rules<string, Record>, hosts: map<string, Host>,
                        committed: map<string, set<Record>>, n: string, r: Record)
    requires CommitsAreCovered(w, rules, hosts, committed) && n in hosts && n in committed
    requires Tied(w, r) && r.ownerNodeId == n && Covered(rules, hosts[n].table, r)
    ensures CommitsAreCovered(w, rules, hosts, committed[n := committed[n] + {r}])
  {
    var committed' := committed[n := committed[n] + {r}];
    forall m, x | m in committed' && x in committed'[m]
      ensures IsCoveredAt(w, rules, hosts, m, x)
    {
      if !(m == n && x == r) { assert x in committed[m] && IsCoveredAt(w, rules, hosts, m, x); }
    }
  }

  lemma EvolveKeepsPublished(w: World, rules: Rules<string, Record>, c: Cluster, n: string, s': Host, r: Record,
                             verdict: Verdict, local: bool)
    requires Ranked(rules) && n in c.hosts && n in c.committed && Evolves(rules, c.hosts[n], s', r, verdict)
    requires Admissible(w, c, n, r, verdict, local)
    requires CommitsAreCovered(w, rules, c.hosts, c.committed)
    requires PublishedIsCommitted(rules, c.hosts, c.committed, c.published)
    ensures var c' := Evolve(c, n, s', r, verdict, local);
            PublishedIsCommitted(rules, c'.hosts, c'.committed, c'.published)
  {
    var c' := Evolve(c, n, s', r, verdict, local);
    forall x | x in c'.published
      ensures x.ownerNodeId in c'.committed && x in c'.committed[x.ownerNodeId] && x.ownerNodeId in c'.hosts
      ensures rules.check(Verified, x).None? && Fits(x)
      ensures Fenced(c'.hosts[x.ownerNodeId].table, x)
    {
      if x in c.published && x.ownerNodeId == n {
        CoveredStays(rules, c.hosts[n], s', x);
      }
    }
  }

  lemma EvolveKeepsWinners(w: World, rules: Rules<string, Record>, c: Cluster, n: string, s': Host, r: Record,
                           verdict: Verdict, local: bool)
    requires n in c.hosts && n in c.committed && Evolves(rules, c.hosts[n], s', r, verdict)
    requires Admissible(w, c, n, r, verdict, local) && WinnersArePublished(c.hosts, c.published)
    ensures var c' := Evolve(c, n, s', r, verdict, local); WinnersArePublished(c'.hosts, c'.published)
  {
    var c' := Evolve(c, n, s', r, verdict, local);
    forall m, d | HasWinner(c'.hosts, m, d) ensures c'.hosts[m].table[d] in c'.published {
      if HasWinner(c.hosts, m, d) { assert c.hosts[m].table[d] in c.published; }
    }
  }

  lemma EvolveKeepsRest(rules: Rules<string, Record>, c: Cluster, n: string, s': Host, r: Record, verdict: Verdict,
                        local: bool)
    requires n in c.hosts && n in c.committed && Consistent(rules, s')
    requires HostsConsistent(rules, c.hosts) && MessagesAreFromOwners(c.sent, c.published)
    ensures var c' := Evolve(c, n, s', r, verdict, local);
            HostsConsistent(rules, c'.hosts) && MessagesAreFromOwners(c'.sent, c'.published)
  {
  }

  lemma EvolveKeepsInv(w: World, rules: Rules<string, Record>, c: Cluster, n: string, s': Host, r: Record,
                       verdict: Verdict, local: bool)
    requires Ranked(rules) && Inv(w, rules, c) && n in c.hosts
    requires Consistent(rules, s') && Evolves(rules, c.hosts[n], s', r, verdict)
    requires Admissible(w, c, n, r, verdict, local)
    requires local && verdict.Applied? ==> NoneAboveTombstone(rules, c.published + {r})
    ensures Inv(w, rules, Evolve(c, n, s', r, verdict, local))
  {
    EvolveKeepsLogs(w, rules, c, n, s', r, verdict, local);
    EvolveKeepsCommits(w, rules, c, n, s', r, verdict, local);
    EvolveKeepsPublished(w, rules, c, n, s', r, verdict, local);
    EvolveKeepsWinners(w, rules, c, n, s', r, verdict, local);
    EvolveKeepsRest(rules, c, n, s', r, verdict, local);
  }

  lemma LocalWriteKeepsInv(w: World, rules: Rules<string, Record>, c: Cluster, n: string, r: Record)
    requires CatalogLike(rules) && Inv(w, rules, c) && n in c.hosts && r.ownerNodeId == n && Tied(w, r)
    ensures Inv(w, rules, WriteLocally(rules, c, n, r))
  {
    var s, verdict := c.hosts[n], Submit(rules, c.hosts[n], Local, r);
    WriteKeepsConsistent(rules, s, Local, r);
    WriteEvolves(rules, s, Local, r);
    if verdict.Applied? {
      PublishingRespectsTombstones(w, rules, c, n, r);
    }
    EvolveKeepsInv(w, rules, c, n, Write(rules, s, r, verdict), r, verdict, true);
  }

  ghost function WithHost(c: Cluster, n: string, s: Host): Cluster {
    c.(hosts := c.hosts[n := s])
  }

  lemma PeerRecordKeepsInv(w: World, rules: Rules<string, Record>, c: Cluster, n: string, p: Provenance, r: Record)
    requires CatalogLike(rules) && Inv(w, rules, c) && n in c.hosts && r in c.published
    ensures Inv(w, rules, WithHost(c, n, Write(rules, c.hosts[n], r, Submit(rules, c.hosts[n], p, r))))
  {
    WriteKeepsConsistent(rules, c.hosts[n], p, r);
    WriteEvolves(rules, c.hosts[n], p, r);
    var verdict := Submit(rules, c.hosts[n], p, r);
    EvolveKeepsInv(w, rules, c, n, Write(rules, c.hosts[n], r, verdict), r, verdict, false);
  }

  /** What every offered record keeps, an exchange keeps. */
  lemma {:induction false} ExchangeKeeps(
      rules: Rules<string, Record>, s: Host, p: Provenance, records: seq<Record>, budget: nat, keeps: Host -> bool)
    requires keeps(s)
    requires forall t, r :: keeps(t) && r in records ==> keeps(Write(rules, t, r, Submit(rules, t, p, r)))
    ensures keeps(ApplyExchange(rules, s, p, records, budget).host)
    decreases |records|
  {
    if records != [] && budget != 0 && !Submit(rules, s, p, records[0]).Rejected? {
      var s' := Write(rules, s, records[0], Submit(rules, s, p, records[0]));
      ExchangeKeeps(rules, s', p, records[1..], budget - 1, keeps);
    }
  }

  lemma LastHostStays(c: Cluster, n: string, s: Host, s': Host)
    ensures WithHost(WithHost(c, n, s), n, s') == WithHost(c, n, s')
  {
    assert c.hosts[n := s][n := s'] == c.hosts[n := s'];
  }

  ghost predicate InvWith(w: World, rules: Rules<string, Record>, c: Cluster, n: string, s: Host) {
    Inv(w, rules, WithHost(c, n, s))
  }

  lemma OfferKeepsInv(w: World, rules: Rules<string, Record>, c: Cluster, n: string, s: Host, p: Provenance, r: Record)
    requires CatalogLike(rules) && InvWith(w, rules, c, n, s) && r in c.published
    ensures InvWith(w, rules, c, n, Write(rules, s, r, Submit(rules, s, p, r)))
  {
    LastHostStays(c, n, s, Write(rules, s, r, Submit(rules, s, p, r)));
    PeerRecordKeepsInv(w, rules, WithHost(c, n, s), n, p, r);
  }

  lemma ExchangeKeepsInv(
      w: World, rules: Rules<string, Record>, c: Cluster, n: string, p: Provenance, records: seq<Record>, budget: nat)
    requires CatalogLike(rules) && Inv(w, rules, c) && n in c.hosts
    requires forall r :: r in records ==> r in c.published
    ensures Inv(w, rules, WithHost(c, n, ApplyExchange(rules, c.hosts[n], p, records, budget).host))
  {
    var keeps := (s: Host) => InvWith(w, rules, c, n, s);
    assert keeps(c.hosts[n]) by { assert WithHost(c, n, c.hosts[n]) == c; }
    forall s, r | keeps(s) && r in records ensures keeps(Write(rules, s, r, Submit(rules, s, p, r))) {
      OfferKeepsInv(w, rules, c, n, s, p, r);
    }
    ExchangeKeeps(rules, c.hosts[n], p, records, budget, keeps);
  }

  lemma CompactKeepsInv(w: World, rules: Rules<string, Record>, c: Cluster, n: string)
    requires CatalogLike(rules) && Inv(w, rules, c) && n in c.hosts
    ensures Inv(w, rules, WithHost(c, n, Compact(c.hosts[n])))
  {
    var r: Record :| true;
    CompactionKeepsConsistent(rules, c.hosts[n]);
    CompactEvolves(rules, c.hosts[n], r);
    EvolveKeepsInv(w, rules, c, n, Compact(c.hosts[n]), r, Duplicate, false);
  }

  lemma RestateKeepsInv(w: World, rules: Rules<string, Record>, c: Cluster, n: string, original: Record, r: Record)
    requires CatalogLike(rules) && Inv(w, rules, c) && n in c.hosts
    requires original in c.published && original.ownerNodeId == n
    requires r.ownerNodeId == n && r.deploymentId == original.deploymentId && r.replicaId == original.replicaId
    ensures Inv(w, rules, WriteLocally(rules, c, n, r))
  {
    assert Tied(w, original) by { assert original in c.committed[n]; }
    LocalWriteKeepsInv(w, rules, c, n, r);
  }

  lemma SendKeepsInv(w: World, rules: Rules<string, Record>, c: Cluster, n: string, listing: seq<Record>)
    requires Inv(w, rules, c) && n in c.hosts && IsSnapshot(c.hosts[n], n, listing)
    ensures Inv(w, rules, c.(sent := c.sent + {Message(n, listing)}))
  {
    forall r | r in listing ensures r in c.published {
      var d :| d in c.hosts[n].table && c.hosts[n].table[d] == r;
      assert HasWinner(c.hosts, n, d);
    }
    assert IsFromOwner(Message(n, listing), c.published);
  }

  lemma NextKeepsInv(w: World, rules: Rules<string, Record>, c: Cluster, step: Step)
    requires CatalogLike(rules) && Inv(w, rules, c)
    ensures Inv(w, rules, Next(w, rules, c, step))
  {
    if Next(w, rules, c, step) != c {
      var n := step.node;
      match step
      case Commit(_, draft) =>
        LocalWriteKeepsInv(w, rules, c, n, CommitRecord(w, c.hosts[n].table, n, draft).value);
      case Restate(_, original, state, health) =>
        RestateKeepsInv(w, rules, c, n, original, RestateRecord(c.hosts[n].table, original, state, health));
      case Send(_, listing) => SendKeepsInv(w, rules, c, n, listing);
      case Receive(_, m, budget) =>
        ExchangeKeepsInv(w, rules, c, n, Peer(V4(w.members[m.sender].managementAddress)), m.records, budget);
      case CompactHost(_) => CompactKeepsInv(w, rules, c, n);
    }
  }

  lemma {:induction false} EveryRunKeepsInv(w: World, rules: Rules<string, Record>, nodes: set<string>,
                                            steps: seq<Step>)
    requires CatalogLike(rules)
    ensures Inv(w, rules, After(w, rules, nodes, steps))
  {
    if steps != [] {
      EveryRunKeepsInv(w, rules, nodes, steps[..|steps|-1]);
      NextKeepsInv(w, rules, After(w, rules, nodes, steps[..|steps|-1]), steps[|steps|-1]);
    }
  }

  // ----- safety -----

  /** Over every run: every record in any node's log was committed locally by the owner it claims, and
      no node's winner for a deployment ranks above the owner's own winner. */
  lemma OwnersAreAuthoritative(w: World, nodes: set<string>, steps: seq<Step>, n: string)
    requires Injective(w.digest)
    requires n in After(w, HostRules(w), nodes, steps).hosts
    ensures var rules := HostRules(w);
            var c := After(w, rules, nodes, steps);
            && (forall r :: r in c.hosts[n].log ==> r.ownerNodeId in c.committed && r in c.committed[r.ownerNodeId])
            && (forall d :: d in c.hosts[n].table ==>
                  && w.owner(d) in c.hosts && d in c.hosts[w.owner(d)].table
                  && AtMost(rules.rank(c.hosts[n].table[d]), rules.rank(c.hosts[w.owner(d)].table[d])))
  {
    var rules := HostRules(w);
    HostRulesAreCatalogLike(w);
    EveryRunKeepsInv(w, rules, nodes, steps);
    var c := After(w, rules, nodes, steps);
    forall d | d in c.hosts[n].table
      ensures w.owner(d) in c.hosts && d in c.hosts[w.owner(d)].table
      ensures AtMost(rules.rank(c.hosts[n].table[d]), rules.rank(c.hosts[w.owner(d)].table[d]))
    {
      var r := c.hosts[n].table[d];
      TableIsMaximum(rules, c.hosts[n]);
      assert r in c.committed[r.ownerNodeId];
      assert Covered(rules, c.hosts[r.ownerNodeId].table, r);
    }
  }

  // ----- progress: exactly when an exchange succeeds -----

  /** No record that is new to the receiver belongs to a replica which the receiver, or the part of
      the snapshot before it, knows at a higher owner epoch. */
  ghost predicate NoneStale(s: Host, records: seq<Record>) {
    forall i :: 0 <= i < |records| && records[i] !in s.log ==>
      && !Stale(s.table, records[i])
      && forall j :: 0 <= j < i && records[j].replicaId == records[i].replicaId ==>
           records[j].ownerEpoch <= records[i].ownerEpoch
  }

  /** A receiver and a snapshot as every run produces them. */
  ghost predicate Ready(w: World, rules: Rules<string, Record>, published: set<Record>, s: Host, p: Provenance,
                        records: seq<Record>) {
    && Consistent(rules, s)
    && NoneAboveTombstone(rules, published)
    && (forall r :: r in published ==> Tied(w, r) && Fits(r))
    && (forall d :: d in s.table ==> s.table[d] in published && s.table[d].deploymentId == d)
    && (forall r :: r in records ==> r in published && rules.check(p, r).None?)
    && (forall i, j :: 0 <= i < j < |records| ==> records[i].deploymentId != records[j].deploymentId)
  }

  lemma OfferedIsRefusedIff(w: World, rules: Rules<string, Record>, published: set<Record>, s: Host, p: Provenance,
                            records: seq<Record>)
    requires CatalogLike(rules) && Ready(w, rules, published, s, p, records) && records != []
    ensures Submit(rules, s, p, records[0]).Rejected? <==> records[0] !in s.log && Stale(s.table, records[0])
    ensures !Submit(rules, s, p, records[0]).Rejected? ==>
              Covered(rules, Write(rules, s, records[0], Submit(rules, s, p, records[0])).table, records[0])
  {
    var r := records[0];
    if r.deploymentId in s.table {
      assert Tied(w, s.table[r.deploymentId]) && Tied(w, r);
    }
    if r in s.log {
      TableIsMaximum(rules, s);
      assert r in Elems(s.log);
    }
  }

  lemma OfferedStaysReady(w: World, rules: Rules<string, Record>, published: set<Record>, s: Host, p: Provenance,
                          records: seq<Record>)
    requires CatalogLike(rules) && Ready(w, rules, published, s, p, records) && records != []
    ensures Ready(w, rules, published, Write(rules, s, records[0], Submit(rules, s, p, records[0])), p, records[1..])
  {
    WriteKeepsConsistent(rules, s, p, records[0]);
    WriteEvolves(rules, s, p, records[0]);
  }

  /** Writing a snapshot's first record makes stale, among records of other deployments, exactly what
      that record outdates. */
  lemma StaleAfterFirst(w: World, rules: Rules<string, Record>, s: Host, s': Host, first: Record, verdict: Verdict,
                        r: Record)
    requires Ranked(rules) && Evolves(rules, s, s', first, verdict)
    requires forall d :: d in s.table ==> Tied(w, s.table[d]) && s.table[d].deploymentId == d
    requires Tied(w, first) && Covered(rules, s'.table, first)
    requires forall d :: d in s'.table ==> Tied(w, s'.table[d]) && s'.table[d].deploymentId == d
    ensures Stale(s'.table, r) <==>
              Stale(s.table, r) || (first.replicaId == r.replicaId && r.ownerEpoch < first.ownerEpoch)
  {
    if Stale(s.table, r) {
      var d :| d in s.table && s.table[d].replicaId == r.replicaId && r.ownerEpoch < s.table[d].ownerEpoch;
      assert d in s'.table && s'.table[d].ownerEpoch >= s.table[d].ownerEpoch;
      assert Tied(w, s.table[d]) && Tied(w, s'.table[d]);
    }
    if first.replicaId == r.replicaId && r.ownerEpoch < first.ownerEpoch {
      var d := first.deploymentId;
      assert d in s'.table && s'.table[d].ownerEpoch >= first.ownerEpoch && Tied(w, s'.table[d]);
    }
  }

  /** The condition for the whole snapshot is the condition for its first record and, after that is
      written, for the rest. */
  lemma NoneStaleUnfolds(s: Host, s': Host, records: seq<Record>)
    requires records != [] && (records[0] in s.log || !Stale(s.table, records[0]))
    requires forall r :: r in records[1..] ==> (r in s'.log <==> r in s.log)
    requires forall r :: r in records[1..] ==>
               (Stale(s'.table, r) <==>
                 Stale(s.table, r) || (records[0].replicaId == r.replicaId && r.ownerEpoch < records[0].ownerEpoch))
    ensures NoneStale(s, records) <==> NoneStale(s', records[1..])
  {
    var rest := records[1..];
    assert forall i :: 0 <= i < |rest| ==> rest[i] == records[i+1] && rest[i] in rest;
    if NoneStale(s, records) {
      forall i | 0 <= i < |rest| && rest[i] !in s'.log
        ensures !Stale(s'.table, rest[i])
        ensures forall j :: 0 <= j < i && rest[j].replicaId == rest[i].replicaId ==>
                  rest[j].ownerEpoch <= rest[i].ownerEpoch
      {
        assert records[i+1] !in s.log;
      }
    }
    if NoneStale(s', rest) {
      forall i | 0 < i < |records| && records[i] !in s.log
        ensures !Stale(s.table, records[i])
        ensures forall j :: 0 <= j < i && records[j].replicaId == records[i].replicaId ==>
                  records[j].ownerEpoch <= records[i].ownerEpoch
      {
        assert records[i] == rest[i-1];
        forall j | 0 <= j < i && records[j].replicaId == records[i].replicaId
          ensures records[j].ownerEpoch <= records[i].ownerEpoch
        {
          if j > 0 { assert records[j] == rest[j-1]; }
        }
      }
    }
  }

  /** The exchange succeeds exactly when nothing is stale; then the receiver's winner is at or above
      every record sent. */
  ghost predicate SucceedsIffNoneStale(rules: Rules<string, Record>, s: Host, records: seq<Record>,
                                       result: Exchanged<string, Record>) {
    (result.ok <==> NoneStale(s, records)) && Covers(rules, s, records, result)
  }

  ghost predicate Covers(rules: Rules<string, Record>, s: Host, records: seq<Record>,
                         result: Exchanged<string, Record>) {
    && Advances(rules, s.table, result.host.table)
    && (result.ok ==> forall r :: r in records ==> Covered(rules, result.host.table, r))
  }

  lemma CoversFirst(rules: Rules<string, Record>, s: Host, s': Host, records: seq<Record>,
                    result: Exchanged<string, Record>)
    requires Ranked(rules) && records != []
    requires Advances(rules, s.table, s'.table) && Covered(rules, s'.table, records[0])
    requires Covers(rules, s', records[1..], result)
    ensures Covers(rules, s, records, result)
  {
    CoveredStays(rules, s', result.host, records[0]);
    forall x | result.ok && x in records ensures Covered(rules, result.host.table, x) {
      if x != records[0] { assert x in records[1..]; }
    }
  }

  /** Induction over an exchange: `ready` is kept while records are accepted, `good` is decided record
      by record, and `covers` is carried back from the rest to the whole. */
  lemma {:induction false} ExchangeInduction(
      rules: Rules<string, Record>, s: Host, p: Provenance, records: seq<Record>, budget: nat,
      ready: (Host, seq<Record>) -> bool, good: (Host, seq<Record>) -> bool,
      covers: (Host, seq<Record>, Exchanged<string, Record>) -> bool)
    requires ready(s, records) && |records| <= budget
    requires forall t :: good(t, []) && covers(t, [], Exchanged(t, true))
    requires forall t, rs {:trigger Submit(rules, t, p, rs[0])} ::
               ready(t, rs) && rs != [] && Submit(rules, t, p, rs[0]).Rejected? ==>
               !good(t, rs) && covers(t, rs, Exchanged(t, false))
    requires forall t, rs {:trigger Submit(rules, t, p, rs[0])} ::
               ready(t, rs) && rs != [] && !Submit(rules, t, p, rs[0]).Rejected? ==>
               var t' := Write(rules, t, rs[0], Submit(rules, t, p, rs[0]));
               && ready(t', rs[1..]) && (good(t, rs) <==> good(t', rs[1..]))
               && forall x :: covers(t', rs[1..], x) ==> covers(t, rs, x)
    ensures ApplyExchange(rules, s, p, records, budget).ok <==> good(s, records)
    ensures covers(s, records, ApplyExchange(rules, s, p, records, budget))
    decreases |records|
  {
    if records != [] && !Submit(rules, s, p, records[0]).Rejected? {
      var s' := Write(rules, s, records[0], Submit(rules, s, p, records[0]));
      ExchangeInduction(rules, s', p, records[1..], budget - 1, ready, good, covers);
    }
  }

  lemma ExchangeSucceedsIff(w: World, rules: Rules<string, Record>, published: set<Record>, s: Host, p: Provenance,
                            records: seq<Record>)
    requires CatalogLike(rules) && Ready(w, rules, published, s, p, records)
    ensures ApplyExchange(rules, s, p, records, |records|).ok <==> NoneStale(s, records)
    ensures Covers(rules, s, records, ApplyExchange(rules, s, p, records, |records|))
  {
    var ready := (t: Host, rs: seq<Record>) => Ready(w, rules, published, t, p, rs);
    var good := (t: Host, rs: seq<Record>) => NoneStale(t, rs);
    var covers := (t: Host, rs: seq<Record>, x: Exchanged<string, Record>) => Covers(rules, t, rs, x);
    forall t, rs | ready(t, rs) && rs != [] && Submit(rules, t, p, rs[0]).Rejected?
      ensures !good(t, rs) && covers(t, rs, Exchanged(t, false))
    {
      OfferedIsRefusedIff(w, rules, published, t, p, rs);
    }
    forall t, rs | ready(t, rs) && rs != [] && !Submit(rules, t, p, rs[0]).Rejected?
      ensures var t' := Write(rules, t, rs[0], Submit(rules, t, p, rs[0]));
              && ready(t', rs[1..]) && (good(t, rs) <==> good(t', rs[1..]))
              && forall x :: covers(t', rs[1..], x) ==> covers(t, rs, x)
    {
      AcceptedThenRest(w, rules, published, t, p, rs);
    }
    ExchangeInduction(rules, s, p, records, |records|, ready, good, covers);
  }

  lemma AcceptedThenRest(w: World, rules: Rules<string, Record>, published: set<Record>, s: Host, p: Provenance,
                         records: seq<Record>)
    requires CatalogLike(rules) && Ready(w, rules, published, s, p, records) && records != []
    requires !Submit(rules, s, p, records[0]).Rejected?
    ensures var s' := Write(rules, s, records[0], Submit(rules, s, p, records[0]));
            && Ready(w, rules, published, s', p, records[1..])
            && (NoneStale(s, records) <==> NoneStale(s', records[1..]))
            && forall x :: Covers(rules, s', records[1..], x) ==> Covers(rules, s, records, x)
  {
    var s' := Write(rules, s, records[0], Submit(rules, s, p, records[0]));
    ReadyUnfolds(w, rules, published, s, p, records);
    forall x | Covers(rules, s', records[1..], x) ensures Covers(rules, s, records, x) {
      CoversFirst(rules, s, s', records, x);
    }
  }

  lemma ReadyUnfolds(w: World, rules: Rules<string, Record>, published: set<Record>, s: Host, p: Provenance,
                     records: seq<Record>)
    requires CatalogLike(rules) && Ready(w, rules, published, s, p, records) && records != []
    requires !Submit(rules, s, p, records[0]).Rejected?
    ensures var s' := Write(rules, s, records[0], Submit(rules, s, p, records[0]));
            && Ready(w, rules, published, s', p, records[1..])
            && Advances(rules, s.table, s'.table) && Covered(rules, s'.table, records[0])
            && (NoneStale(s, records) <==> NoneStale(s', records[1..]))
  {
    var s' := Write(rules, s, records[0], Submit(rules, s, p, records[0]));
    OfferedIsRefusedIff(w, rules, published, s, p, records);
    OfferedStaysReady(w, rules, published, s, p, records);
    WriteEvolves(rules, s, p, records[0]);
    forall r | r in records[1..]
      ensures r in s'.log <==> r in s.log
      ensures Stale(s'.table, r) <==>
                Stale(s.table, r) || (records[0].replicaId == r.replicaId && r.ownerEpoch < records[0].ownerEpoch)
    {
      StaleAfterFirst(w, rules, s, s', records[0], Submit(rules, s, p, records[0]), r);
    }
    NoneStaleUnfolds(s, s', records);
  }

  lemma ReachableIsReady(w: World, rules: Rules<string, Record>, c: Cluster, n: string, p: Provenance, m: Message)
    requires CatalogLike(rules) && Inv(w, rules, c) && n in c.hosts && m in c.sent
    requires forall r :: r in m.records ==> rules.check(p, r).None?
    ensures Ready(w, rules, c.published, c.hosts[n], p, m.records)
  {
    var s := c.hosts[n];
    TableIsMaximum(rules, s);
    forall d | d in s.table ensures s.table[d] in c.published && s.table[d].deploymentId == d {
      assert HasWinner(c.hosts, n, d);
    }
  }

  lemma OwnersAreAttributed(w: World, c: Cluster, m: Message)
    requires Injective(w.digest) && Keyed(w.members) && UniqueAddresses(w.members)
    requires Inv(w, HostRules(w), c) && m in c.sent && m.sender in w.members
    ensures forall r :: r in m.records ==>
              HostRules(w)
                .check(Peer(V4(w.members[m.sender].managementAddress)), r).None?
  {
    var address := w.members[m.sender].managementAddress;
    UniqueAddressSpeaksForHolder(w.members, address, m.sender);
    forall r | r in m.records ensures Verify(w.scope, w.members, Peer(V4(address)), r).None? {
      assert IsFromOwner(m, c.published);
      assert Verify(w.scope, w.members, Verified, r).None?;
    }
  }

  lemma SingleEpochIsNeverStale(w: World, rules: Rules<string, Record>, published: set<Record>, s: Host,
                                p: Provenance, records: seq<Record>)
    requires Ready(w, rules, published, s, p, records) && SingleEpoch(published)
    ensures NoneStale(s, records)
  {
  }

  lemma ReachableAccepts(w: World, rules: Rules<string, Record>, c: Cluster, n: string, p: Provenance, m: Message)
    requires CatalogLike(rules) && Inv(w, rules, c) && n in c.hosts && m in c.sent
    requires forall r :: r in m.records ==> rules.check(p, r).None?
    ensures var result := ApplyExchange(rules, c.hosts[n], p, m.records, |m.records|);
            && SucceedsIffNoneStale(rules, c.hosts[n], m.records, result)
            && (SingleEpoch(c.published) ==> result.ok)
  {
    ReachableIsReady(w, rules, c, n, p, m);
    ExchangeSucceedsIff(w, rules, c.published, c.hosts[n], p, m.records);
    if SingleEpoch(c.published) {
      SingleEpochIsNeverStale(w, rules, c.published, c.hosts[n], p, m.records);
    }
  }

  /** In every reachable state, applying a peer's snapshot succeeds if and only if none of its records
      is stale, and then leaves the receiver's winner of each sent deployment at or above the sent one.
      In particular it succeeds when every replica is published under a single owner epoch. */
  lemma SnapshotsAreAccepted(w: World, nodes: set<string>, steps: seq<Step>, n: string, m: Message)
    requires Injective(w.digest) && Keyed(w.members) && UniqueAddresses(w.members)
    requires var c := After(w, HostRules(w), nodes, steps);
             n in c.hosts && m in c.sent && m.sender in w.members
    ensures var rules := HostRules(w);
            var c := After(w, rules, nodes, steps);
            var p := Peer(V4(w.members[m.sender].managementAddress));
            var result := ApplyExchange(rules, c.hosts[n], p, m.records, |m.records|);
            && SucceedsIffNoneStale(rules, c.hosts[n], m.records, result)
            && (SingleEpoch(c.published) ==> result.ok)
  {
    var rules := HostRules(w);
    var c := After(w, rules, nodes, steps);
    HostRulesAreCatalogLike(w);
    EveryRunKeepsInv(w, rules, nodes, steps);
    OwnersAreAttributed(w, c, m);
    ReachableAccepts(w, rules, c, n, Peer(V4(w.members[m.sender].managementAddress)), m);
  }

  ghost predicate SingleEpoch(published: set<Record>) {
    forall a, b :: a in published && b in published && a.replicaId == b.replicaId ==> a.ownerEpoch == b.ownerEpoch
  }

  // ----- a snapshot of now synchronises the receiver -----

  lemma HighestBothWays(a: Rank, b: Rank)
    requires AtMost(a, b) && AtMost(b, a)
    ensures a == b
  {
  }

  /** What the receiver of one message becomes is what the next state has. */
  lemma ReceivedWhole(w: World, rules: Rules<string, Record>, nodes: set<string>, steps: seq<Step>, n: string,
                      m: Message)
    requires var c := After(w, rules, nodes, steps); n in c.hosts && m in c.sent && m.sender in w.members
    ensures var c := After(w, rules, nodes, steps);
            var p := Peer(V4(w.members[m.sender].managementAddress));
            After(w, rules, nodes, steps + [Receive(n, m, |m.records|)]).hosts ==
              c.hosts[n := ApplyExchange(rules, c.hosts[n], p, m.records, |m.records|).host]
  {
    AfterOneMore(w, rules, nodes, steps, Receive(n, m, |m.records|));
  }

  /** In every reachable state, once a node has received without refusal what another node would send now,
      it has the same winners as the other for every deployment the other owns, and no more of them. */
  lemma SnapshotSynchronises(w: World, nodes: set<string>, steps: seq<Step>, n: string, a: string, listing: seq<Record>)
    requires Injective(w.digest) && Keyed(w.members) && UniqueAddresses(w.members) && n != a
    requires var c := After(w, HostRules(w), nodes, steps);
             && n in c.hosts && a in c.hosts && a in w.members
             && IsSnapshot(c.hosts[a], a, listing) && Message(a, listing) in c.sent
    ensures var rules := HostRules(w);
            var c := After(w, rules, nodes, steps);
            var p := Peer(V4(w.members[a].managementAddress));
            var result := ApplyExchange(rules, c.hosts[n], p, listing, |listing|);
            result.ok ==>
              forall d :: w.owner(d) == a ==>
                && (d in result.host.table <==> d in c.hosts[a].table)
                && (d in result.host.table ==> result.host.table[d] == c.hosts[a].table[d])
  {
    var rules := HostRules(w);
    var c, m := After(w, rules, nodes, steps), Message(a, listing);
    var result := ApplyExchange(rules, c.hosts[n], Peer(V4(w.members[a].managementAddress)), listing, |listing|);
    var later := steps + [Receive(n, m, |listing|)];
    SnapshotsAreAccepted(w, nodes, steps, n, m);
    ReceivedWhole(w, rules, nodes, steps, n, m);
    OwnersAreAuthoritative(w, nodes, later, n);
    if result.ok {
      forall d | w.owner(d) == a && d in c.hosts[a].table
        ensures d in result.host.table && AtMost(rules.rank(c.hosts[a].table[d]), rules.rank(result.host.table[d]))
      {
        OwnWinnerIsSent(w, nodes, steps, a, listing, d);
      }
      forall d | w.owner(d) == a && d in result.host.table
        ensures d in c.hosts[a].table && result.host.table[d] == c.hosts[a].table[d]
      {
        HighestBothWays(rules.rank(result.host.table[d]), rules.rank(c.hosts[a].table[d]));
        HostRulesAreCatalogLike(w);
      }
    }
  }

  lemma OwnWinnerIsSent(w: World, nodes: set<string>, steps: seq<Step>, a: string, listing: seq<Record>, d: string)
    requires Injective(w.digest)
    requires var c := After(w, HostRules(w), nodes, steps);
             a in c.hosts && d in c.hosts[a].table && w.owner(d) == a && IsSnapshot(c.hosts[a], a, listing)
    ensures var r := After(w, HostRules(w), nodes, steps).hosts[a].table[d];
            r in listing && r.deploymentId == d
  {
    var rules := HostRules(w);
    var c := After(w, rules, nodes, steps);
    HostRulesAreCatalogLike(w);
    EveryRunKeepsInv(w, rules, nodes, steps);
    TableIsMaximum(rules, c.hosts[a]);
    var r := c.hosts[a].table[d];
    assert r in c.hosts[a].table.Values && r in c.hosts[a].log;
    assert Tied(w, r);
  }

  // ----- exactly what a node's own writes do -----

  /** A write of the node's own, one above every revision of the replica: it becomes its deployment's winner if
      and only if it is complete and fits, its replica is not known at a higher epoch, and it revives no
      tombstone; it changes no other row. */
  lemma LocalWriteIff(w: World, s: Host, r: Record)
    requires Injective(w.digest) && Consistent(HostRules(w), s)
    requires r.replicaId == w.replica(r.deploymentId)
    requires forall d :: d in s.table ==> s.table[d].replicaId == w.replica(d)
    requires forall d :: d in s.table && s.table[d].replicaId == r.replicaId ==> s.table[d].revision < r.revision
    ensures Ledger.Step(HostRules(w), s, Apply(Local, r)).table ==
            if Complete(w.scope, r) && Fits(r) && !Stale(s.table, r) && !Resurrects(s.table, r)
            then s.table[r.deploymentId := r] else s.table
  {
    if r in s.log {
      LoggedIsStale(w, s, r);
    } else {
      Catalog.Judged(w.scope, w.members, w.digest, (x: Record) => Fits(x), s, Local, r);
    }
  }

  lemma LoggedIsStale(w: World, s: Host, r: Record)
    requires Injective(w.digest) && Consistent(HostRules(w), s) && r in s.log
    requires r.replicaId == w.replica(r.deploymentId)
    requires forall d :: d in s.table ==> s.table[d].replicaId == w.replica(d)
    requires forall d :: d in s.table && s.table[d].replicaId == r.replicaId ==> s.table[d].revision < r.revision
    ensures Stale(s.table, r)
  {
    var rules := HostRules(w);
    HostRulesAreCatalogLike(w);
    TableIsMaximum(rules, s);
    assert r in Elems(s.log) && Covered(rules, s.table, r);
    assert s.table[r.deploymentId].replicaId == r.replicaId;
  }

  /** The revision is one above the greatest of the replica's rows, or the first. */
  ghost predicate IsNextRevision(table: map<string, Record>, replica: string, revision: nat) {
    && (forall d :: d in table && table[d].replicaId == replica ==> table[d].revision < revision)
    && (revision == 1 || exists d :: d in table && table[d].replicaId == replica && table[d].revision + 1 == revision)
  }

  lemma NextRevisionIsNext(table: map<string, Record>, replica: string)
    requires forall d :: d in table ==> Fits(table[d])
    ensures IsNextRevision(table, replica, NextRevision(table, replica))
  {
    var revisions := Revisions(table, replica);
    GreatestIsMaximum(revisions);
    assert forall d :: d in table && table[d].replicaId == replica ==> table[d].revision in revisions;
    if revisions == {} {
      assert Greatest(revisions) == 0;
    } else {
      var d :| d in table && table[d].replicaId == replica && table[d].revision == Greatest(revisions);
    }
  }

  lemma WinnersAreTied(w: World, nodes: set<string>, steps: seq<Step>, n: string)
    requires Injective(w.digest) && n in After(w, HostRules(w), nodes, steps).hosts
    ensures var s := After(w, HostRules(w), nodes, steps).hosts[n];
            && Consistent(HostRules(w), s)
            && forall d :: d in s.table ==> Tied(w, s.table[d]) && Fits(s.table[d]) && s.table[d].deploymentId == d
  {
    var rules := HostRules(w);
    HostRulesAreCatalogLike(w);
    EveryRunKeepsInv(w, rules, nodes, steps);
    var s := After(w, rules, nodes, steps).hosts[n];
    TableIsMaximum(rules, s);
    WinnersFit(CatalogRules(w.scope, w.members, w.digest), (x: Record) => Fits(x), s.log);
    assert forall d :: d in s.table ==> s.table[d] in Elems(s.log) && s.table[d] in s.log;
  }

  /** The node may commit the draft: it is a member, the draft is complete and tied, no row of the replica is at a
      higher epoch than the node's, or at its epoch under another owner, or at the greatest revision, and the draft
      revives no tombstone. */
  ghost predicate Committable(w: World, table: map<string, Record>, n: string, draft: Record) {
    && n in w.members && n != "" && w.scope.projectId != "" && 0 < w.members[n].ownerEpoch <= I64_MAX
    && draft.service != "" && draft.replicaId != "" && draft.deploymentId != ""
    && w.owner(draft.deploymentId) == n && w.replica(draft.deploymentId) == draft.replicaId
    && (forall d :: d in table && table[d].replicaId == draft.replicaId ==>
          && table[d].ownerEpoch <= w.members[n].ownerEpoch && table[d].revision < I64_MAX
          && (table[d].ownerNodeId != n ==> table[d].ownerEpoch < w.members[n].ownerEpoch))
    && !(&& draft.deploymentId in table && table[draft.deploymentId].state.Tombstoned? && !draft.state.Tombstoned?
         && table[draft.deploymentId].ownerEpoch == w.members[n].ownerEpoch)
  }

  /** The row says what the draft said, in the node's name and epoch and under the next revision. */
  ghost predicate Commits(w: World, table: map<string, Record>, n: string, draft: Record, r: Record) {
    && r.service == draft.service && r.replicaId == draft.replicaId && r.deploymentId == draft.deploymentId
    && r.address == draft.address && r.ports == draft.ports && r.image == draft.image
    && r.state == draft.state && r.health == draft.health
    && n in w.members && r.ownerNodeId == n && r.ownerEpoch == w.members[n].ownerEpoch
    && r.projectId == w.scope.projectId && r.recoveryEpoch == w.scope.recoveryEpoch
    && r.protocolVersion == 1 && r.schemaVersion == 2 && IsNextRevision(table, r.replicaId, r.revision)
  }

  /** In every reachable state a commit changes its node's winners if and only if the node may commit the draft;
      then it writes the draft's row and no other, and nothing on any other node. */
  lemma CommitStepIff(w: World, nodes: set<string>, steps: seq<Step>, n: string, draft: Record)
    requires Injective(w.digest) && n in After(w, HostRules(w), nodes, steps).hosts
    ensures var c := After(w, HostRules(w), nodes, steps);
            var c' := After(w, HostRules(w), nodes, steps + [Commit(n, draft)]);
            var d := draft.deploymentId;
            && c'.hosts.Keys == c.hosts.Keys && (forall m :: m in c.hosts && m != n ==> c'.hosts[m] == c.hosts[m])
            && if Committable(w, c.hosts[n].table, n, draft)
               then && d in c'.hosts[n].table && Commits(w, c.hosts[n].table, n, draft, c'.hosts[n].table[d])
                    && c'.hosts[n].table == c.hosts[n].table[d := c'.hosts[n].table[d]]
               else c'.hosts[n].table == c.hosts[n].table
  {
    var rules := HostRules(w);
    var c := After(w, rules, nodes, steps);
    var s := c.hosts[n];
    WinnersAreTied(w, nodes, steps, n);
    AfterOneMore(w, rules, nodes, steps, Commit(n, draft));
    NextRevisionIsNext(s.table, draft.replicaId);
    if n in w.members {
      FenceIff(w, s.table, n, draft);
      var r := CommitRecord(w, s.table, n, draft);
      if r.Some? && Tied(w, r.value) { LocalWriteIff(w, s, r.value); }
    }
  }

  lemma FenceIff(w: World, table: map<string, Record>, n: string, draft: Record)
    requires n in w.members && forall d :: d in table ==> Fits(table[d])
    requires IsNextRevision(table, draft.replicaId, NextRevision(table, draft.replicaId))
    ensures var r := CommitRecord(w, table, n, draft);
            Committable(w, table, n, draft) <==>
              && r.Some? && Tied(w, r.value) && Complete(w.scope, r.value) && Fits(r.value)
              && !Stale(table, r.value) && !Resurrects(table, r.value)
  {
    var next := NextRevision(table, draft.replicaId);
    if next > I64_MAX {
      assert exists d :: d in table && table[d].replicaId == draft.replicaId && table[d].revision == I64_MAX;
    }
  }

  /** In every reachable state local recovery changes its node's winners if and only if what it restates was
      published by the node, no row of the replica is at a higher epoch or the greatest revision, and it revives no
      tombstone; then it writes that record under the next revision with the state and health given. */
  lemma RestateStepIff(w: World, nodes: set<string>, steps: seq<Step>, n: string, original: Record,
                       state: DeploymentState, health: Health)
    requires Injective(w.digest) && n in After(w, HostRules(w), nodes, steps).hosts
    ensures var c := After(w, HostRules(w), nodes, steps);
            var t := c.hosts[n].table;
            var t' := After(w, HostRules(w), nodes, steps + [Restate(n, original, state, health)]).hosts[n].table;
            var d := original.deploymentId;
            if && original in c.published && original.ownerNodeId == n
               && (forall e :: e in t && t[e].replicaId == original.replicaId ==>
                     t[e].ownerEpoch <= original.ownerEpoch && t[e].revision < I64_MAX)
               && (d in t && t[d].state.Tombstoned? && t[d].ownerEpoch == original.ownerEpoch ==> state.Tombstoned?)
            then && d in t' && t' == t[d := t'[d]]
                 && t'[d] == original.(revision := t'[d].revision, state := state, health := health)
                 && IsNextRevision(t, original.replicaId, t'[d].revision)
            else t' == t
  {
    var rules := HostRules(w);
    var c := After(w, rules, nodes, steps);
    var s := c.hosts[n];
    WinnersAreTied(w, nodes, steps, n);
    AfterOneMore(w, rules, nodes, steps, Restate(n, original, state, health));
    NextRevisionIsNext(s.table, original.replicaId);
    if original in c.published && original.ownerNodeId == n {
      PublishedIsComplete(w, nodes, steps, original);
      var r := RestateRecord(s.table, original, state, health);
      LocalWriteIff(w, s, r);
      RestatableIff(w, s.table, original, r);
    }
  }

  lemma RestatableIff(w: World, table: map<string, Record>, original: Record, r: Record)
    requires forall d :: d in table ==> Fits(table[d])
    requires IsNextRevision(table, original.replicaId, r.revision) && Complete(w.scope, original) && Fits(original)
    requires r == original.(revision := r.revision, state := r.state, health := r.health)
    ensures (Complete(w.scope, r) && Fits(r) && !Stale(table, r)) <==>
            forall e :: e in table && table[e].replicaId == original.replicaId ==>
              table[e].ownerEpoch <= original.ownerEpoch && table[e].revision < I64_MAX
  {
    if r.revision > I64_MAX {
      assert exists d :: d in table && table[d].replicaId == original.replicaId && table[d].revision == I64_MAX;
    }
  }

  lemma PublishedIsComplete(w: World, nodes: set<string>, steps: seq<Step>, r: Record)
    requires Injective(w.digest) && r in After(w, HostRules(w), nodes, steps).published
    ensures Complete(w.scope, r) && Fits(r) && Tied(w, r)
  {
    var rules := HostRules(w);
    HostRulesAreCatalogLike(w);
    EveryRunKeepsInv(w, rules, nodes, steps);
    VerifyIff(w.scope, w.members, Verified, r);
  }

  /** In every reachable state a compaction leaves its node's winners alone and exactly their records logged. */
  lemma CompactStepForgets(w: World, nodes: set<string>, steps: seq<Step>, n: string)
    requires Injective(w.digest) && n in After(w, HostRules(w), nodes, steps).hosts
    ensures var s := After(w, HostRules(w), nodes, steps).hosts[n];
            var c' := After(w, HostRules(w), nodes, steps + [CompactHost(n)]);
            && n in c'.hosts && c'.hosts[n].table == s.table
            && forall r :: r in c'.hosts[n].log <==> exists d :: d in s.table && s.table[d] == r
  {
    var rules := HostRules(w);
    var s := After(w, rules, nodes, steps).hosts[n];
    HostRulesAreCatalogLike(w);
    WinnersAreTied(w, nodes, steps, n);
    AfterOneMore(w, rules, nodes, steps, CompactHost(n));
    CompactionKeepsConsistent(rules, s);
    assert forall r :: r in Compact(s).log <==> r in Elems(Compact(s).log);
  }

  // ----- exactly when a local commit wins -----

  lemma CommittedRevision(w: World, table: map<string, Record>, node: string, draft: Record)
    requires CommitRecord(w, table, node, draft).Some?
    ensures var r := CommitRecord(w, table, node, draft).value;
            && (r.revision < U64_MAX ==>
                  forall d :: d in table && table[d].replicaId == r.replicaId ==> table[d].revision < r.revision)
  {
    var revisions := Revisions(table, draft.replicaId);
    GreatestIsMaximum(revisions);
    assert forall d :: d in table && table[d].replicaId == draft.replicaId ==> table[d].revision in revisions;
  }

  /** On every consistent store whose deployments are tied to replicas, a commit that verifies becomes the
      deployment's winner if and only if its revision and epoch fit the store, the replica is not known at a
      higher owner epoch and the commit does not revive a tombstone of its epoch. */
  lemma CommitWins(w: World, s: Host, node: string, draft: Record)
    requires Injective(w.digest) && Consistent(HostRules(w), s)
    requires forall d :: d in s.table ==> s.table[d].replicaId == w.replica(d)
    requires var r := CommitRecord(w, s.table, node, draft);
             && r.Some? && r.value.replicaId == w.replica(r.value.deploymentId)
             && Verify(w.scope, w.members, Local, r.value).None?
    ensures var r := CommitRecord(w, s.table, node, draft).value;
            var table := Ledger.Step(HostRules(w), s, Apply(Local, r)).table;
            (r.deploymentId in table && table[r.deploymentId] == r) <==>
              Fits(r) && !Stale(s.table, r) && !Resurrects(s.table, r)
  {
    var rules := HostRules(w);
    var r := CommitRecord(w, s.table, node, draft).value;
    HostRulesAreCatalogLike(w);
    WinnersFit(CatalogRules(w.scope, w.members, w.digest), (x: Record) => Fits(x), s.log);
    CommittedRevision(w, s.table, node, draft);
    CommitOutcome(rules, s, r);
    if Fits(r) && r.deploymentId in s.table {
      assert s.table[r.deploymentId].revision < r.revision;
    }
    assert r.deploymentId in s.table ==> Fits(s.table[r.deploymentId]);
  }

  /** A local record becomes the winner exactly when it is it already, or passes every check. */
  lemma CommitOutcome(rules: Rules<string, Record>, s: Host, r: Record)
    requires CatalogLike(rules) && Consistent(rules, s) && rules.check(Local, r).None?
    ensures var table := Ledger.Step(rules, s, Apply(Local, r)).table;
            (r.deploymentId in table && table[r.deploymentId] == r) <==>
              || (r.deploymentId in s.table && s.table[r.deploymentId] == r)
              || (StaleOwner(s.table, r).None? && !Covered(rules, s.table, r) && !Resurrects(s.table, r) && Fits(r))
  {
    TableIsMaximum(rules, s);
    if r in s.log {
      assert r in Elems(s.log);
    } else {
      SubmitIsJudge(rules, s, Local, r);
    }
  }

  /** A peer's record reaches the bound: one with the greatest revision leaves the replica where a member at a
      higher epoch that takes it over cannot commit anything for it. */
  lemma GreatestRevisionBlocksTakeover(w: World, p: Provenance, x: Record, node: string, draft: Record)
    requires Injective(w.digest) && Verify(w.scope, w.members, p, x).None? && Fits(x) && x.revision == I64_MAX
    requires node in w.members && x.ownerEpoch < w.members[node].ownerEpoch && draft.replicaId == x.replicaId
    ensures var s := Ledger.Step(HostRules(w), Store([], map[]), Apply(p, x));
            var r := CommitRecord(w, s.table, node, draft);
            && s == Store([x], map[x.deploymentId := x])
            && r.Some? && Ledger.Step(HostRules(w), s, Apply(Local, r.value)) == s
  {
    var rules := HostRules(w);
    HostRulesAreCatalogLike(w);
    var s := FirstRecord(rules, p, x);
    var r := CommitRecord(w, s.table, node, draft).value;
    CommittedRevision(w, s.table, node, draft);
    assert x.deploymentId in s.table && s.table[x.deploymentId].replicaId == r.replicaId;
    UnfitIsRefused(rules, s, r);
  }

  lemma FirstRecord(rules: Rules<string, Record>, p: Provenance, x: Record) returns (s: Host)
    requires CatalogLike(rules) && rules.check(p, x).None? && Fits(x)
    ensures s == Store([x], map[x.deploymentId := x]) == Ledger.Step(rules, Store([], map[]), Apply(p, x))
    ensures Consistent(rules, s)
  {
    s := Store([x], map[x.deploymentId := x]);
    AppliedStep(rules, Store([], map[]), p, x, s);
  }

  lemma UnfitIsRefused(rules: Rules<string, Record>, s: Host, r: Record)
    requires CatalogLike(rules) && Consistent(rules, s) && !Fits(r)
    requires r !in s.log && !Covered(rules, s.table, r)
    ensures Ledger.Step(rules, s, Apply(Local, r)) == s
  {
    SubmitIsJudge(rules, s, Local, r);
    assert rules.late(s.table, r).Some?;
  }

  // ----- the failing family: one replica under two owner epochs -----

  /** In every reachable state, whatever the stores hold: a receiver that knows a replica at a higher owner
      epoch than a record of the message that is new to it refuses the message. */
  lemma HigherEpochRefuses(w: World, nodes: set<string>, steps: seq<Step>, n: string, m: Message, r: Record)
    requires Injective(w.digest) && Keyed(w.members) && UniqueAddresses(w.members)
    requires var c := After(w, HostRules(w), nodes, steps);
             && n in c.hosts && m in c.sent && m.sender in w.members
             && r in m.records && r !in c.hosts[n].log && Stale(c.hosts[n].table, r)
    ensures var rules := HostRules(w);
            var c := After(w, rules, nodes, steps);
            var p := Peer(V4(w.members[m.sender].managementAddress));
            !ApplyExchange(rules, c.hosts[n], p, m.records, |m.records|).ok
  {
    SnapshotsAreAccepted(w, nodes, steps, n, m);
    var i :| 0 <= i < |m.records| && m.records[i] == r;
  }

  lemma AfterOneMore(w: World, rules: Rules<string, Record>, nodes: set<string>, steps: seq<Step>, step: Step)
    ensures After(w, rules, nodes, steps + [step]) == Next(w, rules, After(w, rules, nodes, steps), step)
  {
    assert (steps + [step])[..|steps|] == steps;
  }

  lemma CommitOnEmptyHost(w: World, rules: Rules<string, Record>, c: Cluster, n: string, draft: Record, r: Record)
    requires rules.slot(r) == r.deploymentId && c.hosts.Keys == c.committed.Keys
    requires n in c.hosts && c.hosts[n] == Store([], map[])
    requires CommitRecord(w, map[], n, draft) == Some(r) && Tied(w, r)
    requires rules.check(Local, r).None? && rules.early(map[], r).None? && rules.late(map[], r).None?
    ensures Next(w, rules, c, Commit(n, draft)).hosts == c.hosts[n := Store([r], map[r.deploymentId := r])]
  {
    var s: Host := Store([], map[]);
    assert Submit(rules, s, Local, r).Applied?;
    assert Write(rules, s, r, Applied) == Store([r], map[r.deploymentId := r]);
  }

  lemma TwoCommits(w: World, rules: Rules<string, Record>, a: string, b: string, first: Record, second: Record,
                   x: Record, y: Record)
    requires Ranked(rules) && a != b
    requires CommitRecord(w, map[], a, first) == Some(x) && Tied(w, x)
    requires CommitRecord(w, map[], b, second) == Some(y) && Tied(w, y)
    requires rules.check(Local, x).None? && rules.early(map[], x).None? && rules.late(map[], x).None?
    requires rules.check(Local, y).None? && rules.early(map[], y).None? && rules.late(map[], y).None?
    ensures After(w, rules, {a, b}, [Commit(a, first), Commit(b, second)]).hosts ==
            map[a := Store([x], map[x.deploymentId := x]), b := Store([y], map[y.deploymentId := y])]
  {
    var one, two, nodes := Commit(a, first), Commit(b, second), {a, b};
    AfterOneMore(w, rules, nodes, [], one);
    AfterOneMore(w, rules, nodes, [one], two);
    assert [] + [one] == [one] && [one] + [two] == [one, two];
    CommitOnEmptyHost(w, rules, Start(nodes), a, first, x);
    CommitOnEmptyHost(w, rules, After(w, rules, nodes, [one]), b, second, y);
  }

  lemma SendAlone(w: World, rules: Rules<string, Record>, nodes: set<string>, steps: seq<Step>, b: string, y: Record)
    requires var c := After(w, rules, nodes, steps);
             b in c.hosts && c.hosts[b] == Store([y], map[y.deploymentId := y]) && y.ownerNodeId == b
    ensures var c := After(w, rules, nodes, steps);
            After(w, rules, nodes, steps + [Send(b, [y])]) == c.(sent := c.sent + {Message(b, [y])})
  {
    AfterOneMore(w, rules, nodes, steps, Send(b, [y]));
    OneIsSnapshot(After(w, rules, nodes, steps).hosts[b], b, y);
  }

  lemma OneIsSnapshot(s: Host, b: string, y: Record)
    requires s.table == map[y.deploymentId := y] && y.ownerNodeId == b
    ensures IsSnapshot(s, b, [y])
  {
    assert y.deploymentId in s.table && s.table[y.deploymentId] in s.table.Values;
    assert forall r :: r in s.table.Values ==> r == y;
  }

  lemma FirstCommitPasses(w: World, node: string, draft: Record)
    requires Injective(w.digest) && node in w.members && w.members[node].ownerEpoch <= I64_MAX
    requires CommitRecord(w, map[], node, draft).Some?
    ensures var r := CommitRecord(w, map[], node, draft).value;
            HostRules(w).early(map[], r).None? && HostRules(w).late(map[], r).None?
  {
    assert Revisions(map[], draft.replicaId) == {};
    assert Fits(CommitRecord(w, map[], node, draft).value);
    HostRulesAreCatalogLike(w);
  }

  /** The node's draft, committed on an empty store, is tied and verifies. */
  ghost predicate FirstCommit(w: World, node: string, draft: Record, r: Record) {
    && node in w.members && w.members[node].ownerEpoch <= I64_MAX
    && CommitRecord(w, map[], node, draft) == Some(r) && Tied(w, r) && Verify(w.scope, w.members, Local, r).None?
  }

  lemma TwoEpochsReached(w: World, a: string, b: string, first: Record, second: Record, x: Record, y: Record)
    requires Injective(w.digest) && a != b && FirstCommit(w, a, first, x) && FirstCommit(w, b, second, y)
    ensures var c := After(w, HostRules(w), {a, b}, [Commit(a, first), Commit(b, second), Send(b, [y])]);
            a in c.hosts && c.hosts[a] == Store([x], map[x.deploymentId := x]) && Message(b, [y]) in c.sent
  {
    var commits := [Commit(a, first), Commit(b, second)];
    HostRulesAreCatalogLike(w);
    FirstCommitPasses(w, a, first);
    FirstCommitPasses(w, b, second);
    TwoCommits(w, HostRules(w), a, b, first, second, x, y);
    SendAlone(w, HostRules(w), {a, b}, commits, b, y);
    assert commits + [Send(b, [y])] == [Commit(a, first), Commit(b, second), Send(b, [y])];
  }

  /** Two members that own deployments of one replica at different epochs cannot agree: once the one at
      the higher epoch has committed, it refuses the other's snapshot. */
  lemma TwoEpochsBlockExchange(w: World, a: string, b: string, first: Record, second: Record, x: Record, y: Record)
    requires Injective(w.digest) && Keyed(w.members) && UniqueAddresses(w.members)
    requires FirstCommit(w, a, first, x) && FirstCommit(w, b, second, y)
    requires w.members[b].ownerEpoch < w.members[a].ownerEpoch
    requires first.replicaId == second.replicaId && first.deploymentId != second.deploymentId
    ensures var c := After(w, HostRules(w), {a, b}, [Commit(a, first), Commit(b, second), Send(b, [y])]);
            && a in c.hosts && Message(b, [y]) in c.sent
            && !ApplyExchange(HostRules(w), c.hosts[a], Peer(V4(w.members[b].managementAddress)), [y], 1).ok
  {
    var steps := [Commit(a, first), Commit(b, second), Send(b, [y])];
    TwoEpochsReached(w, a, b, first, second, x, y);
    var table := map[x.deploymentId := x];
    assert x.deploymentId in table && table[x.deploymentId] == x;
    assert Stale(table, y);
    HigherEpochRefuses(w, {a, b}, steps, a, Message(b, [y]), y);
  }
}
