# The jiji agent's control plane, modelled and proved in Dafny

A jiji host agent keeps three kinds of replicated records (membership, catalog, desired state), plans its
WireGuard peers from them, leases container addresses, runs cron jobs, and answers DNS for the services
the catalog lists. This project models that decision logic and proves what it guarantees over every input
and every run.

| file | what it models |
|---|---|
| `Ledger.dfy` | what the three kinds of record share: judging an arrival, the operation log, the winners table, replay, compaction |
| `Membership.dfy`, `Catalog.dfy`, `Desired.dfy` | the rules of each kind and what follows from them |
| `OperationStore.dfy` | views and the durable store as objects updated in place |
| `Replication.dfy` | nodes that commit, compact and exchange snapshots over an unreliable network |
| `Attribution.dfy` | the same with members that send records of their own making |
| `WireGuard.dfy` | the planner and the agent that runs its plan against a kernel, commands failing anywhere |
| `FlawlessRuns.dfy` | what a plan leaves in the kernel when no command fails, for every plan |
| `Leases.dfy` | the address lease table and the first-fit allocator |
| `CronRuns.dfy`, `Scheduler.dfy` | cron runs with crashes and recovery; the catch-up scheduler |
| `Handover.dfy` | the CLI moving cron jobs between hosts while calls fail |
| `Dns.dfy`, `ServedZone.dfy` | the DNS wire format (RFC 1035) and the zone served from the catalog |
| `Queries.dfy` | which names queries can carry, and what the server answers to them |
| `Names.dfy` | strings in lexicographic order, optional values, IPv4 addresses |

A record's content hash is an arbitrary injective function (`digest`), so a set of record ids is a set of
records. A SQL table is a map, an operation log a sequence in row order, a transaction one atomic step.
Clocks, observed containers, failures of commands and calls, and text decoding are parameters: every
theorem holds for all of them.

Some properties one might expect do not hold of this code. Each has a lemma that shows a failing family,
and the exact condition under which the property holds:

* A view's answer for a replica depends on arrival order exactly when the replica's newest record is a live
  record above a tombstone of its own deployment and owner epoch (`Catalog.ShadowedDiverges`,
  `Catalog.ConvergesIff`).
* A snapshot is refused exactly when it carries a record, new to the receiver, of a replica that the receiver
  or an earlier record of the snapshot has at a higher owner epoch (`Replication.SnapshotsAreAccepted`). Of two
  owners of one replica at different epochs, the one at the higher refuses the other's
  (`Replication.HigherEpochRefuses`, `Replication.TwoEpochsBlockExchange`).
* A connection speaks for the holder of its source address of least node id, tombstoned holders included
  (`Membership.PeerSpeaksFor`), so a node that reuses the address of a tombstoned node of smaller id is never
  believed (`Membership.ReusedAddressShutsOutSuccessor`).
* Desired state accepts a record exactly while every logged author is a member at the epoch it wrote at
  (`Desired.WritableIff`); from one epoch change until the author is back at the old epoch nothing can be written
  (`Desired.EpochChangeFreezes`).
* A complete commit fails to win exactly when its revision does not fit the store's signed column, and for the
  catalog when its replica is known at a higher epoch, or at the node's under another owner, or it would revive a
  tombstone (`Desired.CommitWins`, `Replication.CommitStepIff`); a peer's record can reach that bound
  (`Desired.GreatestRevisionBlocks`, `Replication.GreatestRevisionBlocksTakeover`).
* A WireGuard plan of which every command succeeds can end without a route or peer it should have. Whatever
  nodes share, what remains is decided by the last record that speaks about a prefix
  (`FlawlessRuns.FlawlessRunIff`, `FlawlessRuns.NextCarriedIff`). Where the next cache shares nothing, the plan
  succeeds exactly when no tombstoned or re-keyed node listed after a node that is set, or anywhere for one that
  is not, had its key or one of its prefixes in the cache (`FlawlessRuns.TakeoverIff`); a subnet reused after a
  tombstone is such a case (`FlawlessRuns.TakeoverLosesRoute`, `FlawlessRuns.ReusedSubnetLosesRoute`).
* Such a plan can also leave routes nobody wants: routes stay exact exactly when no prefix is taken over so and
  none is given up by a node that keeps its key (`FlawlessRuns.RoutesAgreeIff`,
  `FlawlessRuns.AttributedRoutesIff`, `FlawlessRuns.StaleRouteStays`).
* An interrupted plan is repaired by a retry under the same records. Under changed ones it is as repairable as
  before wherever no peer that the earlier records set afresh is left alone by the later ones (`WireGuard.RetryIff`);
  a record that goes back to what is cached is not repaired (`FlawlessRuns.RevertedRecordIsNotRepaired`).
* Recording a start keeps a job's runs apart exactly when the run is active or no run of the job is
  (`CronRuns.StartKeepsNoOverlapIff`, `CronRuns.LateStartOverlaps`); only the executor's order of steps sees to it
  (`CronRuns.RunsAreExclusive`, `CronRuns.FinishedStaysFinished`).
* Label recovery leaves the leases of finished runs alone as long as the containers of runs do not claim to be
  managed by the catalog, which is up to their images (`CronRuns.RecoveryIsLocal`,
  `CronRuns.CronContainersAreUnmanagedIff`, `CronRuns.ManagedImageRevivesLease`).
* A UDP reply exceeds 512 octets exactly when the question alone leaves no room for the header (`Dns.RepliesFit`);
  long names of the zone itself do that (`Queries.LongNamesOverflowUdp`).
* Not every published name can be asked for: an ASCII name can exactly when it has no upper-case letter and can be
  cut into labels (`Queries.AskableIff`, `Queries.ServiceIsAnsweredIff`).
* A published name is not always one service's own (`ServedZone.NamesCollideIff`, `ServedZone.NameIsOwnIff`).

## Model

| member | source | states |
|---|---|---|
| `Ledger.AbsorbKeepsSound` | crates/jiji-agent/src/catalog.rs:158-199 | whatever the verdict on an arrival, each slot's winner remains the highest-ranked accepted record of the slot, and every accepted record's slot has a winner at or above it |
| `Ledger.WinnerIsMaximum` | crates/jiji-agent/src/catalog.rs:171-198 | a record is a slot's winner if and only if it is an accepted record of the slot that no accepted record of it outranks |
| `Ledger.AbsorbAdvances` | crates/jiji-agent/src/membership.rs:132-173 | an arrival never lowers a winner; an applied one is strictly above the winner it replaces; a tombstone gives way only to a tombstone or a higher epoch |
| `Ledger.RedeliveryIsDuplicate` | crates/jiji-agent/src/catalog.rs:158-170 | whatever a view accepted at any point of any deliveries is a duplicate whenever it is presented again verifiably, by anyone, and changes nothing |
| `Ledger.ReplayIsSound` | crates/jiji-agent/src/catalog.rs:145-156 | a log that replays without error yields a view of exactly the logged records, each slot's winner being the highest of them |
| `Ledger.TableIsMaximum` | crates/jiji-agent/src/store.rs:1168-1248 | in a consistent store every table row is the highest-ranked logged record of its slot, and is itself still in the log |
| `Ledger.WriteKeepsConsistent` | crates/jiji-agent/src/store.rs:1168-1248 | one apply on the store, whatever its outcome, leaves a log that replays without error to exactly the table |
| `Ledger.LoggedIsDuplicate` | crates/jiji-agent/src/store.rs:1168-1190 | a record the store did not refuse stays a duplicate to it through any later applies, from wherever it comes and even where it could not be verified, and changes nothing |
| `Ledger.CompactionKeepsConsistent` | crates/jiji-agent/src/store.rs:1293-1319 | the compacted log replays without error to exactly the same table and holds exactly the winners' operations |
| `Ledger.EveryRunIsConsistent` | crates/jiji-agent/src/store.rs:988-1045 | after every sequence of applies and compactions from an empty store, replaying never errors, the replayed winners are the table, and every winner's operation is logged |
| `Ledger.RunAdvances` | crates/jiji-agent/src/store.rs:988-1045 | over every run no winner ever falls, and a slot tombstoned at an epoch stays tombstoned or moves to a strictly higher epoch |
| `Ledger.ArrivalIsAlike` | crates/jiji-agent/src/store.rs:1168-1248 | a store and a compacted copy of it give an arrival the same outcome, unless the arrival redelivers a forgotten record, which one calls a duplicate and the other superseded, stale or unverifiable |
| `Ledger.CompactionIsInvisible` | crates/jiji-agent/src/store.rs:1293-1319 | every run of applies and compactions, however often it compacts, ends with the winners of the run without its compactions, and differs on a further arrival only by how a forgotten redelivery is reported |
| `Ledger.BoundedIsLawful` | crates/jiji-agent/src/store.rs:1202-1246 | a store that refuses winners its columns cannot hold meets the same laws, so every theorem about logs, tables and compaction holds of it |
| `Ledger.WinnersFit` | crates/jiji-agent/src/store.rs:1202-1246 | the winners of such a store all fit its columns |
| `Membership.MemberRulesAreLawful` | crates/jiji-agent/src/membership.rs:132-194 | the membership rules meet the laws the log theorems need: ranks identify records, replay is the weakest check, forgetting winners never causes a rejection, and live records never pass a tombstone of their epoch |
| `Membership.ArrivalOutcome` | crates/jiji-agent/src/membership.rs:132-194 | in every reachable store, on record fields: what arrives next becomes its node's winner if and only if it is well formed for the project and epoch, newer than the winner by owner epoch, revision, tombstone flag and hash, revives no tombstone of its epoch and, if active, shares nothing with another active member; it is logged without winning if and only if it is well formed, of the winner's epoch and not newer; nothing else changes |
| `Membership.RefusalsAreTrue` | crates/jiji-agent/src/membership.rs:132-194 | in every reachable store a refusal names a reason that holds of the record and the winners, among them which claim another active member has |
| `Membership.WinnersAreNewest` | crates/jiji-agent/src/membership.rs:151-172 | over every run, whatever was logged at any time and however often the log was compacted since, its node's winner is that record or one newer by owner epoch, revision, tombstone flag and hash |
| `Membership.ActiveMembersAreExclusive` | crates/jiji-agent/src/membership.rs:132-194 | over every run of applies and compactions two active nodes differ in server name, management address, container subnet and WireGuard key |
| `Membership.NodeTombstonesHold` | crates/jiji-agent/src/membership.rs:151-172 | over every run from empty, a node's winner only gives way to one newer by owner epoch, revision, tombstone flag and hash, and a tombstoned node is later tombstoned or at a strictly higher epoch |
| `Membership.PeerSpeaksFor` | crates/jiji-agent/src/membership.rs:216-252 | a record may be presented in a node's name by the agent itself, and over a connection if and only if that node has the least id among all members, tombstoned included, that hold the source address; it is refused as unknown exactly when none does |
| `Membership.UniqueAddressSpeaksForHolder` | crates/jiji-agent/src/membership.rs:232-252 | where addresses are unique, a connection is accepted as a node if and only if the node is a member holding the source address |
| `Membership.EnrolSuccessor` | crates/jiji-agent/src/membership.rs:175-194 | whatever a valid node shares with a member that was tombstoned, it is enrolled beside the tombstone |
| `Membership.ReusedAddressShutsOutSuccessor` | crates/jiji-agent/src/membership.rs:216-252 | for every active member that is tombstoned and every valid node of greater id enrolled with its address, the new node's own connections are refused as not the owner |
| `Catalog.CatalogRulesAreLawful` | crates/jiji-agent/src/catalog.rs:158-199 | the catalog rules meet the laws the log theorems need, including tombstone fencing |
| `Catalog.ArrivalOutcome` | crates/jiji-agent/src/catalog.rs:110-199 | in every reachable store, on record fields: what arrives next becomes its deployment's winner if and only if it is complete, presented by who may, of a replica not known at a higher owner epoch, above the deployment's winner, no revival of a tombstone, and fits; it is logged without winning if and only if it is admitted, of the winner's epoch and not above it; nothing else changes |
| `Catalog.RefusalsAreTrue` | crates/jiji-agent/src/catalog.rs:110-199 | a view's refusal names a reason that holds of the record, the members and the winners |
| `Catalog.WinnersAreNewest` | crates/jiji-agent/src/catalog.rs:171-198 | over every run, whatever was logged at any time, its deployment's winner is that record or one above it by owner epoch, revision, tombstone flag and hash |
| `Catalog.DeploymentTombstonesHold` | crates/jiji-agent/src/catalog.rs:171-198 | over every run from empty, a deployment's winner only gives way to one above it by owner epoch, revision, tombstone flag and hash, and a tombstoned deployment is later tombstoned or at a strictly higher owner epoch |
| `Catalog.OlderThanIsStrict` | crates/jiji-agent/src/catalog.rs:245-252 | the record order is strict and decides between any two records of different deployments |
| `Catalog.Get` | crates/jiji-agent/src/catalog.rs:218-223 | there is no answer exactly when the replica has no winner, and an answer is newer than every other winner of the replica |
| `Catalog.GetIsLast` | crates/jiji-agent/src/catalog.rs:218-252 | a record is the answer if and only if it is a winner of the replica and every other winner of the replica is before it by owner epoch, then revision, then tombstone flag, then deployment id |
| `Names.BeforeIff` | crates/jiji-agent/src/catalog.rs:245-252 | identifiers are compared as text: one is before another if and only if, where they stop agreeing, it has ended or has the smaller character |
| `Catalog.EveryScheduleAnswersNewest` | crates/jiji-agent/src/catalog.rs:158-223 | if the replica's newest record is not shadowed by a tombstone, every order and repetition of the set, some arrivals being refused, ends with that record as the answer |
| `Catalog.ShadowedDiverges` | crates/jiji-agent/src/catalog.rs:158-223 | if it is shadowed, there are two schedules of the same set that answer differently |
| `Catalog.ConvergesIff` | crates/jiji-agent/src/catalog.rs:158-264 | for a finite set of verifiable records with one replica per deployment, all schedules answer alike if and only if the newest record is not a live record above a tombstone of its deployment and epoch |
| `Catalog.WithoutResurrectionAllConverge` | crates/jiji-agent/src/catalog.rs:158-264 | if no live record orders above a tombstone of its deployment and epoch, all schedules give the same answer for every replica |
| `Catalog.ActiveHealthyWinners` | crates/jiji-agent/src/catalog.rs:203-243 | the loop returns, for exactly the replicas with an active and healthy record, one such record that no other such record of the replica follows |
| `Catalog.ServedIsUnique` | crates/jiji-agent/src/catalog.rs:203-216 | among a view's winners the served record of a replica is unique |
| `Desired.DesiredRulesAreLawful` | crates/jiji-agent/src/desired.rs:71-143 | the desired-state rules meet the laws the log theorems need for a fixed membership, and refuse nothing that verifies |
| `Desired.ArrivalOutcome` | crates/jiji-agent/src/desired.rs:71-143 | in every reachable store, on record fields: what arrives next is logged if and only if it is complete, presented by who may, its author is a member at the epoch it wrote at and its revision fits; it becomes its service's winner if and only if it also exceeds the winner by revision and hash; nothing else changes |
| `Desired.RefusalsAreTrue` | crates/jiji-agent/src/desired.rs:61-92 | a refusal names a reason that holds of the record and the members |
| `Desired.DesiredIsJoin` | crates/jiji-agent/src/desired.rs:122-152 | after any deliveries a record is a service's winner if and only if it was presented acceptably and exceeds, by revision and then hash, every other record so presented for the service |
| `Desired.DesiredIsOrderIndependent` | crates/jiji-agent/src/desired.rs:122-152 | two delivery sequences with the same accepted records give the same view |
| `Desired.CommitWins` | crates/jiji-agent/src/api.rs:484-535 | on every consistent store, exactly what a commit by a known node does: where the names are not empty, the epoch positive and the current revision below the greatest signed 64-bit number, the service's winner has the requested scale, the node's name and epoch and the next revision; otherwise, and for every other service, nothing changes |
| `Desired.GreatestRevisionBlocks` | crates/jiji-agent/src/store.rs:1359-1372 | after any verified record with the greatest revision, from a peer or not, no node's commit for the service changes the store |
| `Desired.ReplaySucceedsIff` | crates/jiji-agent/src/desired.rs:109-120 | replaying succeeds if and only if every logged record still verifies |
| `Desired.WritableIff` | crates/jiji-agent/src/store.rs:1321-1382 | a record not yet logged is accepted if and only if it verifies, its revision fits the column and every logged record's author is a member at the epoch it wrote at |
| `Desired.UnverifiableWinnerFreezes` | crates/jiji-agent/src/store.rs:1321-1382 | while a winner does not verify, no sequence of applies and compactions changes any winner, the membership changing at will otherwise |
| `Desired.EpochChangeFreezes` | crates/jiji-agent/src/desired.rs:85-91 | after any node's commit on an empty store, under any membership in which the node is not at the epoch it wrote at every other record is refused, and no history of applies and compactions under such memberships changes the table |
| `OperationStore.RecordView.Apply` | crates/jiji-agent/src/catalog.rs:158-199 | the in-place apply returns the specified verdict and changes winners and ids accordingly, changing nothing on a refusal |
| `OperationStore.FromRecords` | crates/jiji-agent/src/catalog.rs:145-156 | the loop rebuilds exactly the replayed view, or stops with the first record's error |
| `OperationStore.OperationLog.Apply` | crates/jiji-agent/src/store.rs:1168-1248 | the store's apply reports a logged record as a duplicate first, otherwise judges it against the replayed log, and writes operation and row together or nothing |
| `OperationStore.OperationLog.CompactOperations` | crates/jiji-agent/src/store.rs:1293-1319 | exactly the operations that are no current winner are deleted, in order, and counted |
| `Replication.ApplyRecords` | crates/jiji-agent/src/catalog_replication.rs:216-234 | the loop writes record by record and stops at the first refusal, keeping what was written before it |
| `Replication.ExchangeIsPrefix` | crates/jiji-agent/src/catalog_replication.rs:216-234 | an exchange is the run that applies a prefix of its records none of which is refused; it succeeds if and only if that is all of them, and otherwise the next record is refused or the exchange was cut off there |
| `Replication.ReceiveExchange` | crates/jiji-agent/src/catalog_replication.rs:204-236 | nothing is applied of an exchange of another project, recovery epoch or version or with more than 4096 catalog or 1024 desired-state records; otherwise the catalog records are, and, only if none was refused, the desired-state records |
| `Replication.PublishingRespectsTombstones` | crates/jiji-agent/src/local_reconcile.rs:391-432 | an owner never makes a live record its winner above a tombstone it published for that deployment and epoch |
| `Replication.GreatestIsMaximum` | crates/jiji-agent/src/api.rs:567-574 | the revision fold yields the greatest revision of the replica, so a commit is one above it |
| `Replication.CommitWins` | crates/jiji-agent/src/api.rs:536-611 | a commit that verifies becomes its deployment's winner if and only if its epoch and revision fit the columns, its replica is not known at a higher owner epoch and it does not revive a tombstone of its epoch |
| `Replication.CommitStepIff` | crates/jiji-agent/src/api.rs:536-611 | in every reachable state, on tables: a commit changes its node's winners if and only if the node is a member at a storable epoch, the draft is complete and tied, every row of the replica is below the greatest revision, none is at a higher epoch or at the node's epoch under another owner, and no tombstone of the epoch is revived; then it writes exactly the draft's row, in the node's name and epoch and one above the replica's revisions, and nothing elsewhere |
| `Replication.RestateStepIff` | crates/jiji-agent/src/local_reconcile.rs:391-432 | in every reachable state recovery changes its node's winners if and only if it restates what the node published, the replica is neither at a higher epoch nor at the greatest revision and no tombstone is revived; then it writes that record with the given state and health, one above the replica's revisions |
| `Replication.GreatestRevisionBlocksTakeover` | crates/jiji-agent/src/api.rs:567-592 | after a peer's record with the greatest revision, no commit of a member at a higher epoch for that replica changes the store |
| `Replication.LocalWriteKeepsInv` | crates/jiji-agent/src/api.rs:536-611 | a local commit or restatement by the owner keeps the cluster invariant |
| `Replication.ExchangeKeepsInv` | crates/jiji-agent/src/catalog_replication.rs:204-236 | an exchange of published records, complete or cut off anywhere, keeps the cluster invariant |
| `Replication.EveryRunKeepsInv` | crates/jiji-agent/src/catalog_replication.rs:53-77 | every run of commits, restatements, sends, late, repeated or partial receipts and compactions keeps the cluster invariant |
| `Replication.CompactStepForgets` | crates/jiji-agent/src/store.rs:1293-1319 | in every reachable state a compaction leaves its node's winners and exactly their records in the log |
| `Replication.OwnersAreAuthoritative` | crates/jiji-agent/src/catalog_replication.rs:53-77 | in every reachable state each record in any node's log was committed locally by the owner it claims, and no node's winner ranks above the owner's own winner |
| `Replication.ExchangeSucceedsIff` | crates/jiji-agent/src/catalog_replication.rs:204-236 | an exchange succeeds if and only if no record new to the receiver is stale against the receiver or an earlier record of the snapshot, and then every sent record is at or below the receiver's winner |
| `Replication.SnapshotsAreAccepted` | crates/jiji-agent/src/catalog_replication.rs:204-236 | the same in every reachable state with unique addresses; so with one owner epoch per replica no snapshot is ever refused |
| `Replication.SnapshotSynchronises` | crates/jiji-agent/src/catalog_replication.rs:204-236 | in every reachable state a node that receives without refusal what another node would send now has exactly the other's winners for every deployment the other owns |
| `Replication.HigherEpochRefuses` | crates/jiji-agent/src/catalog.rs:171-183 | in every reachable state a receiver that knows a replica at a higher owner epoch than a new record of the message refuses it |
| `Replication.TwoEpochsBlockExchange` | crates/jiji-agent/src/catalog.rs:171-183 | and such states are reached: any two members at different epochs that commit deployments of one replica are an instance |
| `Attribution.HonestOwnersAreNotForged` | crates/jiji-agent/src/membership.rs:232-252 | over every run in which some members also send arbitrary records over their own connections, a record in any log whose owner is none of them was committed locally by that owner |
| `Attribution.ForgedKeepsAttested` | crates/jiji-agent/src/catalog.rs:110-129 | whatever a member sends is logged only under its own name |
| `Attribution.RogueSpeaksForItself` | crates/jiji-agent/src/catalog.rs:158-199 | in every such run a rogue's record in its own name that is complete, not stale and above the winner becomes the winner |
| `WireGuard.PlanReconciliation` | crates/jiji-agent/src/wireguard.rs:74-170 | the loop computes the specified actions and next cache whenever each active record that decides has an observed, cached or configured endpoint, which is what the planner insists on |
| `WireGuard.PlanByNode` | crates/jiji-agent/src/wireguard.rs:74-170 | per node, the next cache entry and the actions are those its first record calls for, and nothing else names the node |
| `WireGuard.PlanByRecords` | crates/jiji-agent/src/wireguard.rs:84-169 | for every input, on fields: an action is planned if and only if a node's first record calls for it: the removal of the cached key with the cached /32 address and subnet on a tombstone or new key; the setting of the record's key with exactly its /32 address and subnet where key, address or subnet is new; an endpoint update where only something else changed. The next entry says what the record says, with the observed, else the cached, else the first configured endpoint |
| `WireGuard.PlanIsOrdered` | crates/jiji-agent/src/wireguard.rs:74-170 | two actions of one plan for one node are the removal of the old key followed by the setting of a new one |
| `WireGuard.ReplanIsEmpty` | crates/jiji-agent/src/wireguard.rs:84-169 | planning again from the resulting cache with the same records and observations gives no actions |
| `WireGuard.ActionsAreJustified` | crates/jiji-agent/src/wireguard.rs:84-169 | a node without a record is never acted on and keeps its entry; a node is removed if and only if it is cached and tombstoned or re-keyed; its allowed addresses are set if and only if it is new or its key, address or subnet changed |
| `WireGuard.Agent.ReplaceRoutes` | crates/jiji-agent/src/runtime.rs:507-524 | only the given routes are added, all of them on success |
| `WireGuard.Agent.DeleteRoutes` | crates/jiji-agent/src/runtime.rs:526-536 | only the given routes are deleted, all of them if no command fails, failures being ignored |
| `WireGuard.Agent.ApplyAction` | crates/jiji-agent/src/runtime.rs:452-505 | an action touches only its own peer and routes however far it gets, is in force on success, and has its complete effect if no command fails |
| `WireGuard.Agent.ReconcileOnce` | crates/jiji-agent/src/runtime.rs:403-450 | a failed attempt keeps the cache; one without failures leaves the kernel of the whole plan. Where no key or prefix is shared between nodes: any attempt, however far it came, carries each peer that is not set afresh exactly if it did before, and brings in no keys and routes but cached and wanted ones; a successful one carries the new cache if and only if the kernel was repairable, without stray peers, with only leftover routes of removed or reset peers beyond the cache, and with the cached endpoints; and if every peer not set afresh had exactly its management address and subnet, and these routed, every peer of the new cache has |
| `WireGuard.AgreementIsRepairable` | crates/jiji-agent/src/runtime.rs:403-422 | a kernel that agrees with the cache, exactly or not, is repairable under any records, so attempts can be chained |
| `WireGuard.RetryIff` | crates/jiji-agent/src/runtime.rs:403-422 | the kernel an attempt left is repairable under other records if and only if the peers neither sets afresh were carried and those only the earlier records set afresh still are; hence as repairable as before wherever the later records leave none of those alone |
| `WireGuard.FinishedPlanAgrees` | crates/jiji-agent/src/wireguard.rs:74-170 | with every planned action in force the kernel carries the next cache if and only if it carried every cached peer the plan does not set afresh, and with exactly the allowed addresses if it did exactly |
| `FlawlessRuns.FlawlessRunIff` | crates/jiji-agent/src/runtime.rs:452-536 | for every kernel, records and cache, after a plan without failures a prefix is routed, and a peer holds a prefix, if and only if the last record that speaks about it grants it, or none speaks and it was so before |
| `FlawlessRuns.NextCarriedIff` | crates/jiji-agent/src/wireguard.rs:74-170 | the kernel then carries the next cache if and only if the last word on every prefix of every entry is in its favour, whatever keys and prefixes nodes share |
| `FlawlessRuns.TakeoverIff` | crates/jiji-agent/src/wireguard.rs:74-170 | where no two nodes of the next cache share a key or prefix, it does if and only if the kernel carried every cached peer that is not set afresh and no removal of a tombstoned or re-keyed node, listed after the setting of a node or anywhere for a node not set, takes the node's key or one of its prefixes |
| `FlawlessRuns.TakeoverLosesRoute` | crates/jiji-agent/src/wireguard.rs:88-117 | whenever a record sets a peer with a prefix and a later one removes a tombstoned or re-keyed node that had it, with no later claim, the peer that was set ends without the route and replanning asks for nothing |
| `FlawlessRuns.ReusedSubnetLosesRoute` | crates/jiji-agent/src/store.rs:1060-1072 | membership accepts a node of smaller id with the subnet of a tombstoned one, and an agent that cached the old node loses the new one's route |
| `FlawlessRuns.RoutesAgreeIff` | crates/jiji-agent/src/runtime.rs:507-536 | from exactly the cache's routes a plan without failures ends with exactly the next cache's routes if and only if every wanted prefix that a removal drops is claimed last and every prefix given up by a node that keeps its key is still held or dropped |
| `FlawlessRuns.AttributedRoutesIff` | crates/jiji-agent/src/wireguard.rs:140-160 | where nothing is shared, routes stay exact if and only if no node that keeps its key gives up a prefix |
| `FlawlessRuns.StaleRouteStays` | crates/jiji-agent/src/wireguard.rs:140-160 | a prefix given up by a node that keeps its key, held and dropped by none, stays routed and replanning asks for nothing |
| `FlawlessRuns.RevertedRecordIsNotRepaired` | crates/jiji-agent/src/runtime.rs:403-422 | whenever an attempt stops after the command that removes a cached peer or takes a prefix from it and the records go back to what is cached, the next plan succeeds without carrying the peer, and replanning asks for nothing |
| `Leases.AddressesFit` | crates/jiji-network/src/cidr.rs:14-50 | no offset of a valid network leaves the IPv4 space |
| `Leases.NetworksFillSpace` | crates/jiji-network/src/cidr.rs:14-50 | the networks of one prefix length fill the IPv4 space exactly |
| `Leases.AllocateIsFirstFit` | crates/jiji-agent/src/leases.rs:68-105 | on rows: every other lease stays exactly if it is active, still quarantined, observed by the last inventory or there was none; a kept lease of the deployment is returned as it is; otherwise it gets the lowest host address that is neither reserved nor held by a kept lease, and fails if and only if there is none |
| `Leases.AllocateSucceeds` | crates/jiji-agent/src/leases.rs:51-105 | allocation succeeds whenever leases and reserved host addresses together number fewer than the host addresses |
| `Leases.LeasesAreOneToOne` | crates/jiji-agent/src/store.rs:844-972 | over every run of claims, recoveries, releases, allocations and collections, no two deployments hold one address |
| `Leases.LossNeedsEvidence` | crates/jiji-agent/src/store.rs:930-972 | a deployment loses its address in a step only if that step is a collection after the end of its quarantine, after an inventory, with the deployment unobserved |
| `Leases.HandoverNeedsCollection` | crates/jiji-agent/src/store.rs:930-972 | over every run, if an address passes from one deployment to another there is such a collection of the first in between |
| `Leases.LossNeedsHistory` | crates/jiji-agent/src/store.rs:917-972 | over every run, in terms of its steps alone: between a deployment's holding an address and its not holding it lies a collection, at or after the end that its last release asked for, and the last inventory before it did not observe the deployment |
| `Leases.QuarantineLasts` | crates/jiji-agent/src/store.rs:917-928 | over every run, a release leaves the deployment its replica and address, quarantined until exactly the end asked for, through any steps that neither recover nor release it again and collect only before that end |
| `Leases.ExpiredIsCollected` | crates/jiji-agent/src/store.rs:930-972 | conversely, such a release is collected by a collection at or after its end if the last inventory before it did not observe the deployment |
| `Leases.RecoveryNeverSteals` | crates/jiji-agent/src/discovery.rs:133-176 | rebuilding leases from any observed labels keeps every lease's replica and address and keeps leases one to one |
| `Leases.ProvesIff` | crates/jiji-agent/src/discovery.rs:83-176 | what discovery reports of a container is read as a lease if and only if the container's labels say it is managed by the catalog, do not say the lease is not its own, and name deployment, replica and a parsable address |
| `Leases.RecoveryNeedsProof` | crates/jiji-agent/src/discovery.rs:133-176 | every row after a recovery is as it was or proved by a container |
| `Leases.RecoveryRevives` | crates/jiji-agent/src/discovery.rs:133-176 | a lease that an observation proves is active after the recovery if its deployment had that replica and address |
| `Leases.CountIsOfEffective` | crates/jiji-agent/src/discovery.rs:133-176 | the count is the number of observations whose lease is in force once they have been recovered |
| `Leases.LeaseStore.ClaimAddressLease` | crates/jiji-agent/src/store.rs:844-863 | every existing row stays as it is; a row is added exactly for a deployment without one and an address nobody has, and is active; granted exactly when the deployment then has this replica and address; another deployment's address is an error |
| `Leases.LeaseStore.RecoverAddressLease` | crates/jiji-agent/src/store.rs:868-915 | an exact match is reactivated, a free pair inserted, anything else refused with every row as it was |
| `Leases.LeaseStore.RecoverLabeledLeases` | crates/jiji-agent/src/discovery.rs:133-176 | the loop recovers each labelled lease in turn and counts the successes |
| `Leases.LeaseStore.QuarantineAddressLease` | crates/jiji-agent/src/store.rs:917-928 | the deployment's row keeps its replica and address and is quarantined until the given time, every other row stays, and an unknown deployment changes nothing |
| `Leases.LeaseStore.Release` | crates/jiji-agent/src/leases.rs:107-118 | the quarantine ends at the time plus the seconds, or at the greatest timestamp if that is exceeded |
| `Leases.LeaseStore.DeleteUnclaimed` | crates/jiji-agent/src/store.rs:930-972 | of the expired leases exactly those that no observation claims are deleted and counted |
| `Leases.LeaseStore.CollectExpiredAddressLeases` | crates/jiji-agent/src/store.rs:930-972 | exactly the rows stay that are active, still quarantined, observed, or before any inventory, and they stay as they are |
| `Leases.LeaseStore.AllocateAddress` | crates/jiji-agent/src/leases.rs:68-105 | the searching loop gives exactly the specified allocation |
| `CronRuns.CronStore.ClaimCronRun` | crates/jiji-agent/src/store.rs:1553-1645 | on rows: a duplicate exactly when a row of the job has the due time, and then that row; an overlap exactly when otherwise a row of the job is claimed or running, naming one and counting the skip; otherwise, for a new id, one claimed row is added and nothing else changes |
| `CronRuns.CronStore.StartCronRun` | crates/jiji-agent/src/store.rs:1707-1728 | the run's row becomes running with start time, deployment, container and address, whatever its state was, its other columns and every other row staying; an unknown id changes nothing |
| `CronRuns.CronStore.FinishCronRun` | crates/jiji-agent/src/store.rs:1732-1760 | the run's row takes state, time, exit code and error as given, its other columns and every other row staying; an unknown id changes nothing |
| `CronRuns.StartKeepsNoOverlapIff` | crates/jiji-agent/src/store.rs:1707-1728 | recording a start keeps a job's active runs apart if and only if the run is active or the job has no active run |
| `CronRuns.LateStartOverlaps` | crates/jiji-agent/src/store.rs:1707-1728 | claim, finish, claim another, start the first: for every job and outcome the store ends with two active runs |
| `CronRuns.CronContainersAreUnmanagedIff` | crates/jiji-agent/src/cron_exec.rs:70-88 | a container with the executor's labels on top of any image's meets that condition if and only if the image's labels do |
| `CronRuns.CronLabelsProveNoLease` | crates/jiji-agent/src/cron_exec.rs:70-88 | what discovery reports of a container that does not claim to be managed by the catalog, whatever its other labels, proves no lease of a run |
| `CronRuns.RecoveryIsLocal` | crates/jiji-agent/src/discovery.rs:83-176 | label recovery over containers of which none that names a run claims to be managed by the catalog gives no run an active lease it did not have |
| `CronRuns.LabelsRevive` | crates/jiji-agent/src/discovery.rs:133-190 | a container that proves the lease its deployment had makes it active again, without touching runs |
| `CronRuns.ManagedImageRevivesLease` | crates/jiji-agent/src/discovery.rs:133-176 | where the image claims to be managed and names the lease's replica, recovery reactivates the released lease of the run |
| `CronRuns.EveryRunKeepsInv` | crates/jiji-agent/src/cron_exec.rs:176-255 | the agent's invariant over claim, lease, start, exit, release, finish, crash, recovery, retention, label recovery and lease steps of services |
| `CronRuns.RunsAreExclusive` | crates/jiji-agent/src/cron_exec.rs:271-387 | in every reachable state a job has at most one claimed or running run, and a run that is finished or gone holds no active lease |
| `CronRuns.ServicesLeaseAsBefore` | crates/jiji-agent/src/leases.rs:68-118 | while only services lease, the agent's lease table is that of the same steps on their own |
| `CronRuns.FinishedStaysFinished` | crates/jiji-agent/src/cron_exec.rs:476-569 | in every run a finished run is never active again while its row is retained |
| `CronRuns.ResultsAreTrue` | crates/jiji-agent/src/cron_exec.rs:350-387 | in every reachable state a row is succeeded only with exit code 0 and failed only without it, has a time exactly when finished, and is running only with its start and its own id as deployment |
| `CronRuns.OutcomeIsRecorded` | crates/jiji-agent/src/cron_exec.rs:176-387 | in every run, with any steps of other runs in between: what starting, watching or recovering a container found out about the end of a run is the state and exit code its row has once it is concluded, unless the agent crashes first, and no other column changes |
| `CronRuns.RunCompletes` | crates/jiji-agent/src/cron_exec.rs:207-387 | from every state of a booted agent, a claimable run for which there is an address leaves, after claim, lease, start, watching, release and conclusion, exactly one new row with all of it and its address held back for 30 seconds from the release |
| `CronRuns.CrashedRunCompletes` | crates/jiji-agent/src/cron_exec.rs:476-545 | from every state with an active leased run, a crash after which its container is found gone or exited concludes the run accordingly and holds its address back |
| `CronRuns.CrashedRunIsWatched` | crates/jiji-agent/src/cron_exec.rs:476-569 | a run found still running is watched again, rows and leases untouched, and the agent then boots |
| `CronRuns.NoClaimBeforeBoot` | crates/jiji-agent/src/cron_exec.rs:459-569 | over every run, from a crash until the agent has booted again no run is claimed, whatever else happens |
| `CronRuns.UnleasedRunFails` | crates/jiji-agent/src/cron_exec.rs:207-255 | a run is failed at once, with the time and the error, when there is no address for it or it is given up before |
| `CronRuns.RetentionIsOfFinished` | crates/jiji-agent/src/store.rs:1803-1831 | a retention removes exactly the rows it names, and none unless all of them are finished |
| `Scheduler.CatchUpIsFirstAfterNow` | crates/jiji-agent/src/scheduler.rs:162-191 | for every schedule and late evaluation, both branches save exactly the first occurrence after now |
| `Scheduler.TickIsCorrect` | crates/jiji-agent/src/scheduler.rs:71-194 | one tick initialises an unseen job, leaves a job that is not due, and saves the first occurrence after now for a due one; it gives a job a new run if and only if it is due and no row of it has the due time or is claimed or running and the derived id is fresh, and then exactly one, whatever the other jobs are |
| `Scheduler.SchedulerLoop.EvaluateAll` | crates/jiji-agent/src/scheduler.rs:71-194 | the loop over installed jobs computes the specified tick |
| `Scheduler.TickIsSteps` | crates/jiji-agent/src/scheduler.rs:71-194 | a job's share of a tick is the claim followed by the save, or the first saving of a due time: the steps between which the crash theorems let the agent stop |
| `Scheduler.ExecutorIsAdmitted` | crates/jiji-agent/src/cron_exec.rs:176-387 | whatever executor, recovery or retention does to run rows, short of a scheduled claim, is a step these theorems admit |
| `Scheduler.ClaimedOnceWhileRetained` | crates/jiji-agent/src/store.rs:1565-1580 | over every run with crashes between claim and save, a due time that has a row is claimed again only after a retention step that took that row away |
| `Scheduler.DueTimesRiseOver` | crates/jiji-agent/src/scheduler.rs:162-192 | saved due times never move back |
| `Scheduler.DoubleClaimNeedsCrashAndLoss` | crates/jiji-agent/src/scheduler.rs:71-194 | two claims of one due time need both a retention step that took the first claim's row away and the absence of any effective save in between |
| `Handover.OwnerIsLowestOrdinal` | crates/jiji-cli/src/cron_reconcile.rs:55-73 | an owner is found if and only if some assigned replica has an active, healthy record; it is the first assignment of lowest ordinal among those, with the first such record |
| `Handover.Reconciler.Call` | crates/jiji-cli/src/cron_reconcile.rs:571-588 | a call changes one host's jobs completely unless it is lost before, and is acknowledged exactly when it is answered |
| `Handover.Reconciler.InstallOnOwner` | crates/jiji-cli/src/cron_reconcile.rs:489-591 | acknowledged jobs are on the owner, nothing is removed anywhere, and no configured job is lost at any step |
| `Handover.Reconciler.RemoveJobs` | crates/jiji-cli/src/cron_reconcile.rs:624-646 | at most the given jobs leave the host, all of them if no call fails, and no configured job is lost at any step |
| `Handover.Reconciler.RemoveSpecsAbsentFrom` | crates/jiji-cli/src/cron_reconcile.rs:601-648 | at most the service's unwanted jobs leave the host, all of them if no call fails and none if it cannot be listed |
| `Handover.Reconciler.SweepHosts` | crates/jiji-cli/src/cron_reconcile.rs:440-467 | every host is swept by what it may keep, whatever failed on the others |
| `Handover.Reconciler.ReconcileServiceCrons` | crates/jiji-cli/src/cron_reconcile.rs:421-483 | under any failures no configured job that was installed is installed nowhere at any step, other services' jobs are never touched and no host but a ready owner gains a job; if every call succeeds each deleted job is nowhere, and each configured one on exactly the owner if it is ready, otherwise where it was |
| `Dns.ParseQuery` | crates/jiji-agent/src/dns.rs:97-140 | the scanning loop computes the specified parse |
| `Dns.LabelsAreBounded` | crates/jiji-agent/src/dns.rs:109-126 | a successful label scan stays within the message and within 33 labels of 64 octets |
| `Dns.EncodeResponse` | crates/jiji-agent/src/dns.rs:142-173 | appending piece by piece gives the specified octets |
| `Dns.EncodeAnswer` | crates/jiji-agent/src/dns.rs:164-171 | the pieces of one answer are the specified 16 octets |
| `Dns.EncodedLength` | crates/jiji-agent/src/dns.rs:142-173 | a response has 12 octets, the question, and 16 for each answer |
| `Dns.HeaderOfEncoded` | crates/jiji-agent/src/dns.rs:142-173 | the header reads back as a response with the query's id, opcode and flags, the given code and flags, one question and the number of answers |
| `Dns.ParseOfEncoded` | crates/jiji-agent/src/dns.rs:97-173 | parsing any response to a parsed query returns exactly that query |
| `Dns.AnswersOfEncoded` | crates/jiji-agent/src/dns.rs:142-173 | an independent decoder of the answer section returns exactly the given addresses |
| `Dns.RespondIsFaithful` | crates/jiji-agent/src/dns.rs:178-200 | on the query's octets: a reply repeats identification, operation code, recursion flag and question with authority, has code NOTIMP, NXDOMAIN or NOERROR as query and zone demand, is marked truncated exactly when the UDP reply would not fit, and otherwise decodes, for types A and ANY, to the first 64 of the name's addresses, and for any other to none |
| `Dns.HandleIsFaithful` | crates/jiji-agent/src/dns.rs:206-256 | a name that is jiji or ends with .jiji is answered locally whatever the forwarders say; for any other the forwarders' answer is relayed, and without one the reply is a failure without authority or addresses, whatever the zone |
| `Dns.RepliesFit` | crates/jiji-agent/src/dns.rs:178-200 | a UDP reply fits 512 octets if and only if header and question do, so always for names within 255 octets; every reply fits a two-octet length |
| `Queries.ParseOfQueryFor` | crates/jiji-agent/src/dns.rs:97-140 | a query written for a list of at most 33 labels of 1 to 63 octets parses to exactly the name they join to |
| `Queries.ParsesIff` | crates/jiji-agent/src/dns.rs:97-140 | a message parses if and only if it counts one question and holds after the header a name of at most 33 labels of 1 to 63 octets with its root label and four more octets, and then to the name these labels join to |
| `Queries.AskableIff` | crates/jiji-agent/src/dns.rs:107-137 | for every ASCII name, some query parses to it if and only if it has no upper-case letter and is at most 33 pieces of 1 to 63 characters with dots between them |
| `Queries.AnsweredIff` | crates/jiji-agent/src/dns.rs:242-256 | a name of the zone below jiji with no other dot is answered, with success and an address list that is its own or the first 64 of it, to some query if and only if it is lower case and its first part has at most 63 characters; otherwise no query asks for it |
| `Queries.ServiceIsAnsweredIff` | crates/jiji-agent/src/dns.rs:260-281 | for a served record, the service's name is in the zone with exactly the addresses of the reachable served records published under it, in replica order, and some query is answered with the first 64 of them if and only if project and service are lower case and short enough for one label |
| `Queries.LongNamesOverflowUdp` | crates/jiji-agent/src/dns.rs:109-126 | for every 8 to 32 labels of the greatest length before jiji the server answers the name itself and its UDP reply exceeds 512 octets, for every zone and forwarder |
| `ServedZone.ZoneFromRecords` | crates/jiji-agent/src/dns.rs:260-281 | under each name exactly the addresses of the reachable records that publish it, in their order, and no other names |
| `ServedZone.ZoneLists` | crates/jiji-agent/src/dns.rs:260-281 | a name is in the zone if and only if a record with a reachable owner is published under it, and lists the addresses of exactly those records, once for each, in their order |
| `ServedZone.BuildZone` | crates/jiji-agent/src/dns.rs:290-322 | under each name exactly the addresses of the newest active healthy deployments, with reachable owners, that publish it, one for each, in the order of replica ids; a name exists if and only if there is one |
| `ServedZone.ServerNameIsDistinct` | crates/jiji-agent/src/dns.rs:269-278 | a record's aggregate and per-server names differ, so its address is pushed once under each |
| `ServedZone.NamesCollideIff` | crates/jiji-agent/src/dns.rs:269-278 | two records publish a common name if and only if they are of one service, one service is named like the other with its server appended, or both with their servers appended read the same |
| `ServedZone.NameIsOwnIff` | crates/jiji-agent/src/dns.rs:260-281 | a service's aggregate or per-server name lists its own records only if and only if no reachable record of another service reads so; otherwise that record's address is in the zone under the name |

## Left out

- SQLite, its write-ahead log, migrations, backups and integrity checks: tables are maps, transactions atomic steps, and no single statement fails on its own.
- Byte quotas: an exchange that runs out of quota is one that stops after any number of records.
- Sockets, timeouts, framing and JSON: a message is a value that may arrive late, repeatedly or never.
- SHA-256 and JSON canonical form: the content hash is any injective function, so a theorem says nothing about colliding hashes.
- Text forms of addresses, prefixes and labels: membership addresses are compared as text, label decoding and prefix parsing are parameters.
- Calendars, time zones and schedule errors: a schedule is any unbounded set of times with its next-occurrence function.
- How DNS forwarders are asked, the serving loops and the liveness clock: the forwarders' answer and reachability are parameters.
- Container, `ip` and `wg` commands beyond their effect on peers, allowed addresses and routes; the agent's links, bridges, firewall and proxy.
- Which finished runs retention keeps: a retention step may drop any finished runs.
- Text of error messages, logging, diagnostics, idempotency keys and lock poisoning.
- Rendering of cron specs, mounts, environment files, builds, configuration and the other CLI commands.
- Replication.OwnersAreAuthoritative: commits are tied to one owner and one replica per deployment, membership is fixed during a run and every node follows the protocol; without the ties a member can claim another owner's deployment under its own name, so with members that do not follow it only `Attribution.HonestOwnersAreNotForged` holds.
- Replication.SnapshotsAreAccepted: assumes unique management addresses, because the code attributes a connection to the least node id that holds its address (`Membership.PeerSpeaksFor`).
- Queries.AskableIff: for names of ASCII characters; of the decoding of labels only what it does to octets below 128 and that others do not become ASCII is used.
- WireGuard.Agent.ReconcileOnce: an acknowledged command is assumed to have taken effect; what it says under failures is for keys and prefixes that nodes do not share, and failures of route deletions, which the code ignores, may leave leftover routes.
- WireGuard.PlanReconciliation: the planner stops the process at an active record without any endpoint; the model asks that there is none.
- Membership.ActiveMembersAreExclusive, Membership.ArrivalOutcome, Membership.NodeTombstonesHold, Membership.WinnersAreNewest, Catalog.DeploymentTombstonesHold and Catalog.WinnersAreNewest: stated for stores that hold numbers of any size; `Ledger.BoundedIsLawful` carries the log theorems over to signed columns, and refusing more records keeps what these say of the records that are stored.
- Desired.CommitWins: the column's bound is that of a signed 64-bit integer, to which the database binding converts unsigned numbers or fails; a failed write changes nothing.
- Leases.LeaseStore.ClaimAddressLease: a claim that conflicts in both unique columns is refused here; which conflict the database reports first is not modelled, and the allocator makes no such claim.
- CronRuns.EveryRunKeepsInv: each run has one task and steps of different runs interleave in any order; releasing a lease and recording a result do not fail on their own; a container that names a run as its deployment does not claim to be managed by the catalog (`CronRuns.ManagedImageRevivesLease` shows why); label values are without surrounding white space and vertical bars.
- Scheduler.TickIsCorrect: ids derived from different jobs or due times are assumed to differ; they are SHA-256 digests.
- Handover.Reconciler.ReconcileServiceCrons: during a reconciliation nobody else installs or removes jobs.
