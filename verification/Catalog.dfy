/** The service catalog: which deployment records a view accepts, which of a replica's deployments is
    the newest, and exactly when that answer is independent of the order of arrival. */
module Catalog {
  import opened Names
  import opened Ledger
  import opened Membership

  const CATALOG_PROTOCOL_VERSION := 1
  const CATALOG_SCHEMA_VERSION := 2

  datatype DeploymentState = Candidate | Active | Draining | Stopped | Tombstoned

  datatype Health = Unknown | Healthy | Unhealthy

  datatype Record = Record(
    projectId: string, recoveryEpoch: nat, protocolVersion: nat, schemaVersion: nat,
    service: string, replicaId: string, ownerNodeId: string, ownerEpoch: nat, revision: nat,
    deploymentId: string, address: Ipv4, ports: seq<nat>, image: string,
    state: DeploymentState, health: Health)

  function ValidateRecord(r: Record): Option<Error> {
    if r.protocolVersion != CATALOG_PROTOCOL_VERSION then Some(ProtocolVersion)
    else if r.schemaVersion != CATALOG_SCHEMA_VERSION then Some(SchemaVersion)
    else if r.projectId == "" || r.service == "" || r.replicaId == "" || r.ownerNodeId == ""
            || r.deploymentId == "" || r.revision == 0 || r.ownerEpoch == 0 then Some(InvalidRecord)
    else None
  }

  function Verify(scope: Scope, members: map<string, Member>, p: Provenance, r: Record): Option<Error> {
    var invalid := ValidateRecord(r);
    if invalid.Some? then invalid
    else if r.projectId != scope.projectId then Some(WrongProject)
    else if r.recoveryEpoch != scope.recoveryEpoch then Some(RecoveryEpoch)
    else Authenticate(members, p, r.ownerNodeId)
  }

  /** The replica is already known at a higher owner epoch, or the deployment is. */
  function StaleOwner(view: map<string, Record>, r: Record): Option<Error> {
    if exists d :: d in view && view[d].replicaId == r.replicaId && r.ownerEpoch < view[d].ownerEpoch
    then Some(StaleOwnerEpoch)
    else if r.deploymentId in view && r.ownerEpoch < view[r.deploymentId].ownerEpoch then Some(StaleOwnerEpoch)
    else None
  }

  function Resurrection(view: map<string, Record>, r: Record): Option<Error> {
    if r.deploymentId in view && view[r.deploymentId].state.Tombstoned? && !r.state.Tombstoned?
       && r.ownerEpoch == view[r.deploymentId].ownerEpoch then Some(TombstoneResurrection)
    else None
  }

  function CatalogRules(scope: Scope, members: map<string, Member>, digest: Record -> nat): Rules<string, Record> {
    Rules(
      (r: Record) => r.deploymentId,
      (r: Record) => Rank(r.ownerEpoch, r.revision, r.state.Tombstoned?, digest(r)),
      (p: Provenance, r: Record) => Verify(scope, members, p, r),
      (view: map<string, Record>, r: Record) => StaleOwner(view, r),
      (view: map<string, Record>, r: Record) => Resurrection(view, r))
  }

  lemma CatalogRulesAreLawful(scope: Scope, members: map<string, Member>, digest: Record -> nat)
    requires Injective(digest)
    ensures Lawful(CatalogRules(scope, members, digest))
    ensures FencesTombstones(CatalogRules(scope, members, digest))
  {
    var rules := CatalogRules(scope, members, digest);
    forall a, b | rules.rank(a) == rules.rank(b) ensures a == b {
      assert digest(a) == digest(b);
    }
    forall a, b, r | SubMap(a, b) && rules.early(b, r).None? ensures rules.early(a, r).None? {
      assert forall d :: d in a ==> d in b && a[d] == b[d];
    }
    forall a, b, r | SubMap(a, b) && rules.late(b, r).None? ensures rules.late(a, r).None? {
    }
  }

  /** Whatever happens after a deployment was tombstoned at an owner epoch, it stays tombstoned or is at a
      strictly higher one; and its place in the order never falls. */
  lemma DeploymentTombstonesHold(scope: Scope, members: map<string, Member>, digest: Record -> nat,
                                 before: seq<Op<Record>>, later: seq<Op<Record>>, d: string)
    requires Injective(digest)
    requires d in Run(CatalogRules(scope, members, digest), Store([], map[]), before).table
    ensures var rules := CatalogRules(scope, members, digest);
            var s := Run(rules, Store([], map[]), before);
            var t := Run(rules, s, later);
            && d in t.table && (t.table[d] == s.table[d] || Outranks(digest, t.table[d], s.table[d]))
            && (s.table[d].state.Tombstoned? ==>
                  t.table[d].state.Tombstoned? || s.table[d].ownerEpoch < t.table[d].ownerEpoch)
  {
    var rules := CatalogRules(scope, members, digest);
    CatalogRulesAreLawful(scope, members, digest);
    RunKeepsConsistent(rules, Store([], map[]), before);
    RunAdvances(rules, Run(rules, Store([], map[]), before), later);
    var s := Run(rules, Store([], map[]), before);
    RankedAbove(scope, members, digest, s.table[d], s.table[d], Run(rules, s, later).table[d]);
  }

  // ----- exactly what becomes of an arrival -----

  /** The record belongs to the scope and has every field it needs. */
  ghost predicate Complete(scope: Scope, r: Record) {
    && r.protocolVersion == 1 && r.schemaVersion == 2
    && r.projectId == scope.projectId && r.projectId != "" && r.recoveryEpoch == scope.recoveryEpoch
    && r.service != "" && r.replicaId != "" && r.ownerNodeId != "" && r.deploymentId != ""
    && r.ownerEpoch > 0 && r.revision > 0
  }

  /** One record of a deployment is above another: owner epoch, then revision, then a tombstone over any other
      state, then the content hash. */
  ghost predicate Outranks(digest: Record -> nat, a: Record, b: Record) {
    || a.ownerEpoch > b.ownerEpoch
    || (a.ownerEpoch == b.ownerEpoch && a.revision > b.revision)
    || (a.ownerEpoch == b.ownerEpoch && a.revision == b.revision && a.state.Tombstoned? && !b.state.Tombstoned?)
    || (&& a.ownerEpoch == b.ownerEpoch && a.revision == b.revision && a.state.Tombstoned? == b.state.Tombstoned?
        && digest(a) > digest(b))
  }

  /** The replica is known at a higher owner epoch. */
  ghost predicate Stale(table: map<string, Record>, r: Record) {
    exists d :: d in table && table[d].replicaId == r.replicaId && r.ownerEpoch < table[d].ownerEpoch
  }

  /** The deployment's winner is a tombstone of the epoch of a record that is none. */
  ghost predicate Resurrects(table: map<string, Record>, r: Record) {
    r.deploymentId in table && table[r.deploymentId].state.Tombstoned? && !r.state.Tombstoned?
    && table[r.deploymentId].ownerEpoch == r.ownerEpoch
  }

  /** The record may be presented so and is not behind what is known of its replica. */
  ghost predicate Admitted(scope: Scope, members: map<string, Member>, table: map<string, Record>, p: Provenance,
                           r: Record) {
    Complete(scope, r) && SpeaksFor(members, p, r.ownerNodeId) && !Stale(table, r)
  }

  ghost predicate Beats(digest: Record -> nat, fits: Record -> bool, table: map<string, Record>, r: Record) {
    fits(r) && !Resurrects(table, r) && (r.deploymentId in table ==> Outranks(digest, r, table[r.deploymentId]))
  }

  ghost predicate Trails(digest: Record -> nat, table: map<string, Record>, r: Record) {
    r.deploymentId in table && r.ownerEpoch == table[r.deploymentId].ownerEpoch &&
      !Outranks(digest, r, table[r.deploymentId])
  }

  lemma VerifyIff(scope: Scope, members: map<string, Member>, p: Provenance, r: Record)
    requires p.Peer? ==> Keyed(members)
    ensures Verify(scope, members, p, r).None? <==> Complete(scope, r) && SpeaksFor(members, p, r.ownerNodeId)
  {
    PeerSpeaksFor(members, p, r.ownerNodeId);
  }

  lemma OutranksIff(scope: Scope, members: map<string, Member>, digest: Record -> nat, table: map<string, Record>,
                    r: Record)
    requires Injective(digest) && r.deploymentId in table && r != table[r.deploymentId]
    ensures Covered(CatalogRules(scope, members, digest), table, r) <==> !Outranks(digest, r, table[r.deploymentId])
  {
    assert digest(r) != digest(table[r.deploymentId]);
  }

  lemma Judged(scope: Scope, members: map<string, Member>, digest: Record -> nat, fits: Record -> bool,
               s: Store<string, Record>, p: Provenance, r: Record)
    requires Injective(digest) && (p.Peer? ==> Keyed(members)) && r !in s.log
    requires Consistent(Bounded(CatalogRules(scope, members, digest), fits), s)
    ensures var verdict := Submit(Bounded(CatalogRules(scope, members, digest), fits), s, p, r);
            && (verdict.Applied? <==> Admitted(scope, members, s.table, p, r) && Beats(digest, fits, s.table, r))
            && (verdict.Superseded? <==> Admitted(scope, members, s.table, p, r) && Trails(digest, s.table, r))
            && !verdict.Duplicate?
  {
    var rules := Bounded(CatalogRules(scope, members, digest), fits);
    CatalogRulesAreLawful(scope, members, digest);
    BoundedIsLawful(CatalogRules(scope, members, digest), fits);
    TableIsMaximum(rules, s);
    SubmitIsJudge(rules, s, p, r);
    VerifyIff(scope, members, p, r);
    if r.deploymentId in s.table { OutranksIff(scope, members, digest, s.table, r); }
  }

  /** In every reachable store, exactly what becomes of whatever arrives next: it becomes its deployment's
      winner if and only if it is complete, presented by who may, of a replica not known at a higher epoch,
      above the deployment's winner, no revival of a tombstone, and fits; it is logged without winning if and
      only if it is admitted so, of the winner's epoch and not above it; no other row ever changes. */
  lemma ArrivalOutcome(scope: Scope, members: map<string, Member>, digest: Record -> nat, fits: Record -> bool,
                       ops: seq<Op<Record>>, p: Provenance, r: Record)
    requires Injective(digest) && (p.Peer? ==> Keyed(members))
    ensures var rules := Bounded(CatalogRules(scope, members, digest), fits);
            var s := Run(rules, Store([], map[]), ops);
            var t := Run(rules, Store([], map[]), ops + [Apply(p, r)]);
            var admitted := r !in s.log && Admitted(scope, members, s.table, p, r);
            && t.table == (if admitted && Beats(digest, fits, s.table, r)
                           then s.table[r.deploymentId := r] else s.table)
            && t.log == (if admitted && (Beats(digest, fits, s.table, r) || Trails(digest, s.table, r))
                         then s.log + [r] else s.log)
  {
    var rules := Bounded(CatalogRules(scope, members, digest), fits);
    var s := Run(rules, Store([], map[]), ops);
    CatalogRulesAreLawful(scope, members, digest);
    BoundedIsLawful(CatalogRules(scope, members, digest), fits);
    RunKeepsConsistent(rules, Store([], map[]), ops);
    RunOneMore(rules, Store([], map[]), ops, Apply(p, r));
    if r !in s.log { Judged(scope, members, digest, fits, s, p, r); }
  }

  /** What each refusal says is so. */
  ghost predicate IsReason(e: Error, scope: Scope, members: map<string, Member>, table: map<string, Record>,
                           p: Provenance, r: Record) {
    match e
    case ProtocolVersion => r.protocolVersion != 1
    case SchemaVersion => r.schemaVersion != 2
    case InvalidRecord =>
      r.projectId == "" || r.service == "" || r.replicaId == "" || r.ownerNodeId == "" || r.deploymentId == ""
      || r.ownerEpoch == 0 || r.revision == 0
    case WrongProject => r.projectId != scope.projectId
    case RecoveryEpoch => r.recoveryEpoch != scope.recoveryEpoch
    case UnknownPeer => p.Peer? && forall n :: n in members ==> p.source != V4(members[n].managementAddress)
    case NotOwner => !SpeaksFor(members, p, r.ownerNodeId)
    case StaleOwnerEpoch =>
      Stale(table, r) || (r.deploymentId in table && r.ownerEpoch < table[r.deploymentId].ownerEpoch)
    case TombstoneResurrection => Resurrects(table, r)
    case _ => false
  }

  /** A refusal of a view gives a reason that holds of the record, the members and the winners. */
  lemma RefusalsAreTrue(scope: Scope, members: map<string, Member>, digest: Record -> nat, v: View<string, Record>,
                        p: Provenance, r: Record)
    requires (p.Peer? ==> Keyed(members)) && Judge(CatalogRules(scope, members, digest), v, p, r).Rejected?
    ensures IsReason(Judge(CatalogRules(scope, members, digest), v, p, r).error, scope, members, v.records, p, r)
  {
    PeerSpeaksFor(members, p, r.ownerNodeId);
  }

  /** Over every run, whatever was logged at any time and however often the log was compacted since: its
      deployment's winner is that record or one above it. */
  lemma WinnersAreNewest(scope: Scope, members: map<string, Member>, digest: Record -> nat, before: seq<Op<Record>>,
                         later: seq<Op<Record>>, r: Record)
    requires Injective(digest) && r in Run(CatalogRules(scope, members, digest), Store([], map[]), before).log
    ensures var rules := CatalogRules(scope, members, digest);
            var view := Run(rules, Run(rules, Store([], map[]), before), later).table;
            && r.deploymentId in view
            && (view[r.deploymentId] == r || Outranks(digest, view[r.deploymentId], r))
  {
    var rules := CatalogRules(scope, members, digest);
    var s := Run(rules, Store([], map[]), before);
    CatalogRulesAreLawful(scope, members, digest);
    RunKeepsConsistent(rules, Store([], map[]), before);
    TableIsMaximum(rules, s);
    assert r in Elems(s.log) && Covered(rules, s.table, r);
    RunAdvances(rules, s, later);
    RankedAbove(scope, members, digest, r, s.table[r.deploymentId], Run(rules, s, later).table[r.deploymentId]);
  }

  lemma RankedAbove(scope: Scope, members: map<string, Member>, digest: Record -> nat, a: Record, b: Record, c: Record)
    requires Injective(digest)
    requires var rank := CatalogRules(scope, members, digest).rank; AtMost(rank(a), rank(b)) && AtMost(rank(b), rank(c))
    ensures c == a || Outranks(digest, c, a)
  {
    assert digest(a) == digest(c) ==> a == c;
  }

  // ----- the newest deployment of a replica -----

  /** `record_order`: owner epoch, revision, tombstone flag, deployment id. */
  predicate OlderThan(a: Record, b: Record) {
    if a.ownerEpoch != b.ownerEpoch then a.ownerEpoch < b.ownerEpoch
    else if a.revision != b.revision then a.revision < b.revision
    else if a.state.Tombstoned? != b.state.Tombstoned? then b.state.Tombstoned?
    else Before(a.deploymentId, b.deploymentId)
  }

  lemma OlderThanIsStrict(a: Record, b: Record)
    ensures !(OlderThan(a, b) && OlderThan(b, a)) && !OlderThan(a, a)
    ensures a.deploymentId != b.deploymentId ==> OlderThan(a, b) || OlderThan(b, a)
  {
    BeforeIsStrict(a.deploymentId, b.deploymentId);
    BeforeIsTotal(a.deploymentId, b.deploymentId);
  }

  lemma OlderThanIsTransitive(a: Record, b: Record, c: Record)
    requires OlderThan(a, b) && OlderThan(b, c)
    ensures OlderThan(a, c)
  {
    if Before(a.deploymentId, b.deploymentId) && Before(b.deploymentId, c.deploymentId) {
      BeforeIsTransitive(a.deploymentId, b.deploymentId, c.deploymentId);
    }
  }

  function ReplicaRecords(view: map<string, Record>, replica: string): set<Record> {
    set d | d in view && view[d].replicaId == replica :: view[d]
  }

  ghost predicate IsBest(s: set<Record>, g: Record) {
    g in s && forall r :: r in s && r != g ==> OlderThan(r, g)
  }

  ghost predicate OnePerDeployment(s: set<Record>) {
    forall a, b :: a in s && b in s && a.deploymentId == b.deploymentId ==> a == b
  }

  lemma {:induction false} BestExists(s: set<Record>)
    requires s != {} && OnePerDeployment(s)
    ensures exists g :: IsBest(s, g)
  {
    var y :| y in s;
    if s == {y} {
      assert IsBest(s, y);
    } else {
      BestExists(s - {y});
      var x :| IsBest(s - {y}, x);
      OlderThanIsStrict(x, y);
      if OlderThan(y, x) {
        assert IsBest(s, x);
      } else {
        forall z | z in s && z != y ensures OlderThan(z, y) {
          if z != x { OlderThanIsTransitive(z, x, y); }
        }
        assert IsBest(s, y);
      }
    }
  }

  ghost predicate ByDeployment(view: map<string, Record>) {
    forall d :: d in view ==> view[d].deploymentId == d
  }

  /** `CatalogView::get`: the greatest of the replica's winners. */
  ghost function Get(view: map<string, Record>, replica: string): (g: Option<Record>)
    requires ByDeployment(view)
    ensures g.None? <==> ReplicaRecords(view, replica) == {}
    ensures g.Some? ==> IsBest(ReplicaRecords(view, replica), g.value)
  {
    var s := ReplicaRecords(view, replica);
    if s == {} then None
    else
      BestExists(s);
      var g :| IsBest(s, g);
      Some(g)
  }

  lemma GetIsBest(view: map<string, Record>, replica: string, g: Record)
    requires ByDeployment(view) && IsBest(ReplicaRecords(view, replica), g)
    ensures Get(view, replica) == Some(g)
  {
    OlderThanIsStrict(g, Get(view, replica).value);
  }

  /** Owner epoch, then revision, then a tombstone over any other state, then the deployment id. */
  ghost predicate Precedes(a: Record, b: Record) {
    || a.ownerEpoch < b.ownerEpoch
    || (a.ownerEpoch == b.ownerEpoch && a.revision < b.revision)
    || (a.ownerEpoch == b.ownerEpoch && a.revision == b.revision && !a.state.Tombstoned? && b.state.Tombstoned?)
    || (&& a.ownerEpoch == b.ownerEpoch && a.revision == b.revision && a.state.Tombstoned? == b.state.Tombstoned?
        && Before(a.deploymentId, b.deploymentId))
  }

  /** There is an answer exactly when the replica has a winner, and it is the one no other winner of the replica
      follows. */
  lemma GetIsLast(view: map<string, Record>, replica: string, g: Record)
    requires ByDeployment(view)
    ensures Get(view, replica).None? <==> forall d :: d in view ==> view[d].replicaId != replica
    ensures Get(view, replica) == Some(g) <==>
            && g.deploymentId in view && view[g.deploymentId] == g && g.replicaId == replica
            && forall d :: d in view && d != g.deploymentId && view[d].replicaId == replica ==> Precedes(view[d], g)
  {
    var s := ReplicaRecords(view, replica);
    forall r ensures r in s <==> r.deploymentId in view && view[r.deploymentId] == r && r.replicaId == replica {
      if r in s { var d :| d in view && view[d].replicaId == replica && view[d] == r; }
    }
    assert (forall d :: d in view ==> view[d].replicaId != replica) <==> s == {} by {
      if s == {} {
        forall d | d in view ensures view[d].replicaId != replica { assert view[d] !in s; }
      }
    }
    if Get(view, replica) == Some(g) {
      forall d | d in view && d != g.deploymentId && view[d].replicaId == replica ensures Precedes(view[d], g) {
        assert view[d] in s && OlderThan(view[d], g);
      }
    }
    if && g in s
       && forall d :: d in view && d != g.deploymentId && view[d].replicaId == replica ==> Precedes(view[d], g) {
      assert forall r :: r in s && r != g ==> r.deploymentId != g.deploymentId && OlderThan(r, g);
      GetIsBest(view, replica, g);
    }
  }

  // ----- order independence -----

  ghost predicate OneReplica(s: set<Record>) {
    forall a, b :: a in s && b in s && a.deploymentId == b.deploymentId ==> a.replicaId == b.replicaId
  }

  /** Older by `record_order`, or, within one deployment, outranked by content digest only. */
  ghost predicate Outdated(digest: Record -> nat, a: Record, b: Record) {
    OlderThan(a, b)
    || (a.ownerEpoch == b.ownerEpoch && a.revision == b.revision && a.state.Tombstoned? == b.state.Tombstoned?
        && a.deploymentId == b.deploymentId && digest(a) < digest(b))
  }

  /** The newest record of a replica in a set of records, the reference answer of `get`. */
  ghost predicate IsNewest(digest: Record -> nat, s: set<Record>, replica: string, g: Record) {
    && g in s && g.replicaId == replica
    && forall r :: r in s && r.replicaId == replica && r != g ==> Outdated(digest, r, g)
  }

  /** A live record that competes with a tombstone of its own deployment and epoch. */
  ghost predicate Shadowed(s: set<Record>, g: Record) {
    && !g.state.Tombstoned?
    && exists t :: t in s && t.deploymentId == g.deploymentId && t.ownerEpoch == g.ownerEpoch && t.state.Tombstoned?
  }

  ghost function Records(ds: seq<Delivery<Record>>): set<Record> {
    set i | 0 <= i < |ds| :: ds[i].record
  }

  /** A delivery schedule of exactly these records, any order and repetition, each verifiable. */
  ghost predicate Schedules(rules: Rules<string, Record>, s: set<Record>, ds: seq<Delivery<Record>>) {
    Records(ds) == s && forall d :: d in ds ==> rules.check(d.provenance, d.record).None?
  }

  lemma {:induction false} DeliverIsSound(rules: Rules<string, Record>, ds: seq<Delivery<Record>>)
    requires VerifiedIsWeakest(rules)
    ensures Sound(rules, Deliver(rules, ds)) && Deliver(rules, ds).ids <= Records(ds)
    ensures forall d :: d in Deliver(rules, ds).records ==> Deliver(rules, ds).records[d] in Records(ds)
  {
    if ds != [] {
      var init, d := ds[..|ds|-1], ds[|ds|-1];
      DeliverIsSound(rules, init);
      AbsorbKeepsSound(rules, Deliver(rules, init), d.provenance, d.record);
      assert Records(init) <= Records(ds);
      assert ds[|ds|-1].record in Records(ds);
    }
  }

  lemma RecordsOneMore(ds: seq<Delivery<Record>>)
    requires ds != []
    ensures Records(ds) == Records(ds[..|ds|-1]) + {ds[|ds|-1].record}
  {
    var init := ds[..|ds|-1];
    forall r | r in Records(ds) ensures r in Records(init) + {ds[|ds|-1].record} {
      var i :| 0 <= i < |ds| && ds[i].record == r;
      if i < |init| { assert init[i].record in Records(init); }
    }
    forall r | r in Records(init) ensures r in Records(ds) {
      var i :| 0 <= i < |init| && init[i].record == r;
      assert ds[i].record in Records(ds);
    }
  }

  /** What the judgement of the newest record `g` can be, when it is not shadowed by the view. */
  lemma NewestIsApplied(scope: Scope, members: map<string, Member>, digest: Record -> nat, s: set<Record>,
                        v: View<string, Record>, g: Record, p: Provenance)
    requires Injective(digest)
    requires var rules := CatalogRules(scope, members, digest); Sound(rules, v) && rules.check(p, g).None?
    requires OneReplica(s) && IsNewest(digest, s, g.replicaId, g)
    requires forall d :: d in v.records ==> v.records[d] in s
    requires Resurrection(v.records, g).None?
    ensures var rules := CatalogRules(scope, members, digest);
            var w := Absorb(rules, v, g, Judge(rules, v, p, g));
            g.deploymentId in w.records && w.records[g.deploymentId] == g
  {
    var rules := CatalogRules(scope, members, digest);
    forall d | d in v.records && v.records[d].replicaId == g.replicaId
      ensures v.records[d].ownerEpoch <= g.ownerEpoch
    {
    }
    assert g in v.ids ==> Covered(rules, v.records, g);
    if g.deploymentId in v.records && v.records[g.deploymentId] != g {
      var c := v.records[g.deploymentId];
      assert Outdated(digest, c, g);
      BeforeIsStrict(c.deploymentId, g.deploymentId);
      assert Less(rules.rank(c), rules.rank(g));
    }
  }

  /** The newest record, once it is the winner of its deployment, is never displaced. */
  lemma NewestStays(scope: Scope, members: map<string, Member>, digest: Record -> nat, s: set<Record>,
                    v: View<string, Record>, g: Record, p: Provenance, x: Record)
    requires OneReplica(s) && IsNewest(digest, s, g.replicaId, g) && x in s && x != g
    requires g.deploymentId in v.records && v.records[g.deploymentId] == g
    ensures var rules := CatalogRules(scope, members, digest);
            var w := Absorb(rules, v, x, Judge(rules, v, p, x));
            g.deploymentId in w.records && w.records[g.deploymentId] == g
  {
    if x.deploymentId == g.deploymentId {
      assert Outdated(digest, x, g);
      BeforeIsStrict(x.deploymentId, g.deploymentId);
    }
  }

  ghost predicate Placed(view: map<string, Record>, g: Record) {
    g.deploymentId in view && view[g.deploymentId] == g
  }

  /** Whenever it has arrived, the newest record is the winner of its deployment, provided nothing
      shadows it or it arrived first. */
  lemma {:induction false} NewestIsPlaced(scope: Scope, members: map<string, Member>, digest: Record -> nat,
                                          s: set<Record>, ds: seq<Delivery<Record>>, g: Record)
    requires Injective(digest) && OneReplica(s) && IsNewest(digest, s, g.replicaId, g)
    requires Records(ds) <= s && g in Records(ds)
    requires forall d :: d in ds ==> CatalogRules(scope, members, digest).check(d.provenance, d.record).None?
    requires !Shadowed(s, g) || ds[0].record == g
    ensures Placed(Deliver(CatalogRules(scope, members, digest), ds).records, g)
  {
    var rules := CatalogRules(scope, members, digest);
    var init, d := ds[..|ds|-1], ds[|ds|-1];
    RecordsOneMore(ds);
    if g in Records(init) {
      NewestIsPlaced(scope, members, digest, s, init, g);
      if d.record != g {
        NewestStays(scope, members, digest, s, Deliver(rules, init), g, d.provenance, d.record);
      }
    } else {
      NewestArrives(scope, members, digest, s, init, g, d.provenance);
    }
  }

  lemma NewestArrives(scope: Scope, members: map<string, Member>, digest: Record -> nat, s: set<Record>,
                      init: seq<Delivery<Record>>, g: Record, p: Provenance)
    requires Injective(digest) && OneReplica(s) && IsNewest(digest, s, g.replicaId, g)
    requires Records(init) <= s && CatalogRules(scope, members, digest).check(p, g).None?
    requires !Shadowed(s, g) || init == []
    ensures var rules := CatalogRules(scope, members, digest);
            var v := Deliver(rules, init);
            Placed(Absorb(rules, v, g, Judge(rules, v, p, g)).records, g)
  {
    var rules := CatalogRules(scope, members, digest);
    CatalogRulesAreLawful(scope, members, digest);
    DeliverIsSound(rules, init);
    NewestIsApplied(scope, members, digest, s, Deliver(rules, init), g, p);
  }

  lemma PlacedIsGot(digest: Record -> nat, s: set<Record>, view: map<string, Record>, g: Record)
    requires IsNewest(digest, s, g.replicaId, g) && ByDeployment(view)
    requires forall d :: d in view ==> view[d] in s
    requires g.deploymentId in view && view[g.deploymentId] == g
    ensures Get(view, g.replicaId) == Some(g)
  {
    forall r | r in ReplicaRecords(view, g.replicaId) && r != g ensures OlderThan(r, g) {
      assert Outdated(digest, r, g);
    }
    GetIsBest(view, g.replicaId, g);
  }

  /** Sufficiency: if the newest record is not shadowed, every schedule of the set, in any order and
      with any repetition, some arrivals being refused on the way, answers it. */
  lemma EveryScheduleAnswersNewest(scope: Scope, members: map<string, Member>, digest: Record -> nat, s: set<Record>,
                                   ds: seq<Delivery<Record>>, g: Record)
    requires Injective(digest) && OneReplica(s) && IsNewest(digest, s, g.replicaId, g)
    requires Schedules(CatalogRules(scope, members, digest), s, ds)
    requires !Shadowed(s, g) || ds[0].record == g
    ensures ByDeployment(Deliver(CatalogRules(scope, members, digest), ds).records)
    ensures Get(Deliver(CatalogRules(scope, members, digest), ds).records, g.replicaId) == Some(g)
  {
    var rules := CatalogRules(scope, members, digest);
    CatalogRulesAreLawful(scope, members, digest);
    DeliverIsSound(rules, ds);
    NewestIsPlaced(scope, members, digest, s, ds, g);
    PlacedIsGot(digest, s, Deliver(rules, ds).records, g);
  }

  /** A tombstone that arrives first keeps the deployment tombstoned against the shadowed record. */
  lemma {:induction false} TombstoneHolds(scope: Scope, members: map<string, Member>, digest: Record -> nat,
                                          s: set<Record>, ds: seq<Delivery<Record>>, g: Record, t: Record)
    requires Injective(digest) && OneReplica(s) && IsNewest(digest, s, g.replicaId, g) && t in s
    requires t.deploymentId == g.deploymentId && t.ownerEpoch == g.ownerEpoch
    requires t.state.Tombstoned? && !g.state.Tombstoned?
    requires ds != [] && ds[0].record == t && Records(ds) <= s
    requires CatalogRules(scope, members, digest).check(ds[0].provenance, t).None?
    ensures var v := Deliver(CatalogRules(scope, members, digest), ds);
            g.deploymentId in v.records && v.records[g.deploymentId].state.Tombstoned?
              && v.records[g.deploymentId].ownerEpoch == g.ownerEpoch
  {
    var rules := CatalogRules(scope, members, digest);
    CatalogRulesAreLawful(scope, members, digest);
    var init, d := ds[..|ds|-1], ds[|ds|-1];
    RecordsOneMore(ds);
    if init == [] {
      assert Deliver(rules, init) == View(map[], {});
    } else {
      TombstoneHolds(scope, members, digest, s, init, g, t);
      var v := Deliver(rules, init);
      DeliverIsSound(rules, ds);
      AbsorbAdvances(rules, v, d.provenance, d.record);
      var w := Deliver(rules, ds);
      var c := w.records[g.deploymentId];
      assert c.replicaId == g.replicaId && (c == g || Outdated(digest, c, g));
      assert c.ownerEpoch == g.ownerEpoch;
    }
  }

  ghost function Listing(s: set<Record>): (ds: seq<Delivery<Record>>)
    ensures Records(ds) == s
    ensures forall d :: d in ds ==> d.provenance == Verified
  {
    if s == {} then []
    else
      var r :| r in s;
      var ds := Listing(s - {r}) + [Delivery(Verified, r)];
      assert ds[..|ds|-1] == Listing(s - {r});
      RecordsOneMore(ds);
      ds
  }

  lemma RecordsOfConcat(a: seq<Delivery<Record>>, b: seq<Delivery<Record>>)
    ensures Records(a + b) == Records(a) + Records(b)
  {
    forall r | r in Records(a + b) ensures r in Records(a) + Records(b) {
      var i :| 0 <= i < |a + b| && (a + b)[i].record == r;
      if i < |a| { assert a[i].record == r; } else { assert b[i-|a|].record == r; }
    }
    forall r | r in Records(a) ensures r in Records(a + b) {
      var i :| 0 <= i < |a| && a[i].record == r;
      assert (a + b)[i].record == r;
    }
    forall r | r in Records(b) ensures r in Records(a + b) {
      var i :| 0 <= i < |b| && b[i].record == r;
      assert (a + b)[i+|a|].record == r;
    }
  }

  ghost predicate Converges(rules: Rules<string, Record>, s: set<Record>, replica: string)
    requires Lawful(rules) && forall r :: rules.slot(r) == r.deploymentId
  {
    forall a, b :: Schedules(rules, s, a) && Schedules(rules, s, b) ==>
      (DeliverIsSound(rules, a); DeliverIsSound(rules, b);
       Get(Deliver(rules, a).records, replica) == Get(Deliver(rules, b).records, replica))
  }

  /** A schedule of the whole set that starts with a record of choice. */
  lemma ScheduleStartingWith(rules: Rules<string, Record>, s: set<Record>,
                             r: Record) returns (ds: seq<Delivery<Record>>)
    requires r in s && forall x :: x in s ==> rules.check(Verified, x).None?
    ensures Schedules(rules, s, ds) && ds != [] && ds[0] == Delivery(Verified, r)
  {
    var one, all := [Delivery(Verified, r)], Listing(s);
    ds := one + all;
    RecordsOfConcat(one, all);
    RecordsOneMore(one);
    forall d | d in all ensures d.record in s {
      var i :| 0 <= i < |all| && all[i] == d;
      assert all[i].record in Records(all);
    }
  }

  /** Necessity: two schedules of a set whose newest record is shadowed that answer differently. */
  lemma ShadowedDiverges(scope: Scope, members: map<string, Member>, digest: Record -> nat, s: set<Record>, g: Record)
      returns (first: seq<Delivery<Record>>, last: seq<Delivery<Record>>)
    requires Injective(digest) && OneReplica(s) && IsNewest(digest, s, g.replicaId, g) && Shadowed(s, g)
    requires forall r :: r in s ==> CatalogRules(scope, members, digest).check(Verified, r).None?
    ensures var rules := CatalogRules(scope, members, digest);
            && Schedules(rules, s, first) && Schedules(rules, s, last)
            && ByDeployment(Deliver(rules, first).records) && ByDeployment(Deliver(rules, last).records)
            && Get(Deliver(rules, first).records, g.replicaId) == Some(g)
            && Get(Deliver(rules, last).records, g.replicaId) != Some(g)
  {
    var rules := CatalogRules(scope, members, digest);
    var t :| t in s && t.deploymentId == g.deploymentId && t.ownerEpoch == g.ownerEpoch && t.state.Tombstoned?;
    first := ScheduleStartingWith(rules, s, g);
    EveryScheduleAnswersNewest(scope, members, digest, s, first, g);
    last := ScheduleStartingWith(rules, s, t);
    TombstoneFirstHidesNewest(scope, members, digest, s, last, g, t);
  }

  lemma TombstoneFirstHidesNewest(scope: Scope, members: map<string, Member>, digest: Record -> nat, s: set<Record>,
                                  ds: seq<Delivery<Record>>, g: Record, t: Record)
    requires Injective(digest) && OneReplica(s) && IsNewest(digest, s, g.replicaId, g) && t in s
    requires t.deploymentId == g.deploymentId && t.ownerEpoch == g.ownerEpoch
    requires t.state.Tombstoned? && !g.state.Tombstoned?
    requires Schedules(CatalogRules(scope, members, digest), s, ds) && ds != [] && ds[0].record == t
    ensures ByDeployment(Deliver(CatalogRules(scope, members, digest), ds).records)
    ensures Get(Deliver(CatalogRules(scope, members, digest), ds).records, g.replicaId) != Some(g)
  {
    var rules := CatalogRules(scope, members, digest);
    CatalogRulesAreLawful(scope, members, digest);
    TombstoneHolds(scope, members, digest, s, ds, g, t);
    DeliverIsSound(rules, ds);
  }

  /** For a finite set of verifiable records in which each deployment belongs to one replica, the
      answer of `get` is the same for every order, repetition and interleaving if and only if the
      newest record of the replica is not a live record above a tombstone of its own deployment and
      owner epoch. */
  lemma ConvergesIff(scope: Scope, members: map<string, Member>, digest: Record -> nat, s: set<Record>,
                     replica: string, g: Record)
    requires Injective(digest) && OneReplica(s) && IsNewest(digest, s, replica, g)
    requires forall r :: r in s ==> CatalogRules(scope, members, digest).check(Verified, r).None?
    ensures Lawful(CatalogRules(scope, members, digest))
    ensures Converges(CatalogRules(scope, members, digest), s, replica) <==> !Shadowed(s, g)
  {
    var rules := CatalogRules(scope, members, digest);
    CatalogRulesAreLawful(scope, members, digest);
    if Shadowed(s, g) {
      var first, last := ShadowedDiverges(scope, members, digest, s, g);
    } else {
      forall ds | Schedules(rules, s, ds)
        ensures ByDeployment(Deliver(rules, ds).records)
        ensures Get(Deliver(rules, ds).records, replica) == Some(g)
      {
        EveryScheduleAnswersNewest(scope, members, digest, s, ds, g);
      }
    }
  }

  lemma OutdatedIsTotal(digest: Record -> nat, a: Record, b: Record)
    requires Injective(digest) && a != b
    ensures Outdated(digest, a, b) || Outdated(digest, b, a)
  {
    OlderThanIsStrict(a, b);
    assert digest(a) != digest(b);
    BeforeIsTotal(a.deploymentId, b.deploymentId);
  }

  lemma OutdatedIsTransitive(digest: Record -> nat, a: Record, b: Record, c: Record)
    requires Outdated(digest, a, b) && Outdated(digest, b, c)
    ensures Outdated(digest, a, c)
  {
    if OlderThan(a, b) && OlderThan(b, c) {
      OlderThanIsTransitive(a, b, c);
    }
  }

  lemma {:induction false} NewestExists(digest: Record -> nat, s: set<Record>, replica: string)
    requires Injective(digest) && exists r :: r in s && r.replicaId == replica
    ensures exists g :: IsNewest(digest, s, replica, g)
  {
    var y :| y in s && y.replicaId == replica;
    if r :| r in s - {y} && r.replicaId == replica {
      NewestExists(digest, s - {y}, replica);
      var x :| IsNewest(digest, s - {y}, replica, x);
      OutdatedIsTotal(digest, x, y);
      if Outdated(digest, y, x) {
        assert IsNewest(digest, s, replica, x);
      } else {
        forall z | z in s && z.replicaId == replica && z != y ensures Outdated(digest, z, y) {
          if z != x { OutdatedIsTransitive(digest, z, x, y); }
        }
        assert IsNewest(digest, s, replica, y);
      }
    } else {
      assert IsNewest(digest, s, replica, y);
    }
  }

  /** No live record orders above a tombstone of the same deployment and owner epoch. */
  ghost predicate NoneAboveTombstone(rules: Rules<string, Record>, s: set<Record>) {
    forall l, t :: (&& l in s && t in s && l.deploymentId == t.deploymentId && l.ownerEpoch == t.ownerEpoch
                    && t.state.Tombstoned? && !l.state.Tombstoned?)
                   ==> Less(rules.rank(l), rules.rank(t))
  }

  lemma NotShadowed(rules: Rules<string, Record>, digest: Record -> nat, s: set<Record>, g: Record)
    requires forall r :: rules.rank(r) == Rank(r.ownerEpoch, r.revision, r.state.Tombstoned?, digest(r))
    requires IsNewest(digest, s, g.replicaId, g) && OneReplica(s) && NoneAboveTombstone(rules, s)
    ensures !Shadowed(s, g)
  {
    forall t | t in s && t.deploymentId == g.deploymentId && t != g ensures Less(rules.rank(t), rules.rank(g)) {
      assert Outdated(digest, t, g);
      BeforeIsStrict(t.deploymentId, g.deploymentId);
    }
  }

  /** Hence a set without a live record above its tombstone answers alike for every replica. */
  lemma WithoutResurrectionAllConverge(scope: Scope, members: map<string, Member>, digest: Record -> nat,
                                       s: set<Record>, replica: string)
    requires Injective(digest) && OneReplica(s) && NoneAboveTombstone(CatalogRules(scope, members, digest), s)
    requires forall r :: r in s ==> CatalogRules(scope, members, digest).check(Verified, r).None?
    ensures Lawful(CatalogRules(scope, members, digest))
    ensures Converges(CatalogRules(scope, members, digest), s, replica)
  {
    var rules := CatalogRules(scope, members, digest);
    CatalogRulesAreLawful(scope, members, digest);
    if exists r :: r in s && r.replicaId == replica {
      NewestExists(digest, s, replica);
      var g :| IsNewest(digest, s, replica, g);
      NotShadowed(rules, digest, s, g);
      ConvergesIff(scope, members, digest, s, replica, g);
    } else {
      forall ds | Schedules(rules, s, ds)
        ensures ByDeployment(Deliver(rules, ds).records)
        ensures Get(Deliver(rules, ds).records, replica) == None
      {
        DeliverIsSound(rules, ds);
        assert ReplicaRecords(Deliver(rules, ds).records, replica) == {};
      }
    }
  }

  // ----- the records DNS may answer with -----

  predicate Eligible(r: Record) { r.state.Active? && r.health.Healthy? }

  /** `w` is the record served for its replica: active and healthy, and no such record is newer. */
  ghost predicate IsServed(records: seq<Record>, w: Record) {
    && w in records && w.state.Active? && w.health.Healthy?
    && forall r :: r in records && r.state.Active? && r.health.Healthy? && r.replicaId == w.replicaId ==>
         !OlderThan(w, r)
  }

  /** The newest active, healthy record of every replica that has one. */
  method ActiveHealthyWinners(records: seq<Record>) returns (winners: map<string, Record>)
    ensures forall r :: r in records && r.state.Active? && r.health.Healthy? ==> r.replicaId in winners
    ensures forall replica :: replica in winners ==>
              IsServed(records, winners[replica]) && winners[replica].replicaId == replica
  {
    winners := map[];
    for i := 0 to |records|
      invariant forall r :: r in records[..i] && Eligible(r) ==> r.replicaId in winners
      invariant forall replica :: replica in winners ==>
                  IsServed(records[..i], winners[replica]) && winners[replica].replicaId == replica
    {
      var record := records[i];
      assert records[..i+1] == records[..i] + [record];
      if Eligible(record) {
        OlderThanIsStrict(record, record);
        if record.replicaId !in winners {
          winners := winners[record.replicaId := record];
        } else if OlderThan(winners[record.replicaId], record) {
          var current := winners[record.replicaId];
          forall r | r in records[..i+1] && Eligible(r) && r.replicaId == record.replicaId
            ensures !OlderThan(record, r)
          {
            if OlderThan(record, r) { OlderThanIsTransitive(current, record, r); }
          }
          winners := winners[record.replicaId := record];
        }
      }
    }
    assert records[..|records|] == records;
  }

  /** Among the winners of a view, which hold one record per deployment, the served record of a
      replica is unique. */
  lemma ServedIsUnique(records: seq<Record>, a: Record, b: Record)
    requires OnePerDeployment(set r | r in records)
    requires IsServed(records, a) && IsServed(records, b) && a.replicaId == b.replicaId
    ensures a == b
  {
    OlderThanIsStrict(a, b);
  }
}
