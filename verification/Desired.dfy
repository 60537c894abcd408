/** Replicated desired scale per service: a join over the accepted records, the commit that always
    wins, and the membership change that stops every later write. */
module Desired {
  import opened Names
  import opened Ledger
  import opened Membership

  const DESIRED_PROTOCOL_VERSION := 1
  const DESIRED_SCHEMA_VERSION := 2
  const DESIRED_MIN_SUPPORTED_SCHEMA_VERSION := 1

  datatype Wish = Wish(
    projectId: string, recoveryEpoch: nat, protocolVersion: nat, schemaVersion: nat, service: string,
    scaleOverride: Option<nat>, revision: nat, authorNodeId: string, authorEpoch: nat)

  function ValidateWish(r: Wish): Option<Error> {
    if r.protocolVersion != DESIRED_PROTOCOL_VERSION then Some(ProtocolVersion)
    else if r.schemaVersion < DESIRED_MIN_SUPPORTED_SCHEMA_VERSION || r.schemaVersion > DESIRED_SCHEMA_VERSION
    then Some(SchemaVersion)
    else if r.projectId == "" || r.service == "" || r.authorNodeId == "" || r.revision == 0 || r.authorEpoch == 0
    then Some(InvalidRecord)
    else None
  }

  function AuthorError(e: Error): Error {
    if e.UnknownPeer? then UnknownAuthor else if e.NotOwner? then NotAuthor else e
  }

  function VerifyWish(scope: Scope, members: map<string, Member>, p: Provenance, r: Wish): Option<Error> {
    var invalid := ValidateWish(r);
    if invalid.Some? then invalid
    else if r.projectId != scope.projectId then Some(WrongProject)
    else if r.recoveryEpoch != scope.recoveryEpoch then Some(RecoveryEpoch)
    else
      match Authenticate(members, p, r.authorNodeId)
      case Some(e) => Some(AuthorError(e))
      case None =>
        if r.authorNodeId !in members then Some(UnknownAuthor)
        else if members[r.authorNodeId].ownerEpoch != r.authorEpoch then Some(StaleAuthor)
        else None
  }

  function DesiredRules(scope: Scope, members: map<string, Member>, digest: Wish -> nat): Rules<string, Wish> {
    Rules(
      (r: Wish) => r.service,
      (r: Wish) => Rank(0, r.revision, false, digest(r)),
      (p: Provenance, r: Wish) => VerifyWish(scope, members, p, r),
      (view: map<string, Wish>, r: Wish) => None,
      (view: map<string, Wish>, r: Wish) => None)
  }

  /** Rules that refuse nothing once a record is verified. */
  ghost predicate Permissive(rules: Rules<string, Wish>) {
    forall m, r :: rules.early(m, r).None? && rules.late(m, r).None?
  }

  lemma DesiredRulesAreLawful(scope: Scope, members: map<string, Member>, digest: Wish -> nat)
    requires Injective(digest)
    ensures Lawful(DesiredRules(scope, members, digest)) && Permissive(DesiredRules(scope, members, digest))
  {
    var rules := DesiredRules(scope, members, digest);
    forall a, b | rules.rank(a) == rules.rank(b) ensures a == b {
      assert digest(a) == digest(b);
    }
  }

  // ----- a join -----

  /** The records some delivery of the sequence presented verifiably. */
  ghost function Accepted(rules: Rules<string, Wish>, ds: seq<Delivery<Wish>>): set<Wish> {
    set i | 0 <= i < |ds| && rules.check(ds[i].provenance, ds[i].record).None? :: ds[i].record
  }

  lemma {:induction false} DeliverAcceptsAll(rules: Rules<string, Wish>, ds: seq<Delivery<Wish>>)
    requires Lawful(rules) && Permissive(rules)
    ensures Sound(rules, Deliver(rules, ds)) && Deliver(rules, ds).ids == Accepted(rules, ds)
  {
    if ds != [] {
      var init, d := ds[..|ds|-1], ds[|ds|-1];
      DeliverAcceptsAll(rules, init);
      AbsorbKeepsSound(rules, Deliver(rules, init), d.provenance, d.record);
      var verified := if rules.check(d.provenance, d.record).None? then {d.record} else {};
      forall r | r in Accepted(rules, ds) ensures r in Accepted(rules, init) + verified {
        var i :| 0 <= i < |ds| && rules.check(ds[i].provenance, ds[i].record).None? && ds[i].record == r;
        if i < |init| { assert init[i].record in Accepted(rules, init); }
      }
      forall r | r in Accepted(rules, init) ensures r in Accepted(rules, ds) {
        var i :| 0 <= i < |init| && rules.check(init[i].provenance, init[i].record).None? && init[i].record == r;
        assert ds[i].record in Accepted(rules, ds);
      }
    }
  }

  /** The record belongs to the scope and has every field it needs. */
  ghost predicate Complete(scope: Scope, r: Wish) {
    && r.protocolVersion == 1 && 1 <= r.schemaVersion <= 2
    && r.projectId == scope.projectId && r.projectId != "" && r.recoveryEpoch == scope.recoveryEpoch
    && r.service != "" && r.authorNodeId != "" && r.authorEpoch > 0 && r.revision > 0
  }

  ghost predicate AuthorIsCurrent(members: map<string, Member>, x: Wish) {
    x.authorNodeId in members && members[x.authorNodeId].ownerEpoch == x.authorEpoch
  }

  /** The record is complete, presented by who may, and by an author at its current epoch. */
  ghost predicate Presentable(scope: Scope, members: map<string, Member>, p: Provenance, r: Wish) {
    Complete(scope, r) && SpeaksFor(members, p, r.authorNodeId) && AuthorIsCurrent(members, r)
  }

  lemma VerifyWishIff(scope: Scope, members: map<string, Member>, p: Provenance, r: Wish)
    requires p.Peer? ==> Keyed(members)
    ensures VerifyWish(scope, members, p, r).None? <==> Presentable(scope, members, p, r)
  {
    PeerSpeaksFor(members, p, r.authorNodeId);
  }

  /** Revision, then content hash. */
  ghost predicate Outdoes(digest: Wish -> nat, a: Wish, b: Wish) {
    a.revision > b.revision || (a.revision == b.revision && digest(a) > digest(b))
  }

  /** The greatest of the presentable records of a service among the deliveries. */
  ghost predicate IsGreatest(scope: Scope, members: map<string, Member>, digest: Wish -> nat, ds: seq<Delivery<Wish>>,
                             service: string, w: Wish) {
    && w.service == service
    && (exists i :: 0 <= i < |ds| && ds[i].record == w && Presentable(scope, members, ds[i].provenance, w))
    && forall i :: (&& 0 <= i < |ds| && ds[i].record.service == service && ds[i].record != w
                    && Presentable(scope, members, ds[i].provenance, ds[i].record)) ==>
         Outdoes(digest, w, ds[i].record)
  }

  /** After any deliveries the winner of a service is exactly the greatest, by revision and content hash, of the
      presentable records delivered for it. */
  lemma DesiredIsJoin(scope: Scope, members: map<string, Member>, digest: Wish -> nat, ds: seq<Delivery<Wish>>,
                      service: string, w: Wish)
    requires Injective(digest) && Keyed(members)
    ensures var view := Deliver(DesiredRules(scope, members, digest), ds).records;
            (service in view && view[service] == w) <==> IsGreatest(scope, members, digest, ds, service, w)
  {
    var rules := DesiredRules(scope, members, digest);
    DesiredRulesAreLawful(scope, members, digest);
    DeliverAcceptsAll(rules, ds);
    WinnerIsMaximum(rules, Deliver(rules, ds), service, w);
    MaximumIsGreatest(scope, members, digest, ds, service, w);
  }

  lemma MaximumIsGreatest(scope: Scope, members: map<string, Member>, digest: Wish -> nat, ds: seq<Delivery<Wish>>,
                          service: string, w: Wish)
    requires Injective(digest) && Keyed(members)
    ensures var rules := DesiredRules(scope, members, digest);
            IsMaximum(rules, Accepted(rules, ds), service, w) <==> IsGreatest(scope, members, digest, ds, service, w)
  {
    var rules := DesiredRules(scope, members, digest);
    forall i | 0 <= i < |ds|
      ensures rules.check(ds[i].provenance, ds[i].record).None? <==>
              Presentable(scope, members, ds[i].provenance, ds[i].record)
    {
      VerifyWishIff(scope, members, ds[i].provenance, ds[i].record);
    }
    assert forall i :: 0 <= i < |ds| && Presentable(scope, members, ds[i].provenance, ds[i].record) ==>
             ds[i].record in Accepted(rules, ds);
    assert forall r :: r != w ==> digest(r) != digest(w);
  }

  /** So the winners do not depend on the order or the repetition of deliveries. */
  lemma DesiredIsOrderIndependent(scope: Scope, members: map<string, Member>, digest: Wish -> nat,
                                  a: seq<Delivery<Wish>>, b: seq<Delivery<Wish>>)
    requires Injective(digest)
    requires Accepted(DesiredRules(scope, members, digest), a) == Accepted(DesiredRules(scope, members, digest), b)
    ensures Deliver(DesiredRules(scope, members, digest), a) == Deliver(DesiredRules(scope, members, digest), b)
  {
    var rules := DesiredRules(scope, members, digest);
    DesiredRulesAreLawful(scope, members, digest);
    DeliverAcceptsAll(rules, a);
    DeliverAcceptsAll(rules, b);
    AcceptedDecideView(rules, Deliver(rules, a), Deliver(rules, b));
  }

  lemma AcceptedDecideView(rules: Rules<string, Wish>, v: View<string, Wish>, w: View<string, Wish>)
    requires CollisionFree(rules) && Sound(rules, v) && Sound(rules, w) && v.ids == w.ids
    ensures v == w
  {
    forall k | k in v.records ensures k in w.records && w.records[k] == v.records[k] {
      WinnerIsMaximum(rules, v, k, v.records[k]);
      WinnerIsMaximum(rules, w, k, v.records[k]);
    }
    forall k | k in w.records ensures k in v.records {
      WinnerIsMaximum(rules, v, k, w.records[k]);
      WinnerIsMaximum(rules, w, k, w.records[k]);
    }
    assert v.records == w.records;
  }

  // ----- the commit -----

  /** The record `DesiredCommit` builds on `node`; the unsigned revision wraps at its width. */
  function CommitRecord(scope: Scope, members: map<string, Member>, node: string, table: map<string, Wish>,
                        service: string, scale: Option<nat>): Wish
    requires node in members
  {
    var revision := if service !in table then 1
                    else if table[service].revision >= U64_MAX then 0
                    else table[service].revision + 1;
    Wish(scope.projectId, scope.recoveryEpoch, DESIRED_PROTOCOL_VERSION, DESIRED_SCHEMA_VERSION, service,
         scale, revision, node, members[node].ownerEpoch)
  }

  /** The rules of the durable store, whose revision column is a signed integer. */
  function StoreRules(scope: Scope, members: map<string, Member>, digest: Wish -> nat): Rules<string, Wish> {
    Bounded(DesiredRules(scope, members, digest), (r: Wish) => r.revision <= I64_MAX)
  }

  lemma StoreRulesAreLawful(scope: Scope, members: map<string, Member>, digest: Wish -> nat)
    requires Injective(digest)
    ensures Lawful(StoreRules(scope, members, digest))
  {
    DesiredRulesAreLawful(scope, members, digest);
    BoundedIsLawful(DesiredRules(scope, members, digest), (r: Wish) => r.revision <= I64_MAX);
  }

  /** On every consistent store exactly what a commit does: where project, node and service have names, the node
      is at a positive epoch and the current revision is below the greatest the store can hold, it makes the
      requested scale the service's winner, in the node's name and epoch and under the next revision; otherwise,
      and for every other service, it changes nothing. */
  lemma CommitWins(scope: Scope, members: map<string, Member>, digest: Wish -> nat, s: Store<string, Wish>,
                   node: string, service: string, scale: Option<nat>)
    requires Injective(digest) && Consistent(StoreRules(scope, members, digest), s) && node in members
    ensures var r := CommitRecord(scope, members, node, s.table, service, scale);
            var table := Step(StoreRules(scope, members, digest), s, Apply(Local, r)).table;
            if && scope.projectId != "" && node != "" && members[node].ownerEpoch > 0 && service != ""
               && (service in s.table ==> s.table[service].revision < I64_MAX)
            then
              && service in table && table == s.table[service := table[service]]
              && table[service].service == service && table[service].scaleOverride == scale
              && table[service].authorNodeId == node && table[service].authorEpoch == members[node].ownerEpoch
              && table[service].revision == (if service in s.table then s.table[service].revision + 1 else 1)
            else table == s.table
  {
    var rules := StoreRules(scope, members, digest);
    var r := CommitRecord(scope, members, node, s.table, service, scale);
    StoreRulesAreLawful(scope, members, digest);
    WinnersFit(DesiredRules(scope, members, digest), (x: Wish) => x.revision <= I64_MAX, s.log);
    TableIsMaximum(rules, s);
    VerifyWishIff(scope, members, Local, r);
    assert r !in s.log by {
      assert r in s.log ==> r in Elems(s.log) && Covered(rules, s.table, r);
    }
    SubmitIsJudge(rules, s, Local, r);
  }

  lemma UnstorableIsRefused(rules: Rules<string, Wish>, s: Store<string, Wish>, r: Wish)
    requires Consistent(rules, s) && r !in s.log && !Covered(rules, s.table, r) && rules.late(s.table, r).Some?
    ensures Step(rules, s, Apply(Local, r)) == s
  {
    SubmitIsJudge(rules, s, Local, r);
  }

  /** In every reachable store, exactly what becomes of whatever arrives next: it becomes its service's winner if
      and only if it is presentable, fits, and outdoes the winner; it is logged without winning if and only if it
      is presentable and does not; no other row ever changes. */
  lemma ArrivalOutcome(scope: Scope, members: map<string, Member>, digest: Wish -> nat, ops: seq<Op<Wish>>,
                       p: Provenance, r: Wish)
    requires Injective(digest) && (p.Peer? ==> Keyed(members))
    ensures var rules := StoreRules(scope, members, digest);
            var s := Run(rules, Store([], map[]), ops);
            var t := Run(rules, Store([], map[]), ops + [Apply(p, r)]);
            var presented := r !in s.log && Presentable(scope, members, p, r) && r.revision <= I64_MAX;
            && t.log == (if presented then s.log + [r] else s.log)
            && t.table == (if presented && (r.service in s.table ==> Outdoes(digest, r, s.table[r.service]))
                           then s.table[r.service := r] else s.table)
  {
    var rules := StoreRules(scope, members, digest);
    var s := Run(rules, Store([], map[]), ops);
    StoreRulesAreLawful(scope, members, digest);
    RunKeepsConsistent(rules, Store([], map[]), ops);
    RunOneMore(rules, Store([], map[]), ops, Apply(p, r));
    if r !in s.log { Judged(scope, members, digest, s, p, r); }
  }

  lemma Judged(scope: Scope, members: map<string, Member>, digest: Wish -> nat, s: Store<string, Wish>, p: Provenance,
               r: Wish)
    requires Injective(digest) && (p.Peer? ==> Keyed(members)) && r !in s.log
    requires Consistent(StoreRules(scope, members, digest), s)
    ensures var verdict := Submit(StoreRules(scope, members, digest), s, p, r);
            var outdoes := r.service in s.table ==> Outdoes(digest, r, s.table[r.service]);
            var presented := Presentable(scope, members, p, r) && r.revision <= I64_MAX;
            && (verdict.Applied? <==> presented && outdoes) && (verdict.Superseded? <==> presented && !outdoes)
            && !verdict.Duplicate?
  {
    var rules := StoreRules(scope, members, digest);
    StoreRulesAreLawful(scope, members, digest);
    WinnersFit(DesiredRules(scope, members, digest), (x: Wish) => x.revision <= I64_MAX, s.log);
    TableIsMaximum(rules, s);
    SubmitIsJudge(rules, s, p, r);
    VerifyWishIff(scope, members, p, r);
    assert r.service in s.table ==> digest(r) != digest(s.table[r.service]);
  }

  /** What each refusal says is so. */
  ghost predicate IsReason(e: Error, scope: Scope, members: map<string, Member>, p: Provenance, r: Wish) {
    match e
    case ProtocolVersion => r.protocolVersion != 1
    case SchemaVersion => !(1 <= r.schemaVersion <= 2)
    case InvalidRecord =>
      r.projectId == "" || r.service == "" || r.authorNodeId == "" || r.authorEpoch == 0 || r.revision == 0
    case WrongProject => r.projectId != scope.projectId
    case RecoveryEpoch => r.recoveryEpoch != scope.recoveryEpoch
    case UnknownAuthor =>
      || r.authorNodeId !in members
      || (p.Peer? && forall n :: n in members ==> p.source != V4(members[n].managementAddress))
    case NotAuthor => !SpeaksFor(members, p, r.authorNodeId)
    case StaleAuthor => r.authorNodeId in members && members[r.authorNodeId].ownerEpoch != r.authorEpoch
    case _ => false
  }

  lemma RefusalsAreTrue(scope: Scope, members: map<string, Member>, digest: Wish -> nat, v: View<string, Wish>,
                        p: Provenance, r: Wish)
    requires (p.Peer? ==> Keyed(members)) && Judge(DesiredRules(scope, members, digest), v, p, r).Rejected?
    ensures IsReason(Judge(DesiredRules(scope, members, digest), v, p, r).error, scope, members, p, r)
  {
    PeerSpeaksFor(members, p, r.authorNodeId);
  }

  /** A peer's record reaches the bound: whoever may write one with the greatest revision leaves the service
      where no commit of any node changes anything. */
  lemma GreatestRevisionBlocks(scope: Scope, members: map<string, Member>, digest: Wish -> nat, p: Provenance,
                               x: Wish, node: string, scale: Option<nat>)
    requires Injective(digest) && VerifyWish(scope, members, p, x).None? && x.revision == I64_MAX
    requires node != "" && node in members && members[node].ownerEpoch > 0
    ensures var rules := StoreRules(scope, members, digest);
            var s := Step(rules, Store([], map[]), Apply(p, x));
            && s == Store([x], map[x.service := x])
            && Step(rules, s, Apply(Local, CommitRecord(scope, members, node, s.table, x.service, scale))) == s
  {
    var rules := StoreRules(scope, members, digest);
    var s := Store([x], map[x.service := x]);
    StoreRulesAreLawful(scope, members, digest);
    AppliedStep(rules, Store([], map[]), p, x, s);
    var r := CommitRecord(scope, members, node, s.table, x.service, scale);
    assert r != x && r !in s.log;
    UnstorableIsRefused(rules, s, r);
  }

  // ----- a membership change can stop every later write -----

  /** Nothing but verification refuses the logged records. */
  ghost predicate PermissiveOn(rules: Rules<string, Wish>, log: seq<Wish>) {
    forall m, r :: r in log ==> rules.early(m, r).None? && rules.late(m, r).None?
  }

  lemma {:induction false} ReplaySucceedsIff(rules: Rules<string, Wish>, log: seq<Wish>)
    requires PermissiveOn(rules, log)
    ensures Replay(rules, log).Ok? <==> forall r :: r in log ==> rules.check(Verified, r).None?
  {
    if log != [] {
      ReplaySucceedsIff(rules, log[..|log|-1]);
      assert log == log[..|log|-1] + [log[|log|-1]];
    }
  }

  lemma {:induction false} ReplayNeedsVerified(rules: Rules<string, Wish>, log: seq<Wish>)
    requires Replay(rules, log).Ok?
    ensures forall r :: r in log ==> rules.check(Verified, r).None?
  {
    if log != [] {
      ReplayNeedsVerified(rules, log[..|log|-1]);
      assert log == log[..|log|-1] + [log[|log|-1]];
    }
  }

  /** A record as the store may have logged it. */
  ghost predicate Loggable(scope: Scope, x: Wish) {
    Complete(scope, x) && x.revision <= I64_MAX
  }

  /** Replaying rechecks every logged author against the membership of the moment: a new record that fits can
      be written only while every logged record's author is still a member at the epoch it wrote at,
      and as soon as one is not, every record that is not yet logged is refused. */
  lemma WritableIff(scope: Scope, members: map<string, Member>, digest: Wish -> nat, s: Store<string, Wish>,
                    p: Provenance, r: Wish)
    requires r !in s.log && (forall x :: x in s.log ==> Loggable(scope, x)) && (p.Peer? ==> Keyed(members))
    ensures !Submit(StoreRules(scope, members, digest), s, p, r).Rejected? <==>
            && (forall x :: x in s.log ==> AuthorIsCurrent(members, x))
            && Presentable(scope, members, p, r) && r.revision <= I64_MAX
  {
    var rules := StoreRules(scope, members, digest);
    ReplaySucceedsIff(rules, s.log);
    VerifyWishIff(scope, members, p, r);
    forall x | x in s.log ensures rules.check(Verified, x).None? <==> AuthorIsCurrent(members, x) {
      VerifyWishIff(scope, members, Verified, x);
    }
    if Replay(rules, s.log).Ok? {
      WinnersFit(DesiredRules(scope, members, digest), (x: Wish) => x.revision <= I64_MAX, s.log);
      IdsAreLogged(rules, s.log);
      var v := Replay(rules, s.log).view;
      assert r !in v.ids;
      assert r.revision > I64_MAX ==> !Covered(rules, v.records, r);
    }
  }

  lemma {:induction false} IdsAreLogged(rules: Rules<string, Wish>, log: seq<Wish>)
    requires Replay(rules, log).Ok?
    ensures Replay(rules, log).view.ids <= Elems(log)
  {
    if log != [] {
      IdsAreLogged(rules, log[..|log|-1]);
      ElemsOneMore(log);
    }
  }

  /** A run during which the rules, which hold the membership, change from step to step. */
  function RunVarying(s: Store<string, Wish>, steps: seq<(Rules<string, Wish>, Op<Wish>)>): Store<string, Wish> {
    if steps == [] then s
    else
      var (rules, op) := steps[|steps|-1];
      Step(rules, RunVarying(s, steps[..|steps|-1]), op)
  }

  /** While a winner does not verify, no sequence of applies and compactions changes any winner, whatever else
      happens to the membership meanwhile. */
  lemma {:induction false} UnverifiableWinnerFreezes(s: Store<string, Wish>,
                                                     steps: seq<(Rules<string, Wish>, Op<Wish>)>, w: Wish)
    requires w in s.log && w in s.table.Values && forall i :: 0 <= i < |steps| ==> steps[i].0.check(Verified, w).Some?
    ensures var t := RunVarying(s, steps); t.table == s.table && w in t.log
  {
    if steps != [] {
      UnverifiableWinnerFreezes(s, steps[..|steps|-1], w);
      var t, rules := RunVarying(s, steps[..|steps|-1]), steps[|steps|-1].0;
      match steps[|steps|-1].1
      case Apply(p, r) =>
        if Replay(rules, t.log).Ok? { ReplayNeedsVerified(rules, t.log); }
      case Compaction =>
        KeepIsFilter(t.log, t.table.Values);
        assert w in Elems(Keep(t.log, t.table.Values));
    }
  }

  /** The rules of the store under each membership of a history. */
  function UnderMemberships(scope: Scope, digest: Wish -> nat, history: seq<(map<string, Member>, Op<Wish>)>)
    : seq<(Rules<string, Wish>, Op<Wish>)>
  {
    seq(|history|, i requires 0 <= i < |history| => (StoreRules(scope, history[i].0, digest), history[i].1))
  }

  /** One epoch change does it: after any node's commit on an empty store, every other record is refused under
      any membership in which the node is not at the epoch it wrote at, and no history of applies and
      compactions under such memberships changes the table. */
  lemma EpochChangeFreezes(scope: Scope, members: map<string, Member>, digest: Wish -> nat, node: string,
                           service: string, scale: Option<nat>, history: seq<(map<string, Member>, Op<Wish>)>)
    requires Injective(digest)
    requires scope.projectId != "" && node != "" && node in members && members[node].ownerEpoch > 0 && service != ""
    requires forall i :: 0 <= i < |history| ==>
               !AuthorIsCurrent(history[i].0, CommitRecord(scope, members, node, map[], service, scale))
    ensures var r := CommitRecord(scope, members, node, map[], service, scale);
            var s := Step(StoreRules(scope, members, digest), Store([], map[]), Apply(Local, r));
            && s == Store([r], map[service := r])
            && (forall later, p, x :: x != r && !AuthorIsCurrent(later, r) ==>
                  Submit(StoreRules(scope, later, digest), s, p, x).Rejected?)
            && RunVarying(s, UnderMemberships(scope, digest, history)).table == s.table
  {
    var r := CommitRecord(scope, members, node, map[], service, scale);
    var s := Store([r], map[service := r]);
    StoreRulesAreLawful(scope, members, digest);
    AppliedStep(StoreRules(scope, members, digest), Store([], map[]), Local, r, s);
    assert r in s.log && service in s.table && s.table[service] in s.table.Values;
    forall later, p, x | x != r && !AuthorIsCurrent(later, r)
      ensures Submit(StoreRules(scope, later, digest), s, p, x).Rejected?
    {
      var rules := StoreRules(scope, later, digest);
      VerifyWishIff(scope, later, Verified, r);
      if Replay(rules, s.log).Ok? { ReplayNeedsVerified(rules, s.log); }
    }
    var steps := UnderMemberships(scope, digest, history);
    UnverifiableWinnerFreezes(s, steps, r);
  }
}
