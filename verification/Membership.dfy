/** Mesh membership: which records a node accepts, which claims active nodes may hold, and how a
    peer connection is attributed to a member. */
module Membership {
  import opened Names
  import opened Ledger

  const PROTOCOL_VERSION := 1
  const SCHEMA_VERSION := 1

  /** The project and recovery epoch every record must belong to. */
  datatype Scope = Scope(projectId: string, recoveryEpoch: nat)

  datatype State = Active | Tombstoned

  /** Addresses are held in the canonical text the agent prints them in, so equal text is equal
      address. */
  datatype Member = Member(
    projectId: string, recoveryEpoch: nat, protocolVersion: nat, schemaVersion: nat,
    nodeId: string, serverName: string, wireguardKey: string, managementAddress: string,
    containerSubnet: string, endpoints: seq<string>, ownerEpoch: nat, revision: nat, state: State)

  /** The characters Unicode counts as white space. */
  predicate IsWhiteSpace(c: char) {
    var n := c as int;
    9 <= n <= 13 || n in {0x20, 0x85, 0xA0, 0x1680, 0x2028, 0x2029, 0x202F, 0x205F, 0x3000} || 0x2000 <= n <= 0x200A
  }

  predicate IsBlank(s: string) { forall c :: c in s ==> IsWhiteSpace(c) }

  /** `validCidr` says which texts parse as an IPv4 network. */
  function Validate(m: Member, validCidr: string -> bool): Option<Error> {
    if m.protocolVersion != PROTOCOL_VERSION then Some(ProtocolVersion)
    else if m.schemaVersion != SCHEMA_VERSION then Some(SchemaVersion)
    else if m.projectId == "" || m.nodeId == "" || m.serverName == "" || IsBlank(m.wireguardKey)
            || m.endpoints == [] || m.revision == 0 || m.ownerEpoch == 0 then Some(InvalidRecord)
    else if !validCidr(m.containerSubnet) then Some(InvalidSubnet)
    else None
  }

  function Check(scope: Scope, validCidr: string -> bool, m: Member): Option<Error> {
    var invalid := Validate(m, validCidr);
    if invalid.Some? then invalid
    else if m.projectId != scope.projectId then Some(WrongProject)
    else if m.recoveryEpoch != scope.recoveryEpoch then Some(RecoveryEpoch)
    else None
  }

  function StaleEpoch(view: map<string, Member>, m: Member): Option<Error> {
    if m.nodeId in view && m.ownerEpoch < view[m.nodeId].ownerEpoch then Some(StaleOwnerEpoch) else None
  }

  /** The first claim the candidate shares with another member, in the order they are compared. */
  function SharedClaim(current: Member, candidate: Member): Option<Error> {
    if current.serverName == candidate.serverName then Some(ServerNameClaimed)
    else if current.managementAddress == candidate.managementAddress then Some(ManagementAddressClaimed)
    else if current.containerSubnet == candidate.containerSubnet then Some(ContainerSubnetClaimed)
    else if current.wireguardKey == candidate.wireguardKey then Some(WireGuardKeyClaimed)
    else None
  }

  /** The other active members the candidate collides with. */
  function Colliding(view: map<string, Member>, candidate: Member): set<string> {
    set n | n in view && view[n].state.Active? && n != candidate.nodeId && SharedClaim(view[n], candidate).Some?
  }

  /** Members are walked in node id order, so the least colliding one decides the error. */
  function Collision(view: map<string, Member>, candidate: Member): Option<Error> {
    if Colliding(view, candidate) == {} then None
    else SharedClaim(view[Least(Colliding(view, candidate))], candidate)
  }

  function Refusal(view: map<string, Member>, m: Member): Option<Error> {
    if m.nodeId in view && view[m.nodeId].state.Tombstoned? && m.state.Active?
       && m.ownerEpoch == view[m.nodeId].ownerEpoch then Some(TombstoneResurrection)
    else if m.state.Active? then Collision(view, m)
    else None
  }

  ghost predicate Injective<R(!new)>(digest: R -> nat) {
    forall a, b :: digest(a) == digest(b) ==> a == b
  }

  function MemberRules(scope: Scope, validCidr: string -> bool, digest: Member -> nat)
    : Rules<string, Member>
  {
    Rules(
      (m: Member) => m.nodeId,
      (m: Member) => Rank(m.ownerEpoch, m.revision, m.state.Tombstoned?, digest(m)),
      (p: Provenance, m: Member) => Check(scope, validCidr, m),
      (view: map<string, Member>, m: Member) => StaleEpoch(view, m),
      (view: map<string, Member>, m: Member) => Refusal(view, m))
  }

  lemma RefusalIsMonotone(a: map<string, Member>, b: map<string, Member>, m: Member)
    requires SubMap(a, b) && Refusal(b, m).None?
    ensures Refusal(a, m).None?
  {
    if m.state.Active? {
      assert Colliding(b, m) == {};
      assert Colliding(a, m) <= Colliding(b, m);
    }
  }

  lemma MemberRulesAreLawful(scope: Scope, validCidr: string -> bool, digest: Member -> nat)
    requires Injective(digest)
    ensures Lawful(MemberRules(scope, validCidr, digest))
    ensures FencesTombstones(MemberRules(scope, validCidr, digest))
  {
    var rules := MemberRules(scope, validCidr, digest);
    forall a, b | rules.rank(a) == rules.rank(b) ensures a == b {
      assert digest(a) == digest(b);
    }
    forall a, b, r | SubMap(a, b) && rules.late(b, r).None? ensures rules.late(a, r).None? {
      RefusalIsMonotone(a, b, r);
    }
  }

  // ----- exactly what becomes of an arrival -----

  /** The record belongs to the scope and has every field it needs. */
  ghost predicate WellFormed(scope: Scope, validCidr: string -> bool, m: Member) {
    && m.protocolVersion == 1 && m.schemaVersion == 1
    && m.projectId == scope.projectId && m.projectId != "" && m.recoveryEpoch == scope.recoveryEpoch
    && m.nodeId != "" && m.serverName != "" && (exists c :: c in m.wireguardKey && !IsWhiteSpace(c))
    && m.endpoints != [] && m.ownerEpoch > 0 && m.revision > 0 && validCidr(m.containerSubnet)
  }

  /** One record is newer than another: owner epoch, then revision, then a tombstone over a live record, then
      the content hash. */
  ghost predicate Newer(digest: Member -> nat, a: Member, b: Member) {
    || a.ownerEpoch > b.ownerEpoch
    || (a.ownerEpoch == b.ownerEpoch && a.revision > b.revision)
    || (a.ownerEpoch == b.ownerEpoch && a.revision == b.revision && a.state.Tombstoned? && b.state.Active?)
    || (a.ownerEpoch == b.ownerEpoch && a.revision == b.revision && a.state == b.state && digest(a) > digest(b))
  }

  /** An active record where the winner is a tombstone of the same epoch. */
  ghost predicate Revives(view: map<string, Member>, m: Member) {
    m.nodeId in view && view[m.nodeId].state.Tombstoned? && m.state.Active? &&
      view[m.nodeId].ownerEpoch == m.ownerEpoch
  }

  /** An active record that has nothing in common with another active member. */
  ghost predicate Unclaimed(view: map<string, Member>, m: Member) {
    m.state.Active? ==>
      forall n :: n in view && view[n].state.Active? && n != m.nodeId ==>
        && view[n].serverName != m.serverName && view[n].managementAddress != m.managementAddress
        && view[n].containerSubnet != m.containerSubnet && view[n].wireguardKey != m.wireguardKey
  }

  ghost predicate Wins(scope: Scope, validCidr: string -> bool, digest: Member -> nat, view: map<string, Member>,
                       m: Member) {
    && WellFormed(scope, validCidr, m) && Unclaimed(view, m)
    && (m.nodeId in view ==> Newer(digest, m, view[m.nodeId]) && !Revives(view, m))
  }

  lemma CheckIff(scope: Scope, validCidr: string -> bool, m: Member)
    ensures Check(scope, validCidr, m).None? <==> WellFormed(scope, validCidr, m)
  {
  }

  lemma UnclaimedIff(view: map<string, Member>, m: Member)
    ensures Refusal(view, m).None? <==> Unclaimed(view, m) && !Revives(view, m)
  {
    assert forall n :: n in Colliding(view, m) <==>
             n in view && view[n].state.Active? && n != m.nodeId && SharedClaim(view[n], m).Some?;
  }

  lemma NewerIff(scope: Scope, validCidr: string -> bool, digest: Member -> nat, view: map<string, Member>, m: Member)
    requires Injective(digest) && m.nodeId in view && m != view[m.nodeId]
    ensures Covered(MemberRules(scope, validCidr, digest), view, m) <==> !Newer(digest, m, view[m.nodeId])
  {
    assert digest(m) != digest(view[m.nodeId]);
  }

  lemma Judged(scope: Scope, validCidr: string -> bool, digest: Member -> nat, s: Store<string, Member>, p: Provenance,
               m: Member)
    requires Injective(digest) && Consistent(MemberRules(scope, validCidr, digest), s) && m !in s.log
    ensures var verdict := Submit(MemberRules(scope, validCidr, digest), s, p, m);
            && (verdict.Applied? <==> Wins(scope, validCidr, digest, s.table, m))
            && (verdict.Superseded? <==>
                  && WellFormed(scope, validCidr, m) && m.nodeId in s.table
                  && m.ownerEpoch == s.table[m.nodeId].ownerEpoch && !Newer(digest, m, s.table[m.nodeId]))
            && !verdict.Duplicate?
  {
    var rules := MemberRules(scope, validCidr, digest);
    MemberRulesAreLawful(scope, validCidr, digest);
    TableIsMaximum(rules, s);
    SubmitIsJudge(rules, s, p, m);
    CheckIff(scope, validCidr, m);
    UnclaimedIff(s.table, m);
    if m.nodeId in s.table { NewerIff(scope, validCidr, digest, s.table, m); }
  }

  /** In every reachable store, exactly what becomes of whatever arrives next: it is a duplicate if it is
      logged; it becomes its node's winner if and only if it is well formed, newer than the winner, no revival
      of a tombstone and collides with no other active member; it is logged without winning if and only if it
      is well formed, of the winner's epoch and not newer. No other row ever changes. */
  lemma ArrivalOutcome(scope: Scope, validCidr: string -> bool, digest: Member -> nat, ops: seq<Op<Member>>,
                       p: Provenance, m: Member)
    requires Injective(digest)
    ensures var rules := MemberRules(scope, validCidr, digest);
            var s := Run(rules, Store([], map[]), ops);
            var t := Run(rules, Store([], map[]), ops + [Apply(p, m)]);
            var wins := m !in s.log && Wins(scope, validCidr, digest, s.table, m);
            var loses := && m !in s.log && WellFormed(scope, validCidr, m) && m.nodeId in s.table
                         && m.ownerEpoch == s.table[m.nodeId].ownerEpoch && !Newer(digest, m, s.table[m.nodeId]);
            && t.table == (if wins then s.table[m.nodeId := m] else s.table)
            && t.log == (if wins || loses then s.log + [m] else s.log)
  {
    var rules := MemberRules(scope, validCidr, digest);
    var s := Run(rules, Store([], map[]), ops);
    MemberRulesAreLawful(scope, validCidr, digest);
    RunKeepsConsistent(rules, Store([], map[]), ops);
    RunOneMore(rules, Store([], map[]), ops, Apply(p, m));
    if m !in s.log { Judged(scope, validCidr, digest, s, p, m); }
  }

  ghost predicate Shares(view: map<string, Member>, m: Member, same: (Member, Member) -> bool) {
    exists n :: n in view && view[n].state.Active? && n != m.nodeId && same(view[n], m)
  }

  /** What each refusal says is so. */
  ghost predicate IsReason(e: Error, scope: Scope, validCidr: string -> bool, view: map<string, Member>, m: Member) {
    match e
    case ProtocolVersion => m.protocolVersion != 1
    case SchemaVersion => m.schemaVersion != 1
    case InvalidRecord =>
      m.projectId == "" || m.nodeId == "" || m.serverName == "" || (forall c :: c in m.wireguardKey ==> IsWhiteSpace(c))
      || m.endpoints == [] || m.ownerEpoch == 0 || m.revision == 0
    case InvalidSubnet => !validCidr(m.containerSubnet)
    case WrongProject => m.projectId != scope.projectId
    case RecoveryEpoch => m.recoveryEpoch != scope.recoveryEpoch
    case StaleOwnerEpoch => m.nodeId in view && m.ownerEpoch < view[m.nodeId].ownerEpoch
    case TombstoneResurrection => Revives(view, m)
    case ServerNameClaimed => Shares(view, m, (a: Member, b: Member) => a.serverName == b.serverName)
    case ManagementAddressClaimed =>
      Shares(view, m, (a: Member, b: Member) => a.managementAddress == b.managementAddress)
    case ContainerSubnetClaimed => Shares(view, m, (a: Member, b: Member) => a.containerSubnet == b.containerSubnet)
    case WireGuardKeyClaimed => Shares(view, m, (a: Member, b: Member) => a.wireguardKey == b.wireguardKey)
    case _ => false
  }

  /** In every reachable store a refusal gives a reason that holds of the record and the winners. */
  lemma RefusalsAreTrue(scope: Scope, validCidr: string -> bool, digest: Member -> nat, ops: seq<Op<Member>>,
                        p: Provenance, m: Member)
    requires Injective(digest)
    requires var rules := MemberRules(scope, validCidr, digest);
             Submit(rules, Run(rules, Store([], map[]), ops), p, m).Rejected?
    ensures var rules := MemberRules(scope, validCidr, digest);
            var s := Run(rules, Store([], map[]), ops);
            IsReason(Submit(rules, s, p, m).error, scope, validCidr, s.table, m)
  {
    var rules := MemberRules(scope, validCidr, digest);
    var s := Run(rules, Store([], map[]), ops);
    MemberRulesAreLawful(scope, validCidr, digest);
    RunKeepsConsistent(rules, Store([], map[]), ops);
    SubmitIsJudge(rules, s, p, m);
    if Colliding(s.table, m) != {} { CollisionIsTrue(scope, validCidr, s.table, m); }
  }

  lemma CollisionIsTrue(scope: Scope, validCidr: string -> bool, view: map<string, Member>, m: Member)
    requires Colliding(view, m) != {}
    ensures Collision(view, m).Some? && IsReason(Collision(view, m).value, scope, validCidr, view, m)
  {
    var n := Least(Colliding(view, m));
    assert n in view && view[n].state.Active? && n != m.nodeId;
  }

  /** Over every run, whatever was logged at any time and however often the log was compacted since: its node's
      winner is that record or a newer one. */
  lemma WinnersAreNewest(scope: Scope, validCidr: string -> bool, digest: Member -> nat, before: seq<Op<Member>>,
                         later: seq<Op<Member>>, m: Member)
    requires Injective(digest) && m in Run(MemberRules(scope, validCidr, digest), Store([], map[]), before).log
    ensures var rules := MemberRules(scope, validCidr, digest);
            var view := Run(rules, Run(rules, Store([], map[]), before), later).table;
            && m.nodeId in view
            && (view[m.nodeId] == m || Newer(digest, view[m.nodeId], m))
  {
    var rules := MemberRules(scope, validCidr, digest);
    var s := Run(rules, Store([], map[]), before);
    MemberRulesAreLawful(scope, validCidr, digest);
    RunKeepsConsistent(rules, Store([], map[]), before);
    TableIsMaximum(rules, s);
    assert m in Elems(s.log) && Covered(rules, s.table, m);
    RunAdvances(rules, s, later);
    RankedAbove(scope, validCidr, digest, m, s.table[m.nodeId], Run(rules, s, later).table[m.nodeId]);
  }

  lemma RankedAbove(scope: Scope, validCidr: string -> bool, digest: Member -> nat, a: Member, b: Member, c: Member)
    requires Injective(digest)
    requires var rank := MemberRules(scope, validCidr, digest).rank;
             AtMost(rank(a), rank(b)) && AtMost(rank(b), rank(c))
    ensures c == a || Newer(digest, c, a)
  {
    assert digest(a) == digest(c) ==> a == c;
  }

  // ----- exclusive claims -----

  ghost predicate Exclusive(view: map<string, Member>) {
    forall a, b :: a in view && b in view && a != b && view[a].state.Active? && view[b].state.Active? ==>
      SharedClaim(view[a], view[b]).None?
  }

  lemma {:induction false} RunKeepsExclusive(
      scope: Scope, validCidr: string -> bool, digest: Member -> nat, ops: seq<Op<Member>>)
    requires Injective(digest)
    ensures Exclusive(Run(MemberRules(scope, validCidr, digest), Store([], map[]), ops).table)
  {
    var rules := MemberRules(scope, validCidr, digest);
    MemberRulesAreLawful(scope, validCidr, digest);
    if ops != [] {
      var init := Run(rules, Store([], map[]), ops[..|ops|-1]);
      RunKeepsExclusive(scope, validCidr, digest, ops[..|ops|-1]);
      RunKeepsConsistent(rules, Store([], map[]), ops[..|ops|-1]);
      var op := ops[|ops|-1];
      if op.Apply? && Submit(rules, init, op.provenance, op.record).Applied? {
        AppliedIsExclusive(init.table, op.record);
      }
    }
  }

  lemma AppliedIsExclusive(view: map<string, Member>, m: Member)
    requires Exclusive(view) && Refusal(view, m).None?
    ensures Exclusive(view[m.nodeId := m])
  {
    if m.state.Active? {
      forall n | n in view && view[n].state.Active? && n != m.nodeId
        ensures SharedClaim(view[n], m).None? && SharedClaim(m, view[n]).None?
      {
        assert n !in Colliding(view, m);
      }
    }
  }

  /** Over every run of applies and compactions, two distinct active members never share a server
      name, management address, container subnet or WireGuard key. */
  lemma ActiveMembersAreExclusive(
      scope: Scope, validCidr: string -> bool, digest: Member -> nat, ops: seq<Op<Member>>,
      a: string, b: string)
    requires Injective(digest)
    requires var view := Run(MemberRules(scope, validCidr, digest), Store([], map[]), ops).table;
             a in view && b in view && a != b && view[a].state.Active? && view[b].state.Active?
    ensures var view := Run(MemberRules(scope, validCidr, digest), Store([], map[]), ops).table;
            && view[a].serverName != view[b].serverName
            && view[a].managementAddress != view[b].managementAddress
            && view[a].containerSubnet != view[b].containerSubnet
            && view[a].wireguardKey != view[b].wireguardKey
  {
    RunKeepsExclusive(scope, validCidr, digest, ops);
    assert SharedClaim(Run(MemberRules(scope, validCidr, digest), Store([], map[]), ops).table[a],
                       Run(MemberRules(scope, validCidr, digest), Store([], map[]), ops).table[b]).None?;
  }

  /** Whatever happens after a node was tombstoned at an epoch, it stays tombstoned or is at a strictly
      higher one; and its place in the order never falls. */
  lemma NodeTombstonesHold(scope: Scope, validCidr: string -> bool, digest: Member -> nat, before: seq<Op<Member>>,
                           later: seq<Op<Member>>, n: string)
    requires Injective(digest)
    requires n in Run(MemberRules(scope, validCidr, digest), Store([], map[]), before).table
    ensures var rules := MemberRules(scope, validCidr, digest);
            var s := Run(rules, Store([], map[]), before);
            var t := Run(rules, s, later);
            && n in t.table && (t.table[n] == s.table[n] || Newer(digest, t.table[n], s.table[n]))
            && (s.table[n].state.Tombstoned? ==>
                  t.table[n].state.Tombstoned? || s.table[n].ownerEpoch < t.table[n].ownerEpoch)
  {
    var rules := MemberRules(scope, validCidr, digest);
    MemberRulesAreLawful(scope, validCidr, digest);
    RunKeepsConsistent(rules, Store([], map[]), before);
    var s := Run(rules, Store([], map[]), before);
    RunAdvances(rules, s, later);
    RankedAbove(scope, validCidr, digest, s.table[n], s.table[n], Run(rules, s, later).table[n]);
  }

  // ----- attribution of peer connections -----

  function Holders(members: map<string, Member>, address: string): set<string> {
    set n | n in members && members[n].managementAddress == address
  }

  function Authenticate(members: map<string, Member>, p: Provenance, claimed: string): Option<Error> {
    if !p.Peer? then None
    else if p.source.V6? then Some(UnknownPeer)
    else
      var holders := Holders(members, p.source.address);
      if holders == {} then Some(UnknownPeer)
      else if members[Least(holders)].nodeId != claimed then Some(NotOwner)
      else None
  }

  /** Views are keyed by node id. */
  ghost predicate Keyed(members: map<string, Member>) {
    forall n :: n in members ==> members[n].nodeId == n
  }

  ghost predicate UniqueAddresses(members: map<string, Member>) {
    forall a, b :: a in members && b in members && a != b ==>
      members[a].managementAddress != members[b].managementAddress
  }

  /** Who may present a record in a node's name: the agent itself, now or when it replays its log, and over a
      connection the node of least id among all members, tombstoned ones included, that hold its address. */
  ghost predicate SpeaksFor(members: map<string, Member>, p: Provenance, claimed: string) {
    match p
    case Peer(V4(address)) =>
      && claimed in members && members[claimed].managementAddress == address
      && forall n :: n in members && members[n].managementAddress == address && n != claimed ==> Before(claimed, n)
    case Peer(V6) => false
    case _ => true
  }

  /** A record is refused as unknown exactly when no member holds the connection's address. */
  lemma PeerSpeaksFor(members: map<string, Member>, p: Provenance, claimed: string)
    requires p.Peer? ==> Keyed(members)
    ensures Authenticate(members, p, claimed).None? <==> SpeaksFor(members, p, claimed)
    ensures Authenticate(members, p, claimed) == Some(UnknownPeer) <==>
            p.Peer? && forall n :: n in members ==> p.source != V4(members[n].managementAddress)
  {
    if p.Peer? && p.source.V4? {
      var holders := Holders(members, p.source.address);
      assert forall n :: n in holders <==> n in members && members[n].managementAddress == p.source.address;
      if IsLeast(holders, claimed) { LeastIsUnique(holders); }
    }
  }

  /** With unique addresses a connection speaks for exactly the member that holds its address. */
  lemma UniqueAddressSpeaksForHolder(members: map<string, Member>, address: string, claimed: string)
    requires Keyed(members) && UniqueAddresses(members)
    ensures Authenticate(members, Peer(V4(address)), claimed).None?
            <==> (claimed in members && members[claimed].managementAddress == address)
  {
    PeerSpeaksFor(members, Peer(V4(address)), claimed);
    if claimed in members && members[claimed].managementAddress == address {
      assert Holders(members, address) == {claimed};
    }
  }

  /** Enrolling `a`, tombstoning it and enrolling `b` succeeds step by step. */
  lemma EnrolTombstoneEnrol(rules: Rules<string, Member>, a: Member, t: Member, b: Member)
    requires VerifiedIsWeakest(rules)
    requires rules.slot(a) == rules.slot(t) != rules.slot(b)
    requires rules.check(Local, a).None? && rules.check(Local, t).None? && rules.check(Local, b).None?
    requires rules.early(map[], a).None? && rules.late(map[], a).None?
    requires var m := map[rules.slot(a) := a];
             rules.early(m, t).None? && rules.late(m, t).None? && Less(rules.rank(a), rules.rank(t))
    requires var m := map[rules.slot(a) := t]; rules.early(m, b).None? && rules.late(m, b).None?
    ensures Run(rules, Store([], map[]), [Apply(Local, a), Apply(Local, t), Apply(Local, b)]).table
            == map[rules.slot(a) := t, rules.slot(b) := b]
  {
    var two := EnrolTombstone(rules, a, t);
    assert Step(rules, two, Apply(Local, b)).table == two.table[rules.slot(b) := b] by {
      EnrolOther(rules, two, b);
    }
    var ops := [Apply(Local, a), Apply(Local, t), Apply(Local, b)];
    assert Run(rules, Store([], map[]), ops) == Step(rules, two, Apply(Local, b)) by {
      RunThird(rules, Store([], map[]), Apply(Local, a), Apply(Local, t), Apply(Local, b), two);
    }
  }

  lemma EnrolOther(rules: Rules<string, Member>, s: Store<string, Member>, b: Member)
    requires VerifiedIsWeakest(rules) && Consistent(rules, s) && b !in s.log && rules.slot(b) !in s.table
    requires rules.check(Local, b).None? && rules.early(s.table, b).None? && rules.late(s.table, b).None?
    ensures Step(rules, s, Apply(Local, b)).table == s.table[rules.slot(b) := b]
  {
    AppliedStep(rules, s, Local, b, Store(s.log + [b], s.table[rules.slot(b) := b]));
  }

  lemma EnrolTombstone(rules: Rules<string, Member>, a: Member, t: Member) returns (two: Store<string, Member>)
    requires VerifiedIsWeakest(rules) && rules.slot(a) == rules.slot(t)
    requires rules.check(Local, a).None? && rules.check(Local, t).None?
    requires rules.early(map[], a).None? && rules.late(map[], a).None?
    requires var m := map[rules.slot(a) := a];
             rules.early(m, t).None? && rules.late(m, t).None? && Less(rules.rank(a), rules.rank(t))
    ensures Step(rules, Step(rules, Store([], map[]), Apply(Local, a)), Apply(Local, t)) == two
    ensures Consistent(rules, two)
    ensures two.table == map[rules.slot(a) := t] && forall x :: x in two.log ==> x == a || x == t
  {
    var one := EnrolFirst(rules, a);
    two := Raise(rules, one, a, t);
  }

  lemma Raise(rules: Rules<string, Member>, s: Store<string, Member>, a: Member,
              t: Member) returns (s': Store<string, Member>)
    requires VerifiedIsWeakest(rules) && Consistent(rules, s) && rules.slot(a) == rules.slot(t)
    requires s.table == map[rules.slot(a) := a] && forall x :: x in s.log ==> x == a
    requires rules.check(Local, t).None? && rules.early(s.table, t).None? && rules.late(s.table, t).None?
    requires Less(rules.rank(a), rules.rank(t))
    ensures Step(rules, s, Apply(Local, t)) == s' && Consistent(rules, s')
    ensures s'.table == map[rules.slot(a) := t] && forall x :: x in s'.log ==> x == a || x == t
  {
    s' := Store(s.log + [t], s.table[rules.slot(t) := t]);
    assert !Covered(rules, s.table, t);
    AppliedStep(rules, s, Local, t, s');
  }

  lemma EnrolFirst(rules: Rules<string, Member>, a: Member) returns (one: Store<string, Member>)
    requires VerifiedIsWeakest(rules) && rules.check(Local, a).None?
    requires rules.early(map[], a).None? && rules.late(map[], a).None?
    ensures Step(rules, Store([], map[]), Apply(Local, a)) == one && Consistent(rules, one)
    ensures one.table == map[rules.slot(a) := a] && forall x :: x in one.log ==> x == a
  {
    one := Store([a], map[rules.slot(a) := a]);
    AppliedStep(rules, Store([], map[]), Local, a, one);
  }

  /** Claims are exclusive among active members only: whatever it shares with a tombstoned member, a new
      node is enrolled. */
  lemma EnrolSuccessor(scope: Scope, validCidr: string -> bool, digest: Member -> nat, a: Member, b: Member)
    requires Injective(digest)
    requires Check(scope, validCidr, a).None? && Check(scope, validCidr, b).None?
    requires a.state.Active? && b.state.Active? && a.nodeId != b.nodeId
    ensures var t := a.(revision := a.revision + 1, state := Tombstoned);
            Run(MemberRules(scope, validCidr, digest), Store([], map[]),
                [Apply(Local, a), Apply(Local, t), Apply(Local, b)]).table
            == map[a.nodeId := t, b.nodeId := b]
  {
    var rules := MemberRules(scope, validCidr, digest);
    var t := a.(revision := a.revision + 1, state := Tombstoned);
    MemberRulesAreLawful(scope, validCidr, digest);
    assert Colliding(map[], a) == {};
    assert Colliding(map[a.nodeId := t], b) == {};
    EnrolTombstoneEnrol(rules, a, t, b);
  }

  /** So a node of greater id that is enrolled with the address of a tombstoned one is shut out: its
      connections are attributed to the old node and its records refused. */
  lemma ReusedAddressShutsOutSuccessor(
      scope: Scope, validCidr: string -> bool, digest: Member -> nat, a: Member, b: Member)
    requires Injective(digest)
    requires Check(scope, validCidr, a).None? && Check(scope, validCidr, b).None?
    requires a.state.Active? && b.state.Active?
    requires Before(a.nodeId, b.nodeId) && a.managementAddress == b.managementAddress
    ensures var t := a.(revision := a.revision + 1, state := Tombstoned);
            var members := Run(MemberRules(scope, validCidr, digest), Store([], map[]),
                               [Apply(Local, a), Apply(Local, t), Apply(Local, b)]).table;
            && b.nodeId in members && members[b.nodeId] == b
            && Authenticate(members, Peer(V4(b.managementAddress)), b.nodeId) == Some(NotOwner)
  {
    var t := a.(revision := a.revision + 1, state := Tombstoned);
    BeforeIsStrict(a.nodeId, b.nodeId);
    EnrolSuccessor(scope, validCidr, digest, a, b);
    var members := map[a.nodeId := t, b.nodeId := b];
    BeforeIsStrict(b.nodeId, a.nodeId);
    PeerSpeaksFor(members, Peer(V4(b.managementAddress)), b.nodeId);
    assert a.nodeId in Holders(members, b.managementAddress);
  }
}
