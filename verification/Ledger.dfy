/** The replicated-record machinery that membership, catalog and desired state share: a view of
    winners, the operation log it is replayed from, the materialised winners table and log
    compaction. A `Rules` value supplies what differs between the three kinds of record. */
module Ledger {
  import opened Names

  datatype Source = V4(address: string) | V6

  datatype Provenance = Local | Verified | Peer(source: Source)

  datatype Error =
    | ProtocolVersion | SchemaVersion | InvalidRecord | InvalidSubnet
    | WrongProject | RecoveryEpoch | UnknownPeer | NotOwner
    | UnknownAuthor | NotAuthor | StaleAuthor
    | StaleOwnerEpoch | TombstoneResurrection
    | Unstorable
    | ServerNameClaimed | ManagementAddressClaimed | ContainerSubnetClaimed | WireGuardKeyClaimed

  /** The tuple `order` compares: owner epoch, revision, tombstone flag, content digest. */
  datatype Rank = Rank(epoch: nat, revision: nat, tomb: bool, digest: nat)

  predicate Less(a: Rank, b: Rank) {
    if a.epoch != b.epoch then a.epoch < b.epoch
    else if a.revision != b.revision then a.revision < b.revision
    else if a.tomb != b.tomb then b.tomb
    else a.digest < b.digest
  }

  predicate AtMost(a: Rank, b: Rank) { a == b || Less(a, b) }

  /** What one kind of record is judged by. `early` runs before the order comparison and `late`
      after it; both see the current winners. */
  datatype Rules<!K, !R> = Rules(
    slot: R -> K,
    rank: R -> Rank,
    check: (Provenance, R) -> Option<Error>,
    early: (map<K, R>, R) -> Option<Error>,
    late: (map<K, R>, R) -> Option<Error>)

  ghost predicate SubMap<K, R>(a: map<K, R>, b: map<K, R>) {
    forall k :: k in a ==> k in b && a[k] == b[k]
  }

  /** The rules' digests are collision-free, so a rank identifies its record. */
  ghost predicate CollisionFree<K, R(!new)>(rules: Rules<K, R>) {
    forall a, b :: rules.rank(a) == rules.rank(b) ==> a == b
  }

  /** A record that passed any check also passes when replayed as already verified. */
  ghost predicate VerifiedIsWeakest<K, R(!new)>(rules: Rules<K, R>) {
    forall p, r :: rules.check(p, r).None? ==> rules.check(Verified, r).None?
  }

  /** Forgetting winners never causes a rejection. */
  ghost predicate Monotone<K(!new), R(!new)>(rules: Rules<K, R>) {
    && (forall a, b, r :: SubMap(a, b) && rules.early(b, r).None? ==> rules.early(a, r).None?)
    && (forall a, b, r :: SubMap(a, b) && rules.late(b, r).None? ==> rules.late(a, r).None?)
  }

  ghost predicate Lawful<K(!new), R(!new)>(rules: Rules<K, R>) {
    CollisionFree(rules) && VerifiedIsWeakest(rules) && Monotone(rules)
  }

  /** A live record never displaces a tombstone of its own epoch. */
  ghost predicate FencesTombstones<K(!new), R(!new)>(rules: Rules<K, R>) {
    forall m, r ::
      && rules.late(m, r).None?
      && rules.slot(r) in m
      && rules.rank(m[rules.slot(r)]).tomb
      && rules.rank(m[rules.slot(r)]).epoch == rules.rank(r).epoch
      ==> rules.rank(r).tomb
  }

  /** The rules of a store whose table columns hold only records that fit: what would win but does not fit is
      refused when it is written. */
  function Bounded<K, R>(rules: Rules<K, R>, fits: R -> bool): Rules<K, R> {
    rules.(late := (m: map<K, R>, r: R) =>
      var refused := rules.late(m, r); if refused.None? && !fits(r) then Some(Unstorable) else refused)
  }

  lemma BoundedIsLawful<K(!new), R(!new)>(rules: Rules<K, R>, fits: R -> bool)
    requires Lawful(rules)
    ensures Lawful(Bounded(rules, fits))
    ensures FencesTombstones(rules) ==> FencesTombstones(Bounded(rules, fits))
  {
    var bounded := Bounded(rules, fits);
    assert forall a, b, r :: SubMap(a, b) && bounded.late(b, r).None? ==>
             rules.late(b, r).None? && bounded.late(a, r).None?;
  }

  // ----- one view -----

  /** Winners by slot, and every record accepted so far (digests are collision-free, so the set of
      record ids is the set of records). */
  datatype View<!K(==), !R(==)> = View(records: map<K, R>, ids: set<R>)

  datatype Verdict = Applied | Duplicate | Superseded | Rejected(error: Error)

  function Judge<K(==), R(==)>(rules: Rules<K, R>, v: View<K, R>, p: Provenance, r: R): Verdict {
    match rules.check(p, r)
    case Some(e) => Rejected(e)
    case None =>
      if r in v.ids then Duplicate
      else
        match rules.early(v.records, r)
        case Some(e) => Rejected(e)
        case None =>
          if Covered(rules, v.records, r) then Superseded
          else
            match rules.late(v.records, r)
            case Some(e) => Rejected(e)
            case None => Applied
  }

  /** The winner of the record's slot ranks at or above it. */
  predicate Covered<K(==), R>(rules: Rules<K, R>, m: map<K, R>, r: R) {
    rules.slot(r) in m && AtMost(rules.rank(r), rules.rank(m[rules.slot(r)]))
  }

  function Absorb<K(==), R(==)>(rules: Rules<K, R>, v: View<K, R>, r: R, verdict: Verdict): View<K, R> {
    match verdict
    case Applied => View(v.records[rules.slot(r) := r], v.ids + {r})
    case Superseded => View(v.records, v.ids + {r})
    case _ => v
  }

  datatype Delivery<!R> = Delivery(provenance: Provenance, record: R)

  /** A view after a sequence of arrivals, rejected ones leaving it as it was. */
  function Deliver<K(==), R(==)>(rules: Rules<K, R>, ds: seq<Delivery<R>>): View<K, R> {
    if ds == [] then View(map[], {})
    else
      var v := Deliver(rules, ds[..|ds|-1]);
      var d := ds[|ds|-1];
      Absorb(rules, v, d.record, Judge(rules, v, d.provenance, d.record))
  }

  /** The winners are exactly the highest-ranked accepted record of each slot. */
  ghost predicate Sound<K, R>(rules: Rules<K, R>, v: View<K, R>) {
    && (forall k :: k in v.records ==> v.records[k] in v.ids && rules.slot(v.records[k]) == k)
    && (forall r :: r in v.ids ==> Covered(rules, v.records, r) && rules.check(Verified, r).None?)
  }

  lemma AbsorbKeepsSound<K(!new), R(!new)>(rules: Rules<K, R>, v: View<K, R>, p: Provenance, r: R)
    requires VerifiedIsWeakest(rules) && Sound(rules, v)
    ensures Sound(rules, Absorb(rules, v, r, Judge(rules, v, p, r)))
  {
    var w := Absorb(rules, v, r, Judge(rules, v, p, r));
    forall x | x in w.ids ensures Covered(rules, w.records, x) && rules.check(Verified, x).None? {
      if x != r { assert Covered(rules, v.records, x); }
    }
  }

  /** `w` is the highest-ranked record of slot `k` in a set. */
  ghost predicate IsMaximum<K, R(!new)>(rules: Rules<K, R>, s: set<R>, k: K, w: R) {
    && w in s && rules.slot(w) == k
    && forall r :: r in s && rules.slot(r) == k ==> AtMost(rules.rank(r), rules.rank(w))
  }

  /** The winner of a slot is the one accepted record no other accepted record outranks. */
  lemma WinnerIsMaximum<K(!new), R(!new)>(rules: Rules<K, R>, v: View<K, R>, k: K, w: R)
    requires CollisionFree(rules) && Sound(rules, v)
    ensures (k in v.records && v.records[k] == w) <==> IsMaximum(rules, v.ids, k, w)
  {
    if IsMaximum(rules, v.ids, k, w) {
      assert Covered(rules, v.records, w);
    }
  }

  /** What one arrival can do to the winners: nothing, or raise one slot to a strictly higher rank
      without passing a live record over a tombstone of the same epoch. */
  ghost predicate Advances<K(!new), R(!new)>(rules: Rules<K, R>, a: map<K, R>, b: map<K, R>) {
    forall k :: k in a ==>
      && k in b
      && AtMost(rules.rank(a[k]), rules.rank(b[k]))
      && (rules.rank(a[k]).tomb ==> rules.rank(b[k]).tomb || rules.rank(a[k]).epoch < rules.rank(b[k]).epoch)
  }

  lemma AbsorbAdvances<K(!new), R(!new)>(rules: Rules<K, R>, v: View<K, R>, p: Provenance, r: R)
    requires FencesTombstones(rules)
    ensures Advances(rules, v.records, Absorb(rules, v, r, Judge(rules, v, p, r)).records)
    ensures Judge(rules, v, p, r).Applied? && rules.slot(r) in v.records ==>
              Less(rules.rank(v.records[rules.slot(r)]), rules.rank(r))
  {
  }

  lemma {:induction false} AcceptedIdsStay<K, R>(rules: Rules<K, R>, ds: seq<Delivery<R>>, i: nat)
    requires i <= |ds|
    ensures Deliver(rules, ds[..i]).ids <= Deliver(rules, ds).ids
    decreases |ds|
  {
    if i < |ds| {
      AcceptedIdsStay(rules, ds[..|ds|-1], i);
      assert ds[..|ds|-1][..i] == ds[..i];
    } else {
      assert ds[..i] == ds;
    }
  }

  /** Whatever a view has accepted is a duplicate whenever it is presented again verifiably, by anyone, and changes
      nothing. */
  lemma RedeliveryIsDuplicate<K, R>(rules: Rules<K, R>, ds: seq<Delivery<R>>, i: nat, p: Provenance)
    requires i < |ds| && rules.check(p, ds[i].record).None?
    requires !Judge(rules, Deliver(rules, ds[..i]), ds[i].provenance, ds[i].record).Rejected?
    ensures Judge(rules, Deliver(rules, ds), p, ds[i].record) == Duplicate
    ensures Deliver(rules, ds + [Delivery(p, ds[i].record)]) == Deliver(rules, ds)
  {
    assert ds[..i+1][..i] == ds[..i];
    assert ds[i].record in Deliver(rules, ds[..i+1]).ids;
    AcceptedIdsStay(rules, ds, i + 1);
    assert (ds + [Delivery(p, ds[i].record)])[..|ds|] == ds;
  }

  // ----- the durable store -----

  /** The operation log in rowid order, and the materialised winners table. */
  datatype Store<!K(==), !R(==)> = Store(log: seq<R>, table: map<K, R>)

  datatype Replayed<!K(==), !R(==)> = Ok(view: View<K, R>) | Err(error: Error)

  function Elems<R(==)>(log: seq<R>): set<R> { set r | r in log }

  /** Rebuilds the view from the log, stopping at the first record that is refused. */
  function Replay<K(==), R(==)>(rules: Rules<K, R>, log: seq<R>): Replayed<K, R> {
    if log == [] then Ok(View(map[], {}))
    else
      var before := Replay(rules, log[..|log|-1]);
      if before.Err? then before
      else
        var r := log[|log|-1];
        var verdict := Judge(rules, before.view, Verified, r);
        if verdict.Rejected? then Err(verdict.error)
        else Ok(Absorb(rules, before.view, r, verdict))
  }

  /** The outcome of `apply_*` on the store: a logged record is a duplicate before anything else is
      looked at, otherwise the log is replayed and the record judged against the result. */
  function Submit<K(==), R(==)>(rules: Rules<K, R>, s: Store<K, R>, p: Provenance, r: R): Verdict {
    if r in s.log then Duplicate
    else
      match Replay(rules, s.log)
      case Err(e) => Rejected(e)
      case Ok(v) => Judge(rules, v, p, r)
  }

  function Write<K(==), R(==)>(rules: Rules<K, R>, s: Store<K, R>, r: R, verdict: Verdict): Store<K, R> {
    match verdict
    case Applied => Store(s.log + [r], s.table[rules.slot(r) := r])
    case Superseded => Store(s.log + [r], s.table)
    case _ => s
  }

  function Keep<R(==)>(log: seq<R>, winners: set<R>): seq<R> {
    if log == [] then []
    else Keep(log[..|log|-1], winners) + if log[|log|-1] in winners then [log[|log|-1]] else []
  }

  /** Deletes every logged operation that is no current winner. */
  function Compact<K(==), R(==)>(s: Store<K, R>): Store<K, R> {
    Store(Keep(s.log, s.table.Values), s.table)
  }

  ghost predicate NoRepeats<R>(log: seq<R>) {
    forall i, j :: 0 <= i < j < |log| ==> log[i] != log[j]
  }

  /** Replaying the log succeeds and gives exactly the table; the log holds each record once. */
  ghost predicate Consistent<K(!new), R(!new)>(rules: Rules<K, R>, s: Store<K, R>) {
    NoRepeats(s.log) && Replay(rules, s.log) == Ok(View(s.table, Elems(s.log)))
  }

  lemma ElemsOneMore<R>(log: seq<R>)
    requires log != []
    ensures Elems(log) == Elems(log[..|log|-1]) + {log[|log|-1]}
  {
    assert log == log[..|log|-1] + [log[|log|-1]];
  }

  lemma {:induction false} ReplayIsSound<K(!new), R(!new)>(rules: Rules<K, R>, log: seq<R>)
    requires VerifiedIsWeakest(rules) && Replay(rules, log).Ok?
    ensures Sound(rules, Replay(rules, log).view)
    ensures Replay(rules, log).view.ids == Elems(log)
  {
    if log != [] {
      var init := log[..|log|-1];
      ReplayIsSound(rules, init);
      AbsorbKeepsSound(rules, Replay(rules, init).view, Verified, log[|log|-1]);
      ElemsOneMore(log);
    }
  }

  /** A bounded store holds only winners that fit. */
  lemma {:induction false} WinnersFit<K, R>(rules: Rules<K, R>, fits: R -> bool, log: seq<R>)
    requires Replay(Bounded(rules, fits), log).Ok?
    ensures var m := Replay(Bounded(rules, fits), log).view.records; forall k :: k in m ==> fits(m[k])
  {
    if log != [] { WinnersFit(rules, fits, log[..|log|-1]); }
  }

  /** In every consistent store each winner is the maximum of the logged records of its slot and
      its operation is still in the log. */
  lemma TableIsMaximum<K(!new), R(!new)>(rules: Rules<K, R>, s: Store<K, R>)
    requires VerifiedIsWeakest(rules) && Consistent(rules, s)
    ensures Sound(rules, View(s.table, Elems(s.log)))
    ensures s.table.Values <= Elems(s.log)
  {
    ReplayIsSound(rules, s.log);
  }

  lemma SubmitIsJudge<K(!new), R(!new)>(rules: Rules<K, R>, s: Store<K, R>, p: Provenance, r: R)
    requires Consistent(rules, s) && r !in s.log
    ensures Submit(rules, s, p, r) == Judge(rules, View(s.table, Elems(s.log)), p, r) && r !in Elems(s.log)
  {
  }

  /** What was accepted from anyone is judged the same when replayed. */
  lemma ReplayedAlike<K(!new), R(!new)>(rules: Rules<K, R>, v: View<K, R>, p: Provenance, r: R)
    requires VerifiedIsWeakest(rules) && !Judge(rules, v, p, r).Rejected?
    ensures Judge(rules, v, Verified, r) == Judge(rules, v, p, r)
  {
  }

  lemma ReplayAppend<K, R>(rules: Rules<K, R>, log: seq<R>, r: R)
    requires Replay(rules, log).Ok? && !Judge(rules, Replay(rules, log).view, Verified, r).Rejected?
    ensures var v := Replay(rules, log).view;
            Replay(rules, log + [r]) == Ok(Absorb(rules, v, r, Judge(rules, v, Verified, r)))
  {
    assert (log + [r])[..|log|] == log && (log + [r])[|log|] == r;
  }

  lemma AppendIsNew<R>(log: seq<R>, r: R)
    requires r !in log
    ensures Elems(log + [r]) == Elems(log) + {r}
    ensures NoRepeats(log) ==> NoRepeats(log + [r])
  {
  }

  lemma WriteKeepsConsistent<K(!new), R(!new)>(rules: Rules<K, R>, s: Store<K, R>, p: Provenance, r: R)
    requires VerifiedIsWeakest(rules) && Consistent(rules, s)
    ensures Consistent(rules, Write(rules, s, r, Submit(rules, s, p, r)))
  {
    if r !in s.log {
      var v := View(s.table, Elems(s.log));
      SubmitIsJudge(rules, s, p, r);
      var verdict := Judge(rules, v, p, r);
      if verdict.Applied? || verdict.Superseded? {
        ReplayedAlike(rules, v, p, r);
        ReplayAppend(rules, s.log, r);
        AppendIsNew(s.log, r);
      } else {
        assert Write(rules, s, r, verdict) == s;
      }
    } else {
      assert Write(rules, s, r, Submit(rules, s, p, r)) == s;
    }
  }

  // ----- compaction -----

  lemma {:induction false} PrefixReplays<K, R>(rules: Rules<K, R>, log: seq<R>, n: nat)
    requires n <= |log| && Replay(rules, log).Ok?
    ensures Replay(rules, log[..n]).Ok?
    decreases |log|
  {
    if n == |log| {
      assert log[..n] == log;
    } else {
      PrefixReplays(rules, log[..|log|-1], n);
      assert log[..|log|-1][..n] == log[..n];
    }
  }

  lemma {:induction false} KeepIsFilter<R>(log: seq<R>, winners: set<R>)
    ensures Elems(Keep(log, winners)) == Elems(log) * winners
    ensures NoRepeats(log) ==> NoRepeats(Keep(log, winners))
  {
    if log != [] {
      KeepIsFilter(log[..|log|-1], winners);
      var last := log[|log|-1];
      assert log == log[..|log|-1] + [last];
      assert Elems(log) == Elems(log[..|log|-1]) + {last};
      var init := Keep(log[..|log|-1], winners);
      assert Elems(init + [last]) == Elems(init) + {last};
      assert init + [] == init;
      assert forall i :: 0 <= i < |init| ==> init[i] in Elems(init);
    }
  }

  /** The winners that were already logged in a prefix. */
  ghost function Logged<K, R>(table: map<K, R>, log: seq<R>): map<K, R> {
    map k | k in table && table[k] in log :: table[k]
  }

  /** A final winner, once logged, is the winner of every later prefix too. */
  lemma WinnersSurvive<K(!new), R(!new)>(rules: Rules<K, R>, s: Store<K, R>, n: nat)
    requires CollisionFree(rules) && VerifiedIsWeakest(rules) && Consistent(rules, s) && n <= |s.log|
    ensures Replay(rules, s.log[..n]).Ok?
    ensures SubMap(Logged(s.table, s.log[..n]), Replay(rules, s.log[..n]).view.records)
  {
    PrefixReplays(rules, s.log, n);
    ReplayIsSound(rules, s.log[..n]);
    ReplayIsSound(rules, s.log);
    var v := Replay(rules, s.log[..n]).view;
    forall k | k in Logged(s.table, s.log[..n]) ensures k in v.records && v.records[k] == s.table[k] {
      assert Covered(rules, v.records, s.table[k]);
      assert Covered(rules, s.table, v.records[k]);
    }
  }

  lemma ReplayStep<K, R>(rules: Rules<K, R>, log: seq<R>, n: nat)
    requires n < |log| && Replay(rules, log[..n+1]).Ok?
    ensures Replay(rules, log[..n]).Ok?
    ensures var v := Replay(rules, log[..n]).view;
            var verdict := Judge(rules, v, Verified, log[n]);
            !verdict.Rejected? && Replay(rules, log[..n+1]) == Ok(Absorb(rules, v, log[n], verdict))
  {
    assert log[..n+1][..n] == log[..n];
  }

  lemma NewWinnerIsApplied<K, R>(rules: Rules<K, R>, v: View<K, R>, r: R, verdict: Verdict)
    requires Sound(rules, v) && r !in v.ids && verdict == Judge(rules, v, Verified, r) && !verdict.Rejected?
    requires var m := Absorb(rules, v, r, verdict).records; rules.slot(r) in m && m[rules.slot(r)] == r
    ensures verdict.Applied?
  {
  }

  /** The step from prefix n to n + 1 when that operation is a final winner. */
  lemma WinnerIsApplied<K(!new), R(!new)>(rules: Rules<K, R>, s: Store<K, R>, n: nat)
    requires CollisionFree(rules) && VerifiedIsWeakest(rules)
    requires Consistent(rules, s) && n < |s.log| && s.log[n] in s.table.Values
    ensures Replay(rules, s.log[..n]).Ok?
    ensures Judge(rules, Replay(rules, s.log[..n]).view, Verified, s.log[n]).Applied?
  {
    var r := s.log[n];
    WinnersSurvive(rules, s, n + 1);
    ReplayStep(rules, s.log, n);
    ReplayIsSound(rules, s.log[..n]);
    var v := Replay(rules, s.log[..n]).view;
    assert r !in Elems(s.log[..n]);
    assert rules.slot(r) in Logged(s.table, s.log[..n+1]) && s.table[rules.slot(r)] == r by {
      TableIsMaximum(rules, s);
      assert r in s.log[..n+1];
    }
    NewWinnerIsApplied(rules, v, r, Judge(rules, v, Verified, r));
  }

  /** A record applied over some winners is applied over fewer of them, its own slot being free. */
  lemma AppliedOverFewer<K(!new), R(!new)>(rules: Rules<K, R>, big: View<K, R>, small: View<K, R>, r: R)
    requires Monotone(rules) && SubMap(small.records, big.records)
    requires Judge(rules, big, Verified, r).Applied?
    requires r !in small.ids && rules.slot(r) !in small.records
    ensures Judge(rules, small, Verified, r).Applied?
  {
    assert rules.early(small.records, r).None?;
    assert rules.late(small.records, r).None?;
  }

  lemma LoggedOneMore<K(!new), R(!new)>(rules: Rules<K, R>, s: Store<K, R>, n: nat)
    requires VerifiedIsWeakest(rules) && Consistent(rules, s) && n < |s.log| && s.log[n] in s.table.Values
    ensures rules.slot(s.log[n]) !in Logged(s.table, s.log[..n])
    ensures Logged(s.table, s.log[..n+1]) == Logged(s.table, s.log[..n])[rules.slot(s.log[n]) := s.log[n]]
  {
    TableIsMaximum(rules, s);
    assert s.log[..n+1] == s.log[..n] + [s.log[n]];
    assert s.log[n] !in s.log[..n];
  }

  ghost predicate ReplaysToLogged<K, R>(rules: Rules<K, R>, table: map<K, R>, log: seq<R>) {
    var kept := Keep(log, table.Values);
    Replay(rules, kept) == Ok(View(Logged(table, log), Elems(kept)))
  }

  lemma CompactedWinner<K(!new), R(!new)>(rules: Rules<K, R>, s: Store<K, R>, n: nat)
    requires Lawful(rules) && Consistent(rules, s) && n < |s.log| && s.log[n] in s.table.Values
    requires ReplaysToLogged(rules, s.table, s.log[..n])
    ensures Judge(rules, Replay(rules, Keep(s.log[..n], s.table.Values)).view, Verified, s.log[n]).Applied?
  {
    var kept := Keep(s.log[..n], s.table.Values);
    WinnersSurvive(rules, s, n);
    WinnerIsApplied(rules, s, n);
    LoggedOneMore(rules, s, n);
    KeepIsFilter(s.log[..n], s.table.Values);
    assert s.log[n] !in Elems(kept);
    AppliedOverFewer(rules, Replay(rules, s.log[..n]).view, Replay(rules, kept).view, s.log[n]);
  }

  lemma KeepOneMore<R>(log: seq<R>, winners: set<R>, n: nat)
    requires n < |log|
    ensures Keep(log[..n+1], winners) == Keep(log[..n], winners) + if log[n] in winners then [log[n]] else []
  {
    assert log[..n+1][..n] == log[..n];
  }

  lemma AppliedAppend<K, R>(rules: Rules<K, R>, log: seq<R>, winners: map<K, R>, r: R)
    requires Replay(rules, log) == Ok(View(winners, Elems(log)))
    requires Judge(rules, View(winners, Elems(log)), Verified, r).Applied?
    ensures Replay(rules, log + [r]) == Ok(View(winners[rules.slot(r) := r], Elems(log + [r])))
  {
    ReplayAppend(rules, log, r);
    assert Elems(log + [r]) == Elems(log) + {r};
  }

  lemma LoggedSkips<K, R>(table: map<K, R>, log: seq<R>, n: nat)
    requires n < |log| && log[n] !in table.Values
    ensures Logged(table, log[..n+1]) == Logged(table, log[..n])
  {
    assert log[..n+1] == log[..n] + [log[n]];
  }

  lemma CompactedStep<K(!new), R(!new)>(rules: Rules<K, R>, s: Store<K, R>, n: nat)
    requires Lawful(rules) && Consistent(rules, s) && n < |s.log|
    requires ReplaysToLogged(rules, s.table, s.log[..n])
    ensures ReplaysToLogged(rules, s.table, s.log[..n+1])
  {
    var r, kept := s.log[n], Keep(s.log[..n], s.table.Values);
    KeepOneMore(s.log, s.table.Values, n);
    if r in s.table.Values {
      CompactedWinner(rules, s, n);
      LoggedOneMore(rules, s, n);
      AppliedAppend(rules, kept, Logged(s.table, s.log[..n]), r);
    } else {
      assert kept + [] == kept;
      LoggedSkips(s.table, s.log, n);
    }
  }

  lemma {:induction false} CompactedPrefix<K(!new), R(!new)>(rules: Rules<K, R>, s: Store<K, R>, n: nat)
    requires Lawful(rules) && Consistent(rules, s) && n <= |s.log|
    ensures ReplaysToLogged(rules, s.table, s.log[..n])
  {
    if n > 0 {
      CompactedPrefix(rules, s, n - 1);
      CompactedStep(rules, s, n - 1);
    }
  }

  /** Compaction is invisible to replay: the compacted log replays without error to exactly the
      same winners, and keeps every winner's operation. */
  lemma CompactionKeepsConsistent<K(!new), R(!new)>(rules: Rules<K, R>, s: Store<K, R>)
    requires Lawful(rules) && Consistent(rules, s)
    ensures Consistent(rules, Compact(s))
    ensures Compact(s).table == s.table
    ensures Elems(Compact(s).log) == s.table.Values
  {
    CompactedPrefix(rules, s, |s.log|);
    assert s.log[..|s.log|] == s.log;
    KeepIsFilter(s.log, s.table.Values);
    TableIsMaximum(rules, s);
    assert Logged(s.table, s.log) == s.table;
  }

  // ----- runs -----

  datatype Op<!R> = Apply(provenance: Provenance, record: R) | Compaction

  function Step<K(==), R(==)>(rules: Rules<K, R>, s: Store<K, R>, op: Op<R>): Store<K, R> {
    match op
    case Apply(p, r) => Write(rules, s, r, Submit(rules, s, p, r))
    case Compaction => Compact(s)
  }

  function Run<K(==), R(==)>(rules: Rules<K, R>, s: Store<K, R>, ops: seq<Op<R>>): Store<K, R> {
    if ops == [] then s else Step(rules, Run(rules, s, ops[..|ops|-1]), ops[|ops|-1])
  }

  lemma RunOneMore<K, R>(rules: Rules<K, R>, s: Store<K, R>, ops: seq<Op<R>>, op: Op<R>)
    ensures Run(rules, s, ops + [op]) == Step(rules, Run(rules, s, ops), op)
  {
    assert (ops + [op])[..|ops|] == ops;
  }

  lemma {:induction false} RunFromFirst<K, R>(rules: Rules<K, R>, s: Store<K, R>, first: Op<R>, rest: seq<Op<R>>)
    ensures Run(rules, s, [first] + rest) == Run(rules, Step(rules, s, first), rest)
  {
    if rest == [] {
      assert [first] + rest == [] + [first];
      RunOneMore(rules, s, [], first);
    } else {
      var init, last := rest[..|rest|-1], rest[|rest|-1];
      assert [first] + rest == ([first] + init) + [last];
      RunOneMore(rules, s, [first] + init, last);
      RunFromFirst(rules, s, first, init);
    }
  }

  lemma RunThree<K, R>(rules: Rules<K, R>, s: Store<K, R>, x: Op<R>, y: Op<R>, z: Op<R>)
    ensures Run(rules, s, [x, y, z]) == Step(rules, Step(rules, Step(rules, s, x), y), z)
  {
    RunOneMore(rules, s, [], x);
    RunOneMore(rules, s, [x], y);
    RunOneMore(rules, s, [x, y], z);
    assert [] + [x] == [x] && [x] + [y] == [x, y] && [x, y] + [z] == [x, y, z];
  }

  lemma RunThird<K, R>(rules: Rules<K, R>, s: Store<K, R>, x: Op<R>, y: Op<R>, z: Op<R>, two: Store<K, R>)
    requires Step(rules, Step(rules, s, x), y) == two
    ensures Run(rules, s, [x, y, z]) == Step(rules, two, z)
  {
    RunThree(rules, s, x, y, z);
  }

  lemma AppliedStep<K(!new), R(!new)>(rules: Rules<K, R>, s: Store<K, R>, p: Provenance, r: R, s': Store<K, R>)
    requires VerifiedIsWeakest(rules) && Consistent(rules, s) && r !in s.log
    requires rules.check(p, r).None? && rules.early(s.table, r).None? && rules.late(s.table, r).None?
    requires !Covered(rules, s.table, r)
    requires s'.log == s.log + [r] && s'.table == s.table[rules.slot(r) := r]
    ensures Step(rules, s, Apply(p, r)) == s' && Consistent(rules, s')
  {
    WriteKeepsConsistent(rules, s, p, r);
  }

  lemma {:induction false} RunKeepsConsistent<K(!new), R(!new)>(rules: Rules<K, R>, s: Store<K, R>, ops: seq<Op<R>>)
    requires Lawful(rules) && Consistent(rules, s)
    ensures Consistent(rules, Run(rules, s, ops))
  {
    if ops != [] {
      var init := Run(rules, s, ops[..|ops|-1]);
      RunKeepsConsistent(rules, s, ops[..|ops|-1]);
      match ops[|ops|-1]
      case Apply(p, r) => WriteKeepsConsistent(rules, init, p, r);
      case Compaction => CompactionKeepsConsistent(rules, init);
    }
  }

  /** In every state reached from the empty store by applies and compactions, replaying the log
      never errors and gives exactly the table, and every winner's operation is still logged. */
  lemma EveryRunIsConsistent<K(!new), R(!new)>(rules: Rules<K, R>, ops: seq<Op<R>>)
    requires Lawful(rules)
    ensures var s := Run(rules, Store([], map[]), ops);
            && Replay(rules, s.log) == Ok(View(s.table, Elems(s.log)))
            && s.table.Values <= Elems(s.log)
            && Sound(rules, View(s.table, Elems(s.log)))
  {
    RunKeepsConsistent(rules, Store([], map[]), ops);
    TableIsMaximum(rules, Run(rules, Store([], map[]), ops));
  }

  lemma {:induction false} LoggedStays<K, R>(rules: Rules<K, R>, s: Store<K, R>, ops: seq<Op<R>>, r: R)
    requires r in s.log && forall op :: op in ops ==> op.Apply?
    ensures r in Run(rules, s, ops).log
  {
    if ops != [] { LoggedStays(rules, s, ops[..|ops|-1], r); }
  }

  /** Until it is compacted away, a record that was not refused is a duplicate to the store from wherever it comes,
      even from where it could not be verified, and changes nothing. */
  lemma LoggedIsDuplicate<K(!new), R(!new)>(rules: Rules<K, R>, s: Store<K, R>, p: Provenance, r: R, ops: seq<Op<R>>,
                                            q: Provenance)
    requires VerifiedIsWeakest(rules) && Consistent(rules, s) && !Submit(rules, s, p, r).Rejected?
    requires forall op :: op in ops ==> op.Apply?
    ensures var t := Run(rules, Step(rules, s, Apply(p, r)), ops);
            Submit(rules, t, q, r) == Duplicate && Step(rules, t, Apply(q, r)) == t
  {
    TableIsMaximum(rules, s);
    assert r in Step(rules, s, Apply(p, r)).log by {
      if r !in s.log { SubmitIsJudge(rules, s, p, r); }
    }
    LoggedStays(rules, Step(rules, s, Apply(p, r)), ops, r);
  }

  lemma AdvancesIsTransitive<K(!new), R(!new)>(rules: Rules<K, R>, a: map<K, R>, b: map<K, R>, c: map<K, R>)
    requires Advances(rules, a, b) && Advances(rules, b, c)
    ensures Advances(rules, a, c)
  {
  }

  lemma StepAdvances<K(!new), R(!new)>(rules: Rules<K, R>, s: Store<K, R>, op: Op<R>)
    requires FencesTombstones(rules) && Consistent(rules, s)
    ensures Advances(rules, s.table, Step(rules, s, op).table)
  {
    if op.Apply? {
      AbsorbAdvances(rules, View(s.table, Elems(s.log)), op.provenance, op.record);
    }
  }

  /** Over every run no winner falls, and a slot tombstoned at an epoch stays tombstoned or moves to
      a strictly higher epoch. */
  lemma {:induction false} RunAdvances<K(!new), R(!new)>(rules: Rules<K, R>, s: Store<K, R>, ops: seq<Op<R>>)
    requires Lawful(rules) && FencesTombstones(rules) && Consistent(rules, s)
    ensures Advances(rules, s.table, Run(rules, s, ops).table)
  {
    if ops != [] {
      var init := Run(rules, s, ops[..|ops|-1]);
      RunAdvances(rules, s, ops[..|ops|-1]);
      RunKeepsConsistent(rules, s, ops[..|ops|-1]);
      StepAdvances(rules, init, ops[|ops|-1]);
      AdvancesIsTransitive(rules, s.table, init.table, Step(rules, init, ops[|ops|-1]).table);
    }
  }

  // ----- compaction is invisible to every later arrival -----

  /** Two consistent stores with the same winners, the second having forgotten some history. */
  ghost predicate Shadows<K(!new), R(!new)>(rules: Rules<K, R>, full: Store<K, R>, compact: Store<K, R>) {
    && Consistent(rules, full)
    && Consistent(rules, compact)
    && full.table == compact.table
    && Elems(compact.log) <= Elems(full.log)
  }

  /** The only way the outcomes may differ: a forgotten record is redelivered, which the full store
      calls a duplicate and the compacted one superseded, stale, or unverifiable as redelivered. */
  ghost predicate SameOrForgotten<K, R>(rules: Rules<K, R>, full: Store<K, R>, compact: Store<K, R>, p: Provenance,
                                        r: R) {
    var a, b := Submit(rules, full, p, r), Submit(rules, compact, p, r);
    || a == b
    || (&& a.Duplicate? && r in full.log && r !in compact.log
        && (|| b.Superseded?
            || (b.Rejected? && rules.check(p, r) == Some(b.error))
            || (b.Rejected? && rules.early(full.table, r) == Some(b.error))))
  }

  /** Two views with the same winners judge a record new to both alike. */
  lemma JudgeBySameWinners<K, R>(rules: Rules<K, R>, v: View<K, R>, w: View<K, R>, p: Provenance, r: R)
    requires v.records == w.records && r !in v.ids && r !in w.ids
    ensures Judge(rules, v, p, r) == Judge(rules, w, p, r)
  {
  }

  lemma CoveredIsNotApplied<K, R>(rules: Rules<K, R>, v: View<K, R>, p: Provenance, r: R)
    requires r !in v.ids && Covered(rules, v.records, r)
    ensures var b := Judge(rules, v, p, r);
            || b.Superseded?
            || (b.Rejected? && rules.check(p, r) == Some(b.error))
            || (b.Rejected? && rules.early(v.records, r) == Some(b.error))
  {
  }

  lemma ArrivalIsAlike<K(!new), R(!new)>(rules: Rules<K, R>, full: Store<K, R>, compact: Store<K, R>, p: Provenance,
                                         r: R)
    requires VerifiedIsWeakest(rules) && Shadows(rules, full, compact)
    ensures SameOrForgotten(rules, full, compact, p, r)
  {
    assert r in compact.log ==> r in Elems(compact.log) && r in full.log;
    if r !in compact.log {
      SubmitIsJudge(rules, compact, p, r);
      if r in full.log {
        TableIsMaximum(rules, full);
        assert r in Elems(full.log);
        CoveredIsNotApplied(rules, View(compact.table, Elems(compact.log)), p, r);
      } else {
        SubmitIsJudge(rules, full, p, r);
        JudgeBySameWinners(rules, View(full.table, Elems(full.log)), View(compact.table, Elems(compact.log)), p, r);
      }
    }
  }

  lemma WrittenElems<K, R>(rules: Rules<K, R>, s: Store<K, R>, r: R, verdict: Verdict)
    ensures Elems(Write(rules, s, r, verdict).log)
            == if verdict.Applied? || verdict.Superseded? then Elems(s.log) + {r} else Elems(s.log)
  {
    assert Elems(s.log + [r]) == Elems(s.log) + {r};
  }

  lemma ArrivalKeepsShadow<K(!new), R(!new)>(rules: Rules<K, R>, full: Store<K, R>, compact: Store<K, R>,
                                             p: Provenance, r: R)
    requires VerifiedIsWeakest(rules) && Shadows(rules, full, compact)
    ensures SameOrForgotten(rules, full, compact, p, r)
    ensures Shadows(rules, Step(rules, full, Apply(p, r)), Step(rules, compact, Apply(p, r)))
  {
    ArrivalIsAlike(rules, full, compact, p, r);
    WriteKeepsConsistent(rules, full, p, r);
    WriteKeepsConsistent(rules, compact, p, r);
    WrittenElems(rules, full, r, Submit(rules, full, p, r));
    WrittenElems(rules, compact, r, Submit(rules, compact, p, r));
  }

  lemma CompactionKeepsShadow<K(!new), R(!new)>(rules: Rules<K, R>, full: Store<K, R>, compact: Store<K, R>)
    requires Lawful(rules) && Shadows(rules, full, compact)
    ensures Shadows(rules, full, Compact(compact))
  {
    CompactionKeepsConsistent(rules, compact);
    TableIsMaximum(rules, compact);
  }

  /** The operations without the compactions among them. */
  function Erased<R>(ops: seq<Op<R>>): seq<Op<R>> {
    if ops == [] then []
    else Erased(ops[..|ops|-1]) + if ops[|ops|-1].Apply? then [ops[|ops|-1]] else []
  }

  lemma {:induction false} RunKeepsShadow<K(!new), R(!new)>(
      rules: Rules<K, R>, full: Store<K, R>, compact: Store<K, R>, ops: seq<Op<R>>)
    requires Lawful(rules) && Shadows(rules, full, compact)
    ensures Shadows(rules, Run(rules, full, Erased(ops)), Run(rules, compact, ops))
  {
    if ops != [] {
      var init, op := ops[..|ops|-1], ops[|ops|-1];
      RunKeepsShadow(rules, full, compact, init);
      if op.Apply? {
        RunOneMore(rules, full, Erased(init), op);
        ArrivalKeepsShadow(rules, Run(rules, full, Erased(init)), Run(rules, compact, init), op.provenance, op.record);
      } else {
        assert Erased(init) + [] == Erased(init);
        CompactionKeepsShadow(rules, Run(rules, full, Erased(init)), Run(rules, compact, init));
      }
    }
  }

  /** Compacting at any times or never: every run of applies and compactions ends with the winners of the
      same run without its compactions, and one further arrival is judged alike unless it redelivers a
      forgotten record. */
  lemma CompactionIsInvisible<K(!new), R(!new)>(
      rules: Rules<K, R>, s: Store<K, R>, ops: seq<Op<R>>, p: Provenance, r: R)
    requires Lawful(rules) && Consistent(rules, s)
    ensures Run(rules, s, ops).table == Run(rules, s, Erased(ops)).table
    ensures SameOrForgotten(rules, Run(rules, s, Erased(ops)), Run(rules, s, ops), p, r)
  {
    RunKeepsShadow(rules, s, s, ops);
    ArrivalKeepsShadow(rules, Run(rules, s, Erased(ops)), Run(rules, s, ops), p, r);
  }
}
