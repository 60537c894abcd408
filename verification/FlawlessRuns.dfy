/** What a reconciliation of which no command fails leaves behind, for every kernel, records and cache: the
    exact conditions under which it agrees with the new cache, and the families in which it does not. */
module FlawlessRuns {
  import opened Names
  import Ledger
  import opened Membership
  import opened WireGuard

  // ----- what a run without failures leaves, for every plan -----

  /** The record has the peer's allowed addresses set, or the cached peer removed. */
  ghost predicate SetBy(r: Member, previous: Option<Entry>) {
    r.state.Active? && (previous.Some? ==> !SamePeer(previous.value, r))
  }

  ghost predicate RemovedBy(r: Member, previous: Option<Entry>) {
    previous.Some? && (r.state.Tombstoned? || previous.value.key != r.wireguardKey)
  }

  /** What the record does to the route of a prefix: its peer is set with it, or removed with it. */
  ghost predicate Claims(r: Member, previous: Option<Entry>, ip: string) {
    SetBy(r, previous) && ip in MemberIps(r)
  }

  ghost predicate Drops(r: Member, previous: Option<Entry>, ip: string) {
    RemovedBy(r, previous) && ip in EntryIps(previous.value)
  }

  /** What the record does to a peer's hold on a prefix. */
  ghost predicate Gains(r: Member, previous: Option<Entry>, q: string, ip: string) {
    SetBy(r, previous) && r.wireguardKey == q && ip in MemberIps(r)
  }

  ghost predicate Loses(r: Member, previous: Option<Entry>, q: string, ip: string) {
    || (RemovedBy(r, previous) && previous.value.key == q)
    || (SetBy(r, previous) && r.wireguardKey == q && ip !in MemberIps(r))
    || (SetBy(r, previous) && r.wireguardKey != q && ip in MemberIps(r))
  }

  ghost predicate Allows(k: Kernel, q: string, ip: string) { q in k.peers && ip in k.peers[q].allowed }

  lemma PerformedOne(k: Kernel, a: Action)
    ensures PerformedAll(k, [a]) == Performed(k, a)
  {
    assert [a][..0] == [];
    assert PerformedAll(k, []) == k;
  }

  lemma {:induction false} PerformedAppend(k: Kernel, a: seq<Action>, b: seq<Action>)
    ensures PerformedAll(k, a + b) == PerformedAll(PerformedAll(k, a), b)
  {
    if b == [] {
      assert a + b == a;
    } else {
      PerformedAppend(k, a, b[..|b|-1]);
      assert (a + b)[..|a+b|-1] == a + b[..|b|-1];
    }
  }

  /** One record's actions without failures. */
  lemma NodeEffect(k: Kernel, r: Member, previous: Option<Entry>, observed: map<string, string>, q: string, ip: string)
    ensures var k' := PerformedAll(k, ActionsFor(r, previous, observed));
            && (ip in k'.routes <==> Claims(r, previous, ip) || (ip in k.routes && !Drops(r, previous, ip)))
            && (Allows(k', q, ip) <==> Gains(r, previous, q, ip) || (Allows(k, q, ip) && !Loses(r, previous, q, ip)))
  {
    var actions := ActionsFor(r, previous, observed);
    if |actions| == 1 {
      assert actions == [actions[0]];
      PerformedOne(k, actions[0]);
      OneEffect(k, actions[0], q, ip);
    } else if |actions| == 2 {
      assert actions == [actions[0]] + [actions[1]];
      PerformedAppend(k, [actions[0]], [actions[1]]);
      PerformedOne(k, actions[0]);
      PerformedOne(Performed(k, actions[0]), actions[1]);
      OneEffect(k, actions[0], q, ip);
      OneEffect(Performed(k, actions[0]), actions[1], q, ip);
    }
  }

  lemma OneEffect(k: Kernel, a: Action, q: string, ip: string)
    ensures var k' := Performed(k, a);
            match a
            case Set(_, key, _, ips) =>
              && (ip in k'.routes <==> ip in ips || ip in k.routes)
              && (Allows(k', q, ip) <==> if key == q then ip in ips else Allows(k, q, ip) && ip !in ips)
            case UpdateEndpoint(_, _, _) =>
              (ip in k'.routes <==> ip in k.routes) && (Allows(k', q, ip) <==> Allows(k, q, ip))
            case Remove(_, key, ips) =>
              && (ip in k'.routes <==> ip in k.routes && ip !in ips)
              && (Allows(k', q, ip) <==> Allows(k, q, ip) && key != q)
  {
  }

  /** What remains of a fact that events may establish or end: the last of them decides, and without any
      it is as it was. */
  ghost predicate LastWord(n: nat, gains: nat -> bool, loses: nat -> bool, before: bool) {
    || (exists i: nat :: i < n && gains(i) && forall j: nat :: i < j < n ==> !loses(j))
    || (before && forall i: nat :: i < n ==> !gains(i) && !loses(i))
  }

  lemma LastWordOneMore(n: nat, gains: nat -> bool, loses: nat -> bool, before: bool)
    ensures LastWord(n + 1, gains, loses, before) <==> gains(n) || (LastWord(n, gains, loses, before) && !loses(n))
  {
  }

  lemma LastWordOfOne(n: nat, gains: nat -> bool, loses: nat -> bool, before: bool, only: nat)
    requires only < n && forall i: nat :: i < n ==> (gains(i) <==> i == only)
    ensures LastWord(n, gains, loses, before) <==> forall j: nat :: only < j < n ==> !loses(j)
  {
    assert gains(only);
  }

  lemma LastWordOfNone(n: nat, gains: nat -> bool, loses: nat -> bool, before: bool)
    requires forall i: nat :: i < n ==> !gains(i)
    ensures LastWord(n, gains, loses, before) <==> before && forall j: nat :: j < n ==> !loses(j)
  {
  }

  ghost predicate ClaimsAt(local: string, records: seq<Member>, cache: map<string, Entry>, ip: string, i: nat) {
    Decides(local, records, i) && Claims(records[i], Lookup(cache, records[i].nodeId), ip)
  }

  ghost predicate DropsAt(local: string, records: seq<Member>, cache: map<string, Entry>, ip: string, i: nat) {
    Decides(local, records, i) && Drops(records[i], Lookup(cache, records[i].nodeId), ip)
  }

  ghost predicate GainsAt(local: string, records: seq<Member>, cache: map<string, Entry>, q: string, ip: string,
                          i: nat) {
    Decides(local, records, i) && Gains(records[i], Lookup(cache, records[i].nodeId), q, ip)
  }

  ghost predicate LosesAt(local: string, records: seq<Member>, cache: map<string, Entry>, q: string, ip: string,
                          i: nat) {
    Decides(local, records, i) && Loses(records[i], Lookup(cache, records[i].nodeId), q, ip)
  }

  ghost function Claimers(local: string, records: seq<Member>, cache: map<string, Entry>, ip: string): nat -> bool {
    (i: nat) => ClaimsAt(local, records, cache, ip, i)
  }

  ghost function Droppers(local: string, records: seq<Member>, cache: map<string, Entry>, ip: string): nat -> bool {
    (i: nat) => DropsAt(local, records, cache, ip, i)
  }

  ghost function Gainers(local: string, records: seq<Member>, cache: map<string, Entry>, q: string,
                         ip: string): nat -> bool {
    (i: nat) => GainsAt(local, records, cache, q, ip, i)
  }

  ghost function Losers(local: string, records: seq<Member>, cache: map<string, Entry>, q: string,
                        ip: string): nat -> bool {
    (i: nat) => LosesAt(local, records, cache, q, ip, i)
  }

  lemma KernelStep(k: Kernel, local: string, records: seq<Member>, cache: map<string, Entry>,
                   observed: map<string, string>, i: nat, q: string, ip: string)
    requires i < |records|
    ensures var before := PerformedAll(k, PlanOf(local, records[..i], cache, observed).actions);
            var after := PerformedAll(k, PlanOf(local, records[..i+1], cache, observed).actions);
            && (ip in after.routes <==>
                  ClaimsAt(local, records, cache, ip, i) ||
                    (ip in before.routes && !DropsAt(local, records, cache, ip, i)))
            && (Allows(after, q, ip) <==>
                  GainsAt(local, records, cache, q, ip, i) ||
                    (Allows(before, q, ip) && !LosesAt(local, records, cache, q, ip, i)))
  {
    PlanStep(local, records, cache, observed, i);
    if Decides(local, records, i) {
      var before := PlanOf(local, records[..i], cache, observed).actions;
      var previous := Lookup(cache, records[i].nodeId);
      PerformedAppend(k, before, ActionsFor(records[i], previous, observed));
      NodeEffect(PerformedAll(k, before), records[i], previous, observed, q, ip);
    }
  }

  lemma {:induction false} KernelAfter(k: Kernel, local: string, records: seq<Member>, cache: map<string, Entry>,
                                       observed: map<string, string>, n: nat, q: string, ip: string)
    requires n <= |records|
    ensures var k' := PerformedAll(k, PlanOf(local, records[..n], cache, observed).actions);
            && (ip in k'.routes <==>
                  LastWord(n, Claimers(local, records, cache, ip), Droppers(local, records, cache, ip), ip in k.routes))
            && (Allows(k', q, ip) <==>
                  LastWord(n, Gainers(local, records, cache, q, ip), Losers(local, records, cache, q, ip),
                           Allows(k, q, ip)))
  {
    if n > 0 {
      KernelAfter(k, local, records, cache, observed, n - 1, q, ip);
      KernelStep(k, local, records, cache, observed, n - 1, q, ip);
      LastWordOneMore(n - 1, Claimers(local, records, cache, ip), Droppers(local, records, cache, ip), ip in k.routes);
      LastWordOneMore(n - 1, Gainers(local, records, cache, q, ip), Losers(local, records, cache, q, ip),
                      Allows(k, q, ip));
    }
  }

  /** The prefix is routed, or the peer holds the prefix, at the end of a run without failures. */
  ghost predicate EndsRouted(k: Kernel, local: string, records: seq<Member>, cache: map<string, Entry>, ip: string) {
    LastWord(|records|, Claimers(local, records, cache, ip), Droppers(local, records, cache, ip), ip in k.routes)
  }

  ghost predicate EndsAllowed(k: Kernel, local: string, records: seq<Member>, cache: map<string, Entry>, q: string,
                              ip: string) {
    LastWord(|records|, Gainers(local, records, cache, q, ip), Losers(local, records, cache, q, ip), Allows(k, q, ip))
  }

  /** For every kernel, records and cache, shared prefixes and keys included: what is routed and allowed
      after a run without failures is decided, prefix by prefix, by the last record that speaks about it;
      so the kernel carries an entry of the next cache if and only if the last word on each of its prefixes
      is in its favour. */
  lemma FlawlessRunIff(k: Kernel, local: string, records: seq<Member>, cache: map<string, Entry>,
                       observed: map<string, string>)
    ensures var p := PlanOf(local, records, cache, observed);
            var k' := PerformedAll(k, p.actions);
            && (forall ip :: ip in k'.routes <==> EndsRouted(k, local, records, cache, ip))
            && (forall q, ip :: Allows(k', q, ip) <==> EndsAllowed(k, local, records, cache, q, ip))
            && (forall e :: Carries(k', e) <==>
                  forall ip :: ip in EntryIps(e) ==>
                    EndsAllowed(k, local, records, cache, e.key, ip) && EndsRouted(k, local, records, cache, ip))
  {
    var k' := PerformedAll(k, PlanOf(local, records, cache, observed).actions);
    assert records[..|records|] == records;
    forall ip ensures ip in k'.routes <==> EndsRouted(k, local, records, cache, ip) {
      KernelAfter(k, local, records, cache, observed, |records|, "", ip);
    }
    forall q, ip ensures Allows(k', q, ip) <==> EndsAllowed(k, local, records, cache, q, ip) {
      KernelAfter(k, local, records, cache, observed, |records|, q, ip);
    }
    forall e ensures Carries(k', e) <==> forall ip :: ip in EntryIps(e) ==> Allows(k', e.key, ip) && ip in k'.routes {
      CarriesByPrefix(k', e);
    }
  }

  ghost predicate Favoured(k: Kernel, local: string, records: seq<Member>, cache: map<string, Entry>, e: Entry) {
    forall ip :: ip in EntryIps(e) ==>
      EndsAllowed(k, local, records, cache, e.key, ip) && EndsRouted(k, local, records, cache, ip)
  }

  /** So, whatever nodes share, the kernel ends carrying the whole next cache if and only if the last word on
      every prefix of every entry is in favour of the entry's key and of the route. */
  lemma NextCarriedIff(k: Kernel, local: string, records: seq<Member>, cache: map<string, Entry>,
                       observed: map<string, string>)
    ensures var p := PlanOf(local, records, cache, observed);
            AllCarried(PerformedAll(k, p.actions), p.next) <==>
              forall n :: n in p.next ==> Favoured(k, local, records, cache, p.next[n])
  {
    var p := PlanOf(local, records, cache, observed);
    var k' := PerformedAll(k, p.actions);
    FlawlessRunIff(k, local, records, cache, observed);
    forall n | n in p.next
      ensures Carries(k', p.next[n]) <==> Favoured(k, local, records, cache, p.next[n])
    {
      assert Carries(k', p.next[n]) <==>
        forall ip :: ip in EntryIps(p.next[n]) ==>
          EndsAllowed(k, local, records, cache, p.next[n].key, ip) && EndsRouted(k, local, records, cache, ip);
    }
  }

  lemma CarriesByPrefix(k: Kernel, e: Entry)
    ensures Carries(k, e) <==> forall ip :: ip in EntryIps(e) ==> Allows(k, e.key, ip) && ip in k.routes
  {
    assert EntryIps(e)[0] in EntryIps(e);
    assert forall ip :: ip in EntryIps(e) <==> ip in IpSet(EntryIps(e));
  }

  // ----- the exact condition where the next cache shares nothing -----

  ghost predicate Clash(a: Entry, b: Entry) {
    a.key == b.key || exists ip :: ip in EntryIps(a) && ip in EntryIps(b)
  }

  /** No two nodes of a cache share a key or a prefix. */
  ghost predicate Distinct(cache: map<string, Entry>) {
    forall m, n :: m in cache && n in cache && m != n ==> !Clash(cache[m], cache[n])
  }

  ghost predicate RemovedAt(local: string, records: seq<Member>, cache: map<string, Entry>, i: nat) {
    Decides(local, records, i) && RemovedBy(records[i], Lookup(cache, records[i].nodeId))
  }

  ghost predicate SetAt(local: string, records: seq<Member>, cache: map<string, Entry>, i: nat) {
    Decides(local, records, i) && SetBy(records[i], Lookup(cache, records[i].nodeId))
  }

  /** The node is set by a record listed at this place or after it. */
  ghost predicate SetFrom(local: string, records: seq<Member>, cache: map<string, Entry>, n: string, j: nat) {
    exists i: nat :: j <= i && SetAt(local, records, cache, i) && records[i].nodeId == n
  }

  /** No node that ends up in the cache has its key or one of its prefixes taken away by the removal of a
      tombstoned or re-keyed node, unless it is itself set by a record listed later. */
  ghost predicate NoTakeover(local: string, records: seq<Member>, cache: map<string, Entry>, next: map<string, Entry>) {
    forall n :: n in next ==> NodeSpared(local, records, cache, next, n)
  }

  ghost predicate Unset(local: string, records: seq<Member>, cache: map<string, Entry>, n: string) {
    n in cache && !Reset(local, records, cache, n)
  }

  /** A node of the next cache is there because one record set it, or because it was cached and no record
      set or removed it. */
  ghost predicate Shaped(local: string, records: seq<Member>, cache: map<string, Entry>, next: map<string, Entry>,
                         n: string) {
    && (n in next && !Unset(local, records, cache, n) ==> SetFrom(local, records, cache, n, 0))
    && (forall i: nat :: SetAt(local, records, cache, i) && records[i].nodeId == n ==>
          && n in next && !Unset(local, records, cache, n)
          && next[n].key == records[i].wireguardKey && EntryIps(next[n]) == MemberIps(records[i]))
    && (Unset(local, records, cache, n) ==>
          && n in next && next[n].key == cache[n].key && EntryIps(next[n]) == EntryIps(cache[n])
          && forall i: nat :: Decides(local, records, i) && records[i].nodeId == n ==>
               !RemovedAt(local, records, cache, i))
  }

  lemma NextIsShaped(local: string, records: seq<Member>, cache: map<string, Entry>, observed: map<string, string>,
                     n: string)
    ensures Shaped(local, records, cache, PlanOf(local, records, cache, observed).next, n)
  {
    PlanByNode(local, records, cache, observed, n);
    DecidingAt(local, records, n);
    if Deciding(local, records, n).Some? {
      var i: nat :| Decides(local, records, i) && records[i].nodeId == n;
      assert SetAt(local, records, cache, i) <==> SetBy(records[i], Lookup(cache, n));
    }
  }

  lemma DecidesOnce(local: string, records: seq<Member>, i: nat, j: nat)
    requires Decides(local, records, i) && Decides(local, records, j) && records[i].nodeId == records[j].nodeId
    ensures i == j
  {
  }

  /** Where the next cache shares nothing, only a node's own record gains or claims its prefixes, and only
      removals lose or drop them. */
  lemma OnlyRemovalsLose(local: string, records: seq<Member>, cache: map<string, Entry>, next: map<string, Entry>,
                         n: string, ip: string, i: nat)
    requires forall m :: Shaped(local, records, cache, next, m)
    requires Distinct(next) && n in next && ip in EntryIps(next[n]) && Decides(local, records, i)
    ensures GainsAt(local, records, cache, next[n].key, ip, i) <==>
              SetAt(local, records, cache, i) && records[i].nodeId == n
    ensures ClaimsAt(local, records, cache, ip, i) <==> SetAt(local, records, cache, i) && records[i].nodeId == n
    ensures LosesAt(local, records, cache, next[n].key, ip, i) <==>
              RemovedAt(local, records, cache, i) && cache[records[i].nodeId].key == next[n].key
    ensures DropsAt(local, records, cache, ip, i) <==>
              RemovedAt(local, records, cache, i) && ip in EntryIps(cache[records[i].nodeId])
  {
    var m := records[i].nodeId;
    assert Shaped(local, records, cache, next, m);
    if SetAt(local, records, cache, i) && m != n {
      assert !Clash(next[m], next[n]);
    }
  }

  /** No removal listed after the node was set, or any where it was not, takes its key or this prefix. */
  ghost predicate Spared(local: string, records: seq<Member>, cache: map<string, Entry>, next: map<string, Entry>,
                         n: string, ip: string)
    requires n in next
  {
    forall j: nat :: TakesAt(local, records, cache, next[n].key, ip, j) ==> SetFrom(local, records, cache, n, j)
  }

  lemma PrefixKeptIff(k: Kernel, local: string, records: seq<Member>, cache: map<string, Entry>,
                      next: map<string, Entry>, n: string, ip: string)
    requires forall m :: Shaped(local, records, cache, next, m)
    requires Distinct(next) && n in next && ip in EntryIps(next[n])
    ensures (EndsAllowed(k, local, records, cache, next[n].key, ip) && EndsRouted(k, local, records, cache, ip)) <==>
            && Spared(local, records, cache, next, n, ip)
            && (Unset(local, records, cache, n) ==> Allows(k, next[n].key, ip) && ip in k.routes)
  {
    var q := next[n].key;
    forall i: nat | Decides(local, records, i)
      ensures GainsAt(local, records, cache, q, ip, i) <==> SetAt(local, records, cache, i) && records[i].nodeId == n
      ensures ClaimsAt(local, records, cache, ip, i) <==> SetAt(local, records, cache, i) && records[i].nodeId == n
      ensures LosesAt(local, records, cache, q, ip, i) <==>
                RemovedAt(local, records, cache, i) && cache[records[i].nodeId].key == q
      ensures DropsAt(local, records, cache, ip, i) <==>
                RemovedAt(local, records, cache, i) && ip in EntryIps(cache[records[i].nodeId])
    {
      OnlyRemovalsLose(local, records, cache, next, n, ip, i);
    }
    assert Shaped(local, records, cache, next, n);
    var gains, loses := Gainers(local, records, cache, q, ip), Losers(local, records, cache, q, ip);
    var claims, drops := Claimers(local, records, cache, ip), Droppers(local, records, cache, ip);
    assert forall j: nat :: TakesAt(local, records, cache, q, ip, j) <==> j < |records| && (loses(j) || drops(j));
    if Unset(local, records, cache, n) {
      assert forall j: nat :: !SetFrom(local, records, cache, n, j);
      LastWordOfNone(|records|, gains, loses, Allows(k, q, ip));
      LastWordOfNone(|records|, claims, drops, ip in k.routes);
      SparedIffNever(local, records, cache, next, n, ip);
    } else {
      var i: nat :| SetAt(local, records, cache, i) && records[i].nodeId == n;
      forall j: nat | SetAt(local, records, cache, j) && records[j].nodeId == n ensures j == i {
        DecidesOnce(local, records, i, j);
      }
      LastWordOfOne(|records|, gains, loses, Allows(k, q, ip), i);
      LastWordOfOne(|records|, claims, drops, ip in k.routes, i);
      SparedIffBefore(local, records, cache, next, n, ip, i);
    }
  }

  ghost predicate TakesAt(local: string, records: seq<Member>, cache: map<string, Entry>, q: string, ip: string,
                          j: nat) {
    RemovedAt(local, records, cache, j) &&
      (cache[records[j].nodeId].key == q || ip in EntryIps(cache[records[j].nodeId]))
  }

  lemma SparedIffNever(local: string, records: seq<Member>, cache: map<string, Entry>, next: map<string, Entry>,
                       n: string, ip: string)
    requires n in next && forall j: nat :: !SetFrom(local, records, cache, n, j)
    ensures Spared(local, records, cache, next, n, ip) <==>
            forall j: nat :: !TakesAt(local, records, cache, next[n].key, ip, j)
  {
  }

  lemma SparedIffBefore(local: string, records: seq<Member>, cache: map<string, Entry>, next: map<string, Entry>,
                        n: string, ip: string, i: nat)
    requires n in next && SetAt(local, records, cache, i) && records[i].nodeId == n
    requires forall j: nat :: SetAt(local, records, cache, j) && records[j].nodeId == n ==> j == i
    ensures Spared(local, records, cache, next, n, ip) <==>
            forall j: nat :: i < j ==> !TakesAt(local, records, cache, next[n].key, ip, j)
  {
    assert forall j: nat :: SetFrom(local, records, cache, n, j) <==> j <= i;
  }

  lemma EntryKeptIff(k: Kernel, local: string, records: seq<Member>, cache: map<string, Entry>,
                     observed: map<string, string>, n: string)
    requires Distinct(PlanOf(local, records, cache, observed).next) && n in PlanOf(local, records, cache, observed).next
    ensures var p := PlanOf(local, records, cache, observed);
            Carries(PerformedAll(k, p.actions), p.next[n]) <==>
              && (forall ip :: ip in EntryIps(p.next[n]) ==> Spared(local, records, cache, p.next, n, ip))
              && (Unset(local, records, cache, n) ==> Carries(k, cache[n]))
  {
    var p := PlanOf(local, records, cache, observed);
    FlawlessRunIff(k, local, records, cache, observed);
    forall m ensures Shaped(local, records, cache, p.next, m) { NextIsShaped(local, records, cache, observed, m); }
    assert Shaped(local, records, cache, p.next, n);
    if n in cache { CarriesByPrefix(k, cache[n]); }
    forall ip | ip in EntryIps(p.next[n])
      ensures (EndsAllowed(k, local, records, cache, p.next[n].key, ip) &&
                EndsRouted(k, local, records, cache, ip)) <==>
              && Spared(local, records, cache, p.next, n, ip)
              && (Unset(local, records, cache, n) ==> Allows(k, p.next[n].key, ip) && ip in k.routes)
    {
      PrefixKeptIff(k, local, records, cache, p.next, n, ip);
    }
  }

  /** For every kernel, records and cache such that no two nodes of the next cache share a key or a prefix:
      a run without failures ends with the kernel carrying the next cache if and only if it carried every
      cached peer the plan does not set afresh, and there is no takeover. */
  lemma TakeoverIff(k: Kernel, local: string, records: seq<Member>, cache: map<string, Entry>,
                    observed: map<string, string>)
    requires Distinct(PlanOf(local, records, cache, observed).next)
    ensures var p := PlanOf(local, records, cache, observed);
            AllCarried(PerformedAll(k, p.actions), p.next) <==>
              Repairable(k, local, records, cache) && NoTakeover(local, records, cache, p.next)
  {
    var p := PlanOf(local, records, cache, observed);
    forall n
      ensures n in p.next ==>
                (Carries(PerformedAll(k, p.actions), p.next[n]) <==>
                  NodeSpared(local, records, cache, p.next, n) &&
                    (Unset(local, records, cache, n) ==> Carries(k, cache[n])))
      ensures Unset(local, records, cache, n) ==> n in p.next
    {
      NextIsShaped(local, records, cache, observed, n);
      if n in p.next {
        EntryKeptIff(k, local, records, cache, observed, n);
        SparedByPrefix(local, records, cache, p.next, n);
      }
    }
  }

  ghost predicate NodeSpared(local: string, records: seq<Member>, cache: map<string, Entry>, next: map<string, Entry>,
                             n: string)
    requires n in next
  {
    forall j: nat :: RemovedAt(local, records, cache, j) && Clash(cache[records[j].nodeId], next[n]) ==>
      SetFrom(local, records, cache, n, j)
  }

  lemma SparedByPrefix(local: string, records: seq<Member>, cache: map<string, Entry>, next: map<string, Entry>,
                       n: string)
    requires n in next
    ensures NodeSpared(local, records, cache, next, n) <==>
            forall ip :: ip in EntryIps(next[n]) ==> Spared(local, records, cache, next, n, ip)
  {
    assert EntryIps(next[n])[0] in EntryIps(next[n]);
    if forall ip :: ip in EntryIps(next[n]) ==> Spared(local, records, cache, next, n, ip) {
      forall j: nat | RemovedAt(local, records, cache, j) && Clash(cache[records[j].nodeId], next[n])
        ensures SetFrom(local, records, cache, n, j)
      {
        var ip :| ip in EntryIps(next[n]) && TakesAt(local, records, cache, next[n].key, ip, j);
        assert Spared(local, records, cache, next, n, ip);
      }
    }
    if NodeSpared(local, records, cache, next, n) {
      forall ip, j: nat | ip in EntryIps(next[n]) && TakesAt(local, records, cache, next[n].key, ip, j)
        ensures SetFrom(local, records, cache, n, j)
      {
        assert Clash(cache[records[j].nodeId], next[n]);
      }
    }
  }

  // ----- takeovers lose routes -----

  /** The failing family: a record sets a peer with a prefix, a record listed after it removes a tombstoned or
      re-keyed node that had the prefix, and none from there on claims it. Although every command succeeds
      the node that was set ends without the route, and planning again asks for nothing. */
  lemma TakeoverLosesRoute(k: Kernel, local: string, records: seq<Member>, cache: map<string, Entry>,
                           observed: map<string, string>, ip: string, i: nat, j: nat)
    requires ClaimsAt(local, records, cache, ip, i) && i < j && DropsAt(local, records, cache, ip, j)
    requires forall l: nat :: j <= l ==> !ClaimsAt(local, records, cache, ip, l)
    ensures var p := PlanOf(local, records, cache, observed);
            && records[i].nodeId in p.next
            && !Carries(PerformedAll(k, p.actions), p.next[records[i].nodeId])
            && PlanOf(local, records, p.next, observed).actions == []
  {
    var p := PlanOf(local, records, cache, observed);
    NextIsShaped(local, records, cache, observed, records[i].nodeId);
    assert SetAt(local, records, cache, i);
    FlawlessRunIff(k, local, records, cache, observed);
    var claims, drops := Claimers(local, records, cache, ip), Droppers(local, records, cache, ip);
    assert claims(i) && drops(j);
    assert !EndsRouted(k, local, records, cache, ip);
    ReplanIsEmpty(local, records, cache, observed);
  }

  /** Membership produces it: a node is enrolled, tombstoned, and a node of smaller id enrolled with its
      subnet, which is accepted. An agent that cached the first and then sees both, listed by node id, loses
      the route of the second. */
  lemma ReusedSubnetLosesRoute(scope: Scope, validCidr: string -> bool, digest: Member -> nat, giver: Member,
                               taker: Member, k: Kernel, local: string, e: Entry, observed: map<string, string>)
    requires Injective(digest)
    requires Check(scope, validCidr, giver).None? && Check(scope, validCidr, taker).None?
    requires giver.state.Active? && taker.state.Active? && local != giver.nodeId && local != taker.nodeId
    requires Before(taker.nodeId, giver.nodeId) && taker.containerSubnet == giver.containerSubnet
    requires EntryIps(e) == MemberIps(giver)
    ensures var t := giver.(revision := giver.revision + 1, state := Tombstoned);
            var members := Ledger.Run(MemberRules(scope, validCidr, digest), Ledger.Store([], map[]),
                                      [Ledger.Apply(Ledger.Local, giver), Ledger.Apply(Ledger.Local, t),
                                       Ledger.Apply(Ledger.Local, taker)]).table;
            var p := PlanOf(local, [taker, t], map[giver.nodeId := e], observed);
            && members == map[giver.nodeId := t, taker.nodeId := taker]
            && taker.nodeId in p.next && !Carries(PerformedAll(k, p.actions), p.next[taker.nodeId])
  {
    var t := giver.(revision := giver.revision + 1, state := Tombstoned);
    BeforeIsStrict(taker.nodeId, giver.nodeId);
    EnrolSuccessor(scope, validCidr, digest, giver, taker);
    var records, cache, ip := [taker, t], map[giver.nodeId := e], taker.containerSubnet;
    assert EntryIps(e)[1] == MemberIps(giver)[1] == ip;
    assert MemberIps(taker)[1] == ip;
    assert Decides(local, records, 0) && Decides(local, records, 1);
    TakeoverLosesRoute(k, local, records, cache, observed, ip, 0, 1);
  }

  // ----- exact routes -----

  ghost predicate RoutesAgree(k: Kernel, cache: map<string, Entry>) {
    forall ip :: ip in k.routes <==> HoldsPrefix(cache, ip)
  }

  /** The node keeps its key but not its address and subnet, so it is set without being removed. */
  ghost predicate Readdressed(local: string, records: seq<Member>, cache: map<string, Entry>, n: string) {
    Reset(local, records, cache, n) && Deciding(local, records, n).value.state.Active?
    && cache[n].key == Deciding(local, records, n).value.wireguardKey
  }

  ghost predicate Dropped(local: string, records: seq<Member>, cache: map<string, Entry>, ip: string) {
    exists j: nat :: DropsAt(local, records, cache, ip, j)
  }

  ghost predicate ClaimedLast(local: string, records: seq<Member>, cache: map<string, Entry>, ip: string) {
    LastWord(|records|, Claimers(local, records, cache, ip), Droppers(local, records, cache, ip), false)
  }

  ghost predicate GivenUp(local: string, records: seq<Member>, cache: map<string, Entry>, ip: string) {
    exists n :: Readdressed(local, records, cache, n) && ip in EntryIps(cache[n])
  }

  lemma RouteAgreesIff(k: Kernel, local: string, records: seq<Member>, cache: map<string, Entry>,
                       next: map<string, Entry>, ip: string)
    requires forall n :: Shaped(local, records, cache, next, n)
    requires ip in k.routes <==> HoldsPrefix(cache, ip)
    ensures (EndsRouted(k, local, records, cache, ip) <==> HoldsPrefix(next, ip)) <==>
            && (HoldsPrefix(next, ip) && Dropped(local, records, cache, ip) ==> ClaimedLast(local, records, cache, ip))
            && (GivenUp(local, records, cache, ip) ==> HoldsPrefix(next, ip) || Dropped(local, records, cache, ip))
  {
    var claims, drops := Claimers(local, records, cache, ip), Droppers(local, records, cache, ip);
    forall i: nat | claims(i) ensures HoldsPrefix(next, ip) {
      assert Shaped(local, records, cache, next, records[i].nodeId);
      assert SetAt(local, records, cache, i);
    }
    if HoldsPrefix(next, ip) {
      var n :| n in next && ip in EntryIps(next[n]);
      HolderIsOldOrClaims(local, records, cache, next, n, ip);
    }
    if HoldsPrefix(cache, ip) {
      var n :| n in cache && ip in EntryIps(cache[n]);
      CachedIsKeptOrGone(local, records, cache, next, n, ip);
    }
    assert forall j: nat :: drops(j) ==> DropsAt(local, records, cache, ip, j);
    assert forall j: nat :: DropsAt(local, records, cache, ip, j) ==> drops(j) && j < |records|;
    assert GivenUp(local, records, cache, ip) ==> HoldsPrefix(cache, ip);
  }

  lemma HolderIsOldOrClaims(local: string, records: seq<Member>, cache: map<string, Entry>, next: map<string, Entry>,
                            n: string, ip: string)
    requires Shaped(local, records, cache, next, n) && n in next && ip in EntryIps(next[n])
    ensures HoldsPrefix(cache, ip) || exists i: nat :: i < |records| && Claimers(local, records, cache, ip)(i)
  {
    if !Unset(local, records, cache, n) {
      var i: nat :| SetAt(local, records, cache, i) && records[i].nodeId == n;
      assert Claimers(local, records, cache, ip)(i);
    }
  }

  lemma CachedIsKeptOrGone(local: string, records: seq<Member>, cache: map<string, Entry>, next: map<string, Entry>,
                           n: string, ip: string)
    requires Shaped(local, records, cache, next, n) && n in cache && ip in EntryIps(cache[n])
    ensures HoldsPrefix(next, ip) || Dropped(local, records, cache, ip) || GivenUp(local, records, cache, ip)
  {
    if !Unset(local, records, cache, n) && !Readdressed(local, records, cache, n) {
      DecidingAt(local, records, n);
      var i: nat :| Decides(local, records, i) && records[i].nodeId == n;
      assert DropsAt(local, records, cache, ip, i);
    }
  }

  /** For every records and cache, from a kernel with exactly the cache's routes: a run without failures ends
      with exactly the next cache's routes if and only if the last word on each of its prefixes that a removal
      drops is a claim, and each prefix that a node gives up while keeping its key is still held or is
      dropped by a removal. */
  lemma RoutesAgreeIff(k: Kernel, local: string, records: seq<Member>, cache: map<string, Entry>,
                       observed: map<string, string>)
    requires RoutesAgree(k, cache)
    ensures var p := PlanOf(local, records, cache, observed);
            RoutesAgree(PerformedAll(k, p.actions), p.next) <==>
              && (forall ip :: HoldsPrefix(p.next, ip) && Dropped(local, records, cache, ip) ==>
                    ClaimedLast(local, records, cache, ip))
              && (forall ip :: GivenUp(local, records, cache, ip) ==>
                    HoldsPrefix(p.next, ip) || Dropped(local, records, cache, ip))
  {
    var p := PlanOf(local, records, cache, observed);
    FlawlessRunIff(k, local, records, cache, observed);
    forall n ensures Shaped(local, records, cache, p.next, n) { NextIsShaped(local, records, cache, observed, n); }
    forall ip
      ensures (EndsRouted(k, local, records, cache, ip) <==> HoldsPrefix(p.next, ip)) <==>
              && (HoldsPrefix(p.next, ip) && Dropped(local, records, cache, ip) ==>
                    ClaimedLast(local, records, cache, ip))
              && (GivenUp(local, records, cache, ip) ==> HoldsPrefix(p.next, ip) || Dropped(local, records, cache, ip))
    {
      RouteAgreesIff(k, local, records, cache, p.next, ip);
    }
  }

  lemma ClaimedIsHeld(local: string, records: seq<Member>, cache: map<string, Entry>, observed: map<string, string>,
                      ip: string)
    ensures (exists i: nat :: ClaimsAt(local, records, cache, ip, i)) ==>
              HoldsPrefix(PlanOf(local, records, cache, observed).next, ip)
  {
    if i: nat :| ClaimsAt(local, records, cache, ip, i) {
      NextIsShaped(local, records, cache, observed, records[i].nodeId);
      assert SetAt(local, records, cache, i);
    }
  }

  /** The failing family: a prefix that a node gives up while keeping its key, and that nobody holds or drops,
      stays routed although every command succeeds, and planning again asks for nothing. */
  lemma StaleRouteStays(k: Kernel, local: string, records: seq<Member>, cache: map<string, Entry>,
                        observed: map<string, string>, ip: string)
    requires ip in k.routes && GivenUp(local, records, cache, ip) && !Dropped(local, records, cache, ip)
    requires !HoldsPrefix(PlanOf(local, records, cache, observed).next, ip)
    ensures var p := PlanOf(local, records, cache, observed);
            ip in PerformedAll(k, p.actions).routes && PlanOf(local, records, p.next, observed).actions == []
  {
    var p := PlanOf(local, records, cache, observed);
    FlawlessRunIff(k, local, records, cache, observed);
    var claims, drops := Claimers(local, records, cache, ip), Droppers(local, records, cache, ip);
    assert forall i: nat :: drops(i) ==> DropsAt(local, records, cache, ip, i);
    ClaimedIsHeld(local, records, cache, observed, ip);
    assert forall i: nat :: claims(i) ==> ClaimsAt(local, records, cache, ip, i);
    ReplanIsEmpty(local, records, cache, observed);
  }

  /** No node that keeps its key gives up a prefix. */
  ghost predicate NoneGivesUp(local: string, records: seq<Member>, cache: map<string, Entry>) {
    forall n, ip :: Readdressed(local, records, cache, n) && ip in EntryIps(cache[n]) ==>
      ip in MemberIps(Deciding(local, records, n).value)
  }

  /** Where no key or prefix is shared between nodes, the routes stay exact if and only if no node that keeps
      its key gives up a prefix. */
  lemma AttributedRoutesIff(o: Owners, k: Kernel, local: string, records: seq<Member>, cache: map<string, Entry>,
                            observed: map<string, string>)
    requires RoutesAgree(k, cache) && Attributed(o, local, records, cache)
    ensures var p := PlanOf(local, records, cache, observed);
            RoutesAgree(PerformedAll(k, p.actions), p.next) <==> NoneGivesUp(local, records, cache)
  {
    var p := PlanOf(local, records, cache, observed);
    RoutesAgreeIff(k, local, records, cache, observed);
    forall ip | HoldsPrefix(p.next, ip) && Dropped(local, records, cache, ip)
      ensures ClaimedLast(local, records, cache, ip)
    {
      OwnDropIsReclaimed(o, local, records, cache, observed, ip);
    }
    NoneGivesUpIff(o, local, records, cache, observed);
  }

  lemma NoneGivesUpIff(o: Owners, local: string, records: seq<Member>, cache: map<string, Entry>,
                       observed: map<string, string>)
    requires Attributed(o, local, records, cache)
    ensures var next := PlanOf(local, records, cache, observed).next;
            NoneGivesUp(local, records, cache) <==>
            forall ip :: GivenUp(local, records, cache, ip) ==>
              HoldsPrefix(next, ip) || Dropped(local, records, cache, ip)
  {
    var next := PlanOf(local, records, cache, observed).next;
    if forall ip :: GivenUp(local, records, cache, ip) ==> HoldsPrefix(next, ip) || Dropped(local, records, cache, ip) {
      forall n, ip | Readdressed(local, records, cache, n) && ip in EntryIps(cache[n])
        ensures ip in MemberIps(Deciding(local, records, n).value)
      {
        GivenUpIsOwn(o, local, records, cache, observed, n, ip);
        assert GivenUp(local, records, cache, ip);
      }
    }
    if NoneGivesUp(local, records, cache) {
      forall ip | GivenUp(local, records, cache, ip) ensures HoldsPrefix(next, ip) {
        var n :| Readdressed(local, records, cache, n) && ip in EntryIps(cache[n]);
        GivenUpIsOwn(o, local, records, cache, observed, n, ip);
      }
    }
  }

  lemma HolderIsOwner(o: Owners, local: string, records: seq<Member>, cache: map<string, Entry>,
                      observed: map<string, string>, n: string, ip: string)
    requires Attributed(o, local, records, cache)
    requires n in PlanOf(local, records, cache, observed).next &&
               ip in EntryIps(PlanOf(local, records, cache, observed).next[n])
    ensures o.ip(ip) == n
  {
    PlanByNode(local, records, cache, observed, n);
    DecidingIsListed(local, records, n);
    DecidingAt(local, records, n);
  }

  lemma OwnDropIsReclaimed(o: Owners, local: string, records: seq<Member>, cache: map<string, Entry>,
                           observed: map<string, string>, ip: string)
    requires Attributed(o, local, records, cache)
    requires HoldsPrefix(PlanOf(local, records, cache, observed).next, ip) && Dropped(local, records, cache, ip)
    ensures ClaimedLast(local, records, cache, ip)
  {
    var next := PlanOf(local, records, cache, observed).next;
    var n :| n in next && ip in EntryIps(next[n]);
    HolderIsOwner(o, local, records, cache, observed, n, ip);
    NextIsShaped(local, records, cache, observed, n);
    var j: nat :| DropsAt(local, records, cache, ip, j);
    assert records[j].nodeId == n && RemovedAt(local, records, cache, j);
    var i: nat :| SetAt(local, records, cache, i) && records[i].nodeId == n;
    assert Claimers(local, records, cache, ip)(i);
    forall l: nat | i < l < |records| ensures !Droppers(local, records, cache, ip)(l) {
      if DropsAt(local, records, cache, ip, l) { DecidesOnce(local, records, i, l); }
    }
  }

  lemma GivenUpIsOwn(o: Owners, local: string, records: seq<Member>, cache: map<string, Entry>,
                     observed: map<string, string>, n: string, ip: string)
    requires Attributed(o, local, records, cache) && Readdressed(local, records, cache, n) && ip in EntryIps(cache[n])
    ensures !Dropped(local, records, cache, ip)
    ensures HoldsPrefix(PlanOf(local, records, cache, observed).next, ip) <==>
              ip in MemberIps(Deciding(local, records, n).value)
  {
    var next := PlanOf(local, records, cache, observed).next;
    DecidingAt(local, records, n);
    PlanByNode(local, records, cache, observed, n);
    forall j: nat | DropsAt(local, records, cache, ip, j) ensures Deciding(local, records, n) == Some(records[j]) {
    }
    if HoldsPrefix(next, ip) {
      var m :| m in next && ip in EntryIps(next[m]);
      HolderIsOwner(o, local, records, cache, observed, m, ip);
    }
  }

  // ----- records that change between attempts -----

  /** An action stopped after its `wg` command, before its routes. */
  ghost function Commanded(k: Kernel, a: Action): Kernel {
    match a
    case Set(_, key, endpoint, ips) => WgSet(k, key, endpoint, IpSet(ips))
    case UpdateEndpoint(_, key, endpoint) => WgEndpoint(k, key, endpoint)
    case Remove(_, key, _) => WgRemove(k, key)
  }

  /** The failing family: an attempt stops after the command of an action that removes a cached peer or takes a
      prefix from it, and the records go back to what is cached for the node. The next plan leaves the peer alone,
      so it ends without its prefix although every command succeeds, and planning again asks for nothing. */
  lemma RevertedRecordIsNotRepaired(k: Kernel, local: string, earlier: seq<Member>, later: seq<Member>,
                                    cache: map<string, Entry>, observed: map<string, string>,
                                    now: map<string, string>, n: string, a: Action, ip: string)
    requires Unset(local, later, cache, n) && ip in EntryIps(cache[n])
    requires a in PlanOf(local, earlier, cache, observed).actions && a.nodeId == n
    requires a.Remove? || (a.Set? && a.key == cache[n].key && ip !in a.allowedIps)
    requires Distinct(PlanOf(local, later, cache, now).next)
    ensures var p := PlanOf(local, later, cache, now);
            && !AllCarried(PerformedAll(Commanded(k, a), p.actions), p.next)
            && PlanOf(local, later, p.next, now).actions == []
  {
    PlanByNode(local, earlier, cache, observed, n);
    DecidingIsListed(local, earlier, n);
    assert a.key == cache[n].key;
    assert !Allows(Commanded(k, a), cache[n].key, ip);
    CarriesByPrefix(Commanded(k, a), cache[n]);
    TakeoverIff(Commanded(k, a), local, later, cache, now);
    ReplanIsEmpty(local, later, cache, now);
  }
}
