/** Incremental WireGuard reconciliation: the plan computed from membership against the peer cache,
    and what running it, completely or only in part, does to the kernel's peers and routes. */
module WireGuard {
  import opened Names
  import opened Membership

  datatype Entry = Entry(
    key: string, managementAddress: string, containerSubnet: string, endpoint: string,
    ownerEpoch: nat, revision: nat)

  function AllowedIps(managementAddress: string, containerSubnet: string): seq<string> {
    [managementAddress + "/32", containerSubnet]
  }

  function EntryIps(e: Entry): seq<string> { AllowedIps(e.managementAddress, e.containerSubnet) }

  function MemberIps(r: Member): seq<string> { AllowedIps(r.managementAddress, r.containerSubnet) }

  datatype Action =
    | Set(nodeId: string, key: string, endpoint: string, allowedIps: seq<string>)
    | UpdateEndpoint(nodeId: string, key: string, endpoint: string)
    | Remove(nodeId: string, key: string, allowedIps: seq<string>)

  // ----- the plan -----

  function Lookup<V>(m: map<string, V>, k: string): Option<V> {
    if k in m then Some(m[k]) else None
  }

  /** An observed endpoint wins over the cached one of the same key, which wins over configuration. The
      planner stops at an active record for which there is none. */
  function Endpoint(r: Member, previous: Option<Entry>, observed: map<string, string>): Option<string> {
    if r.wireguardKey in observed then Some(observed[r.wireguardKey])
    else if previous.Some? && previous.value.key == r.wireguardKey then Some(previous.value.endpoint)
    else if r.endpoints != [] then Some(r.endpoints[0])
    else None
  }

  function EntryFor(r: Member, previous: Option<Entry>, observed: map<string, string>): Entry {
    var endpoint := Endpoint(r, previous, observed);
    Entry(r.wireguardKey, r.managementAddress, r.containerSubnet,
          if endpoint.Some? then endpoint.value else "", r.ownerEpoch, r.revision)
  }

  /** Neither the key nor the allowed addresses of the peer change. */
  predicate SamePeer(e: Entry, r: Member) {
    e.key == r.wireguardKey && e.managementAddress == r.managementAddress && e.containerSubnet == r.containerSubnet
  }

  function ActionsFor(r: Member, previous: Option<Entry>, observed: map<string, string>): seq<Action> {
    if r.state.Tombstoned? then
      if previous.Some? then [Remove(r.nodeId, previous.value.key, EntryIps(previous.value))] else []
    else
      var next := EntryFor(r, previous, observed);
      (if previous.Some? && previous.value.key != r.wireguardKey
       then [Remove(r.nodeId, previous.value.key, EntryIps(previous.value))] else [])
      + (if previous == Some(next) then []
         else if previous.Some? && SamePeer(previous.value, r)
         then [UpdateEndpoint(r.nodeId, r.wireguardKey, next.endpoint)]
         else [Set(r.nodeId, r.wireguardKey, next.endpoint, EntryIps(next))])
  }

  function NextFor(r: Member, previous: Option<Entry>, observed: map<string, string>): Option<Entry> {
    if r.state.Tombstoned? then None else Some(EntryFor(r, previous, observed))
  }

  function Update(cache: map<string, Entry>, n: string, e: Option<Entry>): map<string, Entry> {
    if e.Some? then cache[n := e.value] else cache - {n}
  }

  datatype Plan = Plan(actions: seq<Action>, next: map<string, Entry>, handled: set<string>)

  ghost function PlanOf(local: string, records: seq<Member>, cache: map<string, Entry>,
                        observed: map<string, string>): Plan {
    if records == [] then Plan([], cache, {})
    else
      var p := PlanOf(local, records[..|records|-1], cache, observed);
      var r := records[|records|-1];
      if r.nodeId == local || r.nodeId in p.handled then p
      else
        var previous := Lookup(p.next, r.nodeId);
        Plan(p.actions + ActionsFor(r, previous, observed),
             Update(p.next, r.nodeId, NextFor(r, previous, observed)),
             p.handled + {r.nodeId})
  }

  // ----- what the plan says about one node -----

  /** The record that decides about a node: its first one, the local node being left alone. */
  ghost function Deciding(local: string, records: seq<Member>, n: string): Option<Member> {
    if records == [] || n == local then None
    else
      var before := Deciding(local, records[..|records|-1], n);
      if before.Some? then before
      else if records[|records|-1].nodeId == n then Some(records[|records|-1])
      else None
  }

  lemma {:induction false} DecidingIsListed(local: string, records: seq<Member>, n: string)
    ensures Deciding(local, records, n).Some? ==>
              Deciding(local, records, n).value in records && Deciding(local, records, n).value.nodeId == n
  {
    if records != [] && n != local {
      DecidingIsListed(local, records[..|records|-1], n);
    }
  }

  ghost function NodeActions(local: string, records: seq<Member>, cache: map<string, Entry>,
                             observed: map<string, string>, n: string): seq<Action> {
    DecidingIsListed(local, records, n);
    var r := Deciding(local, records, n);
    if r.None? then [] else ActionsFor(r.value, Lookup(cache, n), observed)
  }

  /** Per node: it is handled when some record decides it, its next cache entry depends on that record
      alone, and the actions naming it are exactly the ones that record calls for. */
  ghost predicate DecidedByNode(local: string, records: seq<Member>, cache: map<string, Entry>,
                                observed: map<string, string>, n: string)
  {
    var p := PlanOf(local, records, cache, observed);
    var r := Deciding(local, records, n);
    && (n in p.handled <==> r.Some?)
    && Lookup(p.next, n) == (if r.Some? then NextFor(r.value, Lookup(cache, n), observed) else Lookup(cache, n))
    && (forall a :: a in p.actions && a.nodeId == n <==> a in NodeActions(local, records, cache, observed, n))
  }

  lemma ActionsNameTheirNode(r: Member, previous: Option<Entry>, observed: map<string, string>)
    ensures forall a :: a in ActionsFor(r, previous, observed) ==> a.nodeId == r.nodeId
  {
  }

  lemma PlanOneMore(local: string, records: seq<Member>, cache: map<string, Entry>, observed: map<string, string>,
                    n: string)
    requires records != []
    requires DecidedByNode(local, records[..|records|-1], cache, observed, n)
    ensures DecidedByNode(local, records, cache, observed, n)
  {
    var init, r := records[..|records|-1], records[|records|-1];
    var p := PlanOf(local, init, cache, observed);
    DecidingIsListed(local, records, n);
    if r.nodeId != local && r.nodeId !in p.handled {
      ActionsNameTheirNode(r, Lookup(p.next, r.nodeId), observed);
      if r.nodeId == n {
        assert Deciding(local, records, n) == Some(r);
        assert forall a :: a in p.actions ==> a.nodeId != n;
      }
    }
  }

  lemma {:induction false} PlanByNode(local: string, records: seq<Member>, cache: map<string, Entry>,
                                      observed: map<string, string>, n: string)
    ensures DecidedByNode(local, records, cache, observed, n)
  {
    if records != [] {
      PlanByNode(local, records[..|records|-1], cache, observed, n);
      PlanOneMore(local, records, cache, observed, n);
    }
  }

  /** The record at this place decides about its node: it is the node's first, and the local node is
      left alone. */
  ghost predicate Decides(local: string, records: seq<Member>, i: nat) {
    i < |records| && records[i].nodeId != local && forall j :: 0 <= j < i ==> records[j].nodeId != records[i].nodeId
  }

  lemma {:induction false} DecidingAt(local: string, records: seq<Member>, n: string)
    ensures forall i: nat :: Decides(local, records, i) && records[i].nodeId == n ==>
              Deciding(local, records, n) == Some(records[i])
    ensures Deciding(local, records, n).Some? ==>
              exists i: nat :: Decides(local, records, i) && records[i].nodeId == n
  {
    if records != [] && n != local {
      var init, last: nat := records[..|records|-1], |records| - 1;
      DecidingAt(local, init, n);
      if Deciding(local, init, n).Some? {
        var i: nat :| Decides(local, init, i) && init[i].nodeId == n;
        assert Decides(local, records, i);
      } else {
        forall i: nat | i < last ensures records[i].nodeId != n {
          if records[i].nodeId == n { FirstDecides(local, init, i); }
        }
        if records[last].nodeId == n { assert Decides(local, records, last); }
      }
    }
  }

  /** A node that is listed has a first record. */
  lemma {:induction false} FirstDecides(local: string, records: seq<Member>, i: nat)
    requires i < |records| && records[i].nodeId != local
    ensures exists j: nat :: Decides(local, records, j) && records[j].nodeId == records[i].nodeId
  {
    if j: nat :| j < i && records[j].nodeId == records[i].nodeId {
      FirstDecides(local, records, j);
    } else {
      assert Decides(local, records, i);
    }
  }

  /** Every active record that decides about a node yields an endpoint. */
  ghost predicate Answerable(local: string, records: seq<Member>, cache: map<string, Entry>,
                             observed: map<string, string>) {
    forall i: nat :: Decides(local, records, i) && records[i].state.Active? ==>
      Endpoint(records[i], Lookup(cache, records[i].nodeId), observed).Some?
  }

  lemma PlanStep(local: string, records: seq<Member>, cache: map<string, Entry>, observed: map<string, string>, i: nat)
    requires i < |records|
    ensures var p := PlanOf(local, records[..i], cache, observed);
            var q := PlanOf(local, records[..i+1], cache, observed);
            var n := records[i].nodeId;
            && (Decides(local, records, i) <==> n != local && n !in p.handled)
            && (Decides(local, records, i) ==>
                  && Lookup(p.next, n) == Lookup(cache, n)
                  && q.actions == p.actions + ActionsFor(records[i], Lookup(cache, n), observed))
            && (!Decides(local, records, i) ==> q == p)
  {
    var n := records[i].nodeId;
    assert records[..i+1][..i] == records[..i];
    PlanByNode(local, records[..i], cache, observed, n);
    DecidingAt(local, records[..i], n);
    if n != local && !Decides(local, records, i) {
      var j: nat :| j < i && records[j].nodeId == n;
      FirstDecides(local, records[..i], j);
    }
  }

  method PlanReconciliation(local: string, records: seq<Member>, cache: map<string, Entry>,
                            observed: map<string, string>)
      returns (actions: seq<Action>, next: map<string, Entry>)
    requires Answerable(local, records, cache, observed)
    ensures var p := PlanOf(local, records, cache, observed); actions == p.actions && next == p.next
  {
    actions, next := [], cache;
    var handled: set<string> := {};
    for i := 0 to |records|
      invariant PlanOf(local, records[..i], cache, observed) == Plan(actions, next, handled)
    {
      var r := records[i];
      assert records[..i+1][..i] == records[..i];
      PlanStep(local, records, cache, observed, i);
      if r.nodeId != local && r.nodeId !in handled {
        handled := handled + {r.nodeId};
        var previous := Lookup(next, r.nodeId);
        assert r.state.Active? ==> Endpoint(r, previous, observed).Some?;
        actions := actions + ActionsFor(r, previous, observed);
        next := Update(next, r.nodeId, NextFor(r, previous, observed));
      }
    }
    assert records[..|records|] == records;
  }

  /** Two actions of one plan: of one node they are the removal of its old key and then the setting of
      its new one. */
  ghost predicate Ordered(a: Action, b: Action) {
    a.nodeId == b.nodeId ==> a.Remove? && b.Set? && a.key != b.key
  }

  ghost predicate AllOrdered(actions: seq<Action>) {
    forall i, j :: 0 <= i < j < |actions| ==> Ordered(actions[i], actions[j])
  }

  lemma AppendOrdered(done: seq<Action>, more: seq<Action>, n: string)
    requires AllOrdered(done) && AllOrdered(more)
    requires (forall a :: a in done ==> a.nodeId != n) && (forall a :: a in more ==> a.nodeId == n)
    ensures AllOrdered(done + more)
  {
    var all := done + more;
    forall i, j | 0 <= i < j < |all| ensures Ordered(all[i], all[j]) {
      if i < |done| <= j {
        assert all[i] in done && all[j] in more;
      } else if |done| <= i {
        assert all[i] == more[i-|done|] && all[j] == more[j-|done|];
      }
    }
  }

  lemma {:induction false} PlanIsOrdered(local: string, records: seq<Member>, cache: map<string, Entry>,
                                         observed: map<string, string>)
    ensures AllOrdered(PlanOf(local, records, cache, observed).actions)
  {
    if records != [] {
      var init, r := records[..|records|-1], records[|records|-1];
      PlanIsOrdered(local, init, cache, observed);
      var p := PlanOf(local, init, cache, observed);
      if r.nodeId != local && r.nodeId !in p.handled {
        PlanByNode(local, init, cache, observed, r.nodeId);
        ActionsNameTheirNode(r, Lookup(p.next, r.nodeId), observed);
        AppendOrdered(p.actions, ActionsFor(r, Lookup(p.next, r.nodeId), observed), r.nodeId);
      }
    }
  }

  // ----- replanning -----

  /** A record asks for nothing against the entry it itself produced. */
  lemma SettledAfterOnce(r: Member, previous: Option<Entry>, observed: map<string, string>)
    ensures ActionsFor(r, NextFor(r, previous, observed), observed) == []
  {
  }

  /** Replanning from the resulting cache with the same records and observations asks for nothing. */
  lemma ReplanIsEmpty(local: string, records: seq<Member>, cache: map<string, Entry>, observed: map<string, string>)
    ensures PlanOf(local, records, PlanOf(local, records, cache, observed).next, observed).actions == []
  {
    var next := PlanOf(local, records, cache, observed).next;
    var again := PlanOf(local, records, next, observed).actions;
    assert |again| == 0 || again[0] in again;
    forall a | a in again ensures false {
      PlanByNode(local, records, cache, observed, a.nodeId);
      PlanByNode(local, records, next, observed, a.nodeId);
      DecidingIsListed(local, records, a.nodeId);
      var r := Deciding(local, records, a.nodeId);
      if r.Some? { SettledAfterOnce(r.value, Lookup(cache, a.nodeId), observed); }
    }
  }

  /** A node without a record in the view keeps its cache entry and is never acted on; a node is
      removed only on a tombstone or a key change; its allowed addresses are reset exactly when it is
      new or its key, address or subnet changed. */
  lemma ActionsAreJustified(local: string, records: seq<Member>, cache: map<string, Entry>,
                            observed: map<string, string>, n: string)
    ensures var p := PlanOf(local, records, cache, observed);
            var r := Deciding(local, records, n);
            && (r.None? ==> Lookup(p.next, n) == Lookup(cache, n) && forall a :: a in p.actions ==> a.nodeId != n)
            && ((exists a :: a in p.actions && a.nodeId == n && a.Remove?) <==>
                  r.Some? && n in cache && (r.value.state.Tombstoned? || cache[n].key != r.value.wireguardKey))
            && ((exists a :: a in p.actions && a.nodeId == n && a.Set?) <==>
                  r.Some? && r.value.state.Active? && (n in cache ==> !SamePeer(cache[n], r.value)))
  {
    PlanByNode(local, records, cache, observed, n);
    var actions := NodeActions(local, records, cache, observed, n);
    var r := Deciding(local, records, n);
    DecidingIsListed(local, records, n);
    if r.Some? {
      assert forall i :: 0 <= i < |actions| ==> actions[i] in actions;
      if n in cache && (r.value.state.Tombstoned? || cache[n].key != r.value.wireguardKey) {
        assert actions[0].Remove? && actions[0] in actions;
      }
      if r.value.state.Active? && (n in cache ==> !SamePeer(cache[n], r.value)) {
        assert actions[|actions|-1].Set? && actions[|actions|-1] in actions;
      }
    }
  }

  // ----- the plan in terms of records and cache entries -----

  /** The entry a record leaves for its node: what it says, and the endpoint observed for its key, otherwise the one
      cached for its key, otherwise its first one. */
  ghost predicate Describes(r: Member, cache: map<string, Entry>, observed: map<string, string>, e: Entry) {
    && e.key == r.wireguardKey && e.managementAddress == r.managementAddress
    && e.containerSubnet == r.containerSubnet && e.ownerEpoch == r.ownerEpoch && e.revision == r.revision
    && if e.key in observed then e.endpoint == observed[e.key]
       else if r.nodeId in cache && cache[r.nodeId].key == e.key then e.endpoint == cache[r.nodeId].endpoint
       else r.endpoints != [] ==> e.endpoint == r.endpoints[0]
  }

  /** What a record calls for, with the endpoint of the entry it leaves. */
  ghost predicate CallsFor(r: Member, cache: map<string, Entry>, e: Option<Entry>, a: Action) {
    var n := r.nodeId;
    && a.nodeId == n
    && match a
       case Remove(_, key, ips) =>
         && n in cache && key == cache[n].key && (r.state.Tombstoned? || key != r.wireguardKey)
         && ips == [cache[n].managementAddress + "/32", cache[n].containerSubnet]
       case Set(_, key, endpoint, ips) =>
         && r.state.Active? && key == r.wireguardKey && e.Some? && endpoint == e.value.endpoint
         && ips == [r.managementAddress + "/32", r.containerSubnet]
         && (n in cache ==> cache[n].key != key || cache[n].managementAddress != r.managementAddress
                            || cache[n].containerSubnet != r.containerSubnet)
       case UpdateEndpoint(_, key, endpoint) =>
         && r.state.Active? && key == r.wireguardKey && e.Some? && endpoint == e.value.endpoint
         && n in cache && cache[n] != e.value
         && cache[n].key == key && cache[n].managementAddress == r.managementAddress
         && cache[n].containerSubnet == r.containerSubnet
  }

  lemma CalledFor(r: Member, cache: map<string, Entry>, observed: map<string, string>, a: Action)
    ensures var previous := Lookup(cache, r.nodeId);
            && (r.state.Active? ==>
                  NextFor(r, previous, observed).Some? &&
                  Describes(r, cache, observed, NextFor(r, previous, observed).value))
            && (a in ActionsFor(r, previous, observed) <==> CallsFor(r, cache, NextFor(r, previous, observed), a))
  {
  }

  /** For every records, cache and observations: an action is planned if and only if the first record of some node
      calls for it, and the next cache has what that record describes, nothing for a tombstone, and what was cached
      for a node without a record. */
  lemma PlanByRecords(local: string, records: seq<Member>, cache: map<string, Entry>, observed: map<string, string>,
                      n: string, a: Action)
    ensures var p := PlanOf(local, records, cache, observed);
            && (forall i: nat :: Decides(local, records, i) && records[i].nodeId == n ==>
                  if records[i].state.Active? then n in p.next && Describes(records[i], cache, observed, p.next[n])
                  else n !in p.next)
            && ((n == local || forall r :: r in records ==> r.nodeId != n) ==> Lookup(p.next, n) == Lookup(cache, n))
            && (a in p.actions <==>
                  exists i: nat :: Decides(local, records, i) &&
                    CallsFor(records[i], cache, Lookup(p.next, records[i].nodeId), a))
  {
    var p := PlanOf(local, records, cache, observed);
    PlanByNode(local, records, cache, observed, n);
    DecidingAt(local, records, n);
    DecidingIsListed(local, records, n);
    PlanByNode(local, records, cache, observed, a.nodeId);
    DecidingAt(local, records, a.nodeId);
    forall i: nat | Decides(local, records, i)
      ensures var previous := Lookup(cache, records[i].nodeId);
              && (records[i].state.Active? ==>
                    NextFor(records[i], previous, observed).Some? &&
                    Describes(records[i], cache, observed, NextFor(records[i], previous, observed).value))
              && (a in ActionsFor(records[i], previous, observed) <==>
                    CallsFor(records[i], cache, NextFor(records[i], previous, observed), a))
    {
      CalledFor(records[i], cache, observed, a);
    }
  }

  // ----- the kernel -----

  datatype PeerState = PeerState(endpoint: Option<string>, allowed: set<string>)

  /** The interface's peers by key, and the prefixes routed to it. */
  datatype Kernel = Kernel(peers: map<string, PeerState>, routes: set<string>)

  function IpSet(ips: seq<string>): set<string> { set ip | ip in ips }

  /** Setting allowed addresses takes them away from every other peer. */
  function WgSet(k: Kernel, key: string, endpoint: string, ips: set<string>): Kernel {
    k.(peers := (map q | q in k.peers :: k.peers[q].(allowed := k.peers[q].allowed - ips))
                [key := PeerState(Some(endpoint), ips)])
  }

  /** Setting only an endpoint creates a peer that is not there, without allowed addresses. */
  function WgEndpoint(k: Kernel, key: string, endpoint: string): Kernel {
    k.(peers := k.peers[key := PeerState(Some(endpoint), if key in k.peers then k.peers[key].allowed else {})])
  }

  function WgRemove(k: Kernel, key: string): Kernel {
    k.(peers := k.peers - {key})
  }

  function ObservedEndpoints(k: Kernel): map<string, string> {
    map q | q in k.peers && k.peers[q].endpoint.Some? :: k.peers[q].endpoint.value
  }

  /** What became of one command: whether it took effect, and whether it reported success. */
  datatype Outcome = Outcome(effect: bool, ok: bool)

  ghost predicate Flawless(env: nat -> Outcome) { forall i :: env(i).effect && env(i).ok }

  ghost predicate Truthful(env: nat -> Outcome) { forall i :: env(i).ok ==> env(i).effect }

  /** The complete effect of an action whose commands all succeed. */
  ghost function Performed(k: Kernel, a: Action): Kernel {
    match a
    case Set(_, key, endpoint, ips) =>
      var set' := WgSet(k, key, endpoint, IpSet(ips)); set'.(routes := set'.routes + IpSet(ips))
    case UpdateEndpoint(_, key, endpoint) => WgEndpoint(k, key, endpoint)
    case Remove(_, key, ips) =>
      var removed := WgRemove(k, key); removed.(routes := removed.routes - IpSet(ips))
  }

  ghost function PerformedAll(k: Kernel, actions: seq<Action>): Kernel {
    if actions == [] then k else Performed(PerformedAll(k, actions[..|actions|-1]), actions[|actions|-1])
  }

  /** The kernel carries the entry's peer, all its allowed addresses and their routes. */
  predicate Carries(k: Kernel, e: Entry) {
    && e.key in k.peers
    && IpSet(EntryIps(e)) <= k.peers[e.key].allowed
    && IpSet(EntryIps(e)) <= k.routes
  }

  /** It carries the entry, and the peer has no other allowed addresses. */
  predicate CarriesExactly(k: Kernel, e: Entry) {
    Carries(k, e) && k.peers[e.key].allowed == IpSet(EntryIps(e))
  }

  /** The entry's peer may use exactly its management address and its container subnet, and both are routed. */
  ghost predicate Serves(k: Kernel, e: Entry) {
    && e.key in k.peers && k.peers[e.key].allowed == {e.managementAddress + "/32", e.containerSubnet}
    && e.managementAddress + "/32" in k.routes && e.containerSubnet in k.routes
  }

  lemma ServesIff(k: Kernel, e: Entry)
    ensures Serves(k, e) <==> CarriesExactly(k, e)
  {
    assert forall ip :: ip in IpSet(EntryIps(e)) <==> ip == e.managementAddress + "/32" || ip == e.containerSubnet;
    assert IpSet(EntryIps(e)) == {e.managementAddress + "/32", e.containerSubnet};
  }

  /** Which node a key and a prefix belong to, neither ever being shared between nodes. */
  datatype Owners = Owners(key: string -> string, ip: string -> string)

  ghost predicate OwnsEntry(o: Owners, n: string, e: Entry) {
    o.key(e.key) == n && forall ip :: ip in EntryIps(e) ==> o.ip(ip) == n
  }

  ghost predicate OwnsAction(o: Owners, a: Action) {
    && o.key(a.key) == a.nodeId
    && (!a.UpdateEndpoint? ==> forall ip :: ip in a.allowedIps ==> o.ip(ip) == a.nodeId)
  }

  ghost predicate Attributed(o: Owners, local: string, records: seq<Member>, cache: map<string, Entry>) {
    && (forall n :: n in cache ==> OwnsEntry(o, n, cache[n]))
    && (forall r :: r in records && r.nodeId != local ==>
          o.key(r.wireguardKey) == r.nodeId
          && forall ip :: ip in MemberIps(r) ==> o.ip(ip) == r.nodeId)
  }

  class Agent {
    var kernel: Kernel
    var cache: map<string, Entry>

    constructor (kernel: Kernel, cache: map<string, Entry>)
      ensures this.kernel == kernel && this.cache == cache
    {
      this.kernel, this.cache := kernel, cache;
    }

    /** `ip route replace` for each address; the first failure stops it. */
    method ReplaceRoutes(ips: seq<string>, env: nat -> Outcome) returns (ok: bool)
      modifies this`kernel
      ensures kernel.peers == old(kernel.peers)
      ensures old(kernel.routes) <= kernel.routes <= old(kernel.routes) + IpSet(ips)
      ensures ok && Truthful(env) ==> IpSet(ips) <= kernel.routes
      ensures Flawless(env) ==> ok
    {
      for i := 0 to |ips|
        invariant kernel.peers == old(kernel.peers)
        invariant old(kernel.routes) <= kernel.routes <= old(kernel.routes) + IpSet(ips)
        invariant Truthful(env) ==> forall ip :: ip in ips[..i] ==> ip in kernel.routes
      {
        if env(i).effect { kernel := kernel.(routes := kernel.routes + {ips[i]}); }
        if !env(i).ok { return false; }
        assert ips[..i+1] == ips[..i] + [ips[i]];
      }
      assert ips[..|ips|] == ips;
      return true;
    }

    /** `ip route del` for each address, failures being ignored. */
    method DeleteRoutes(ips: seq<string>, env: nat -> Outcome)
      modifies this`kernel
      ensures kernel.peers == old(kernel.peers)
      ensures old(kernel.routes) - IpSet(ips) <= kernel.routes <= old(kernel.routes)
      ensures Flawless(env) ==> kernel.routes == old(kernel.routes) - IpSet(ips)
    {
      for i := 0 to |ips|
        invariant kernel.peers == old(kernel.peers)
        invariant old(kernel.routes) - IpSet(ips) <= kernel.routes <= old(kernel.routes)
        invariant Flawless(env) ==> forall ip :: ip in ips[..i] ==> ip !in kernel.routes
      {
        if env(i).effect { kernel := kernel.(routes := kernel.routes - {ips[i]}); }
        assert ips[..i+1] == ips[..i] + [ips[i]];
      }
      assert ips[..|ips|] == ips;
    }

    /** One action: the `wg set` command, then its routes. Whatever fails, only the action's own node
        is touched; on success the action is in force. */
    method ApplyAction(a: Action, env: nat -> Outcome) returns (ok: bool)
      modifies this`kernel
      ensures Touches(old(kernel), kernel, a)
      ensures ok && Truthful(env) ==> InForce(kernel, a)
      ensures Flawless(env) ==> ok && kernel == Performed(old(kernel), a)
    {
      var rest := (i: nat) => env(i + 1);
      match a
      case Set(_, key, endpoint, ips) =>
        if env(0).effect { kernel := WgSet(kernel, key, endpoint, IpSet(ips)); }
        if !env(0).ok { return false; }
        ok := ReplaceRoutes(ips, rest);
      case UpdateEndpoint(_, key, endpoint) =>
        if env(0).effect { kernel := WgEndpoint(kernel, key, endpoint); }
        ok := env(0).ok;
      case Remove(_, key, ips) =>
        if env(0).effect { kernel := WgRemove(kernel, key); }
        if !env(0).ok { return false; }
        DeleteRoutes(ips, rest);
        ok := true;
    }

    /** One reconciliation attempt: observe, plan, run the actions in order and, only if none failed,
        advance the cache. `owners` may be evidence that keys and prefixes are never shared; what is said
        under `Attributed` needs it. */
    method ReconcileOnce(local: string, records: seq<Member>, env: nat -> (nat -> Outcome), ghost owners: Owners)
        returns (ok: bool)
      requires Answerable(local, records, cache, ObservedEndpoints(kernel))
      requires forall i :: Truthful(env(i))
      modifies this
      ensures !ok ==> cache == old(cache)
      ensures ok ==> cache == PlanOf(local, records, old(cache), ObservedEndpoints(old(kernel))).next
      ensures (forall i :: Flawless(env(i))) ==>
                ok && kernel == PerformedAll(old(kernel),
                  PlanOf(local, records, old(cache), ObservedEndpoints(old(kernel))).actions)
      ensures Attributed(owners, local, records, old(cache)) ==>
                Attempted(old(kernel), kernel, local, records, old(cache))
      ensures Attributed(owners, local, records, old(cache)) && ok ==>
                Agrees(old(kernel), kernel, local, records, old(cache), cache)
      ensures && Attributed(owners, local, records, old(cache)) && ok
              && (forall n :: n in old(cache) && !Reset(local, records, old(cache), n) ==>
                    Serves(old(kernel), old(cache)[n])) ==>
                forall n :: n in cache ==> Serves(kernel, cache[n])
    {
      var observed := ObservedEndpoints(kernel);
      var actions, next := PlanReconciliation(local, records, cache, observed);
      PlanIsOrdered(local, records, cache, observed);
      TrackedAtStart(owners, kernel, local, records, cache, observed, actions);
      for i := 0 to |actions|
        invariant cache == old(cache)
        invariant Tracked(owners, old(kernel), kernel, local, records, cache, observed, actions, i)
        invariant (forall i :: Flawless(env(i))) ==> kernel == PerformedAll(old(kernel), actions[..i])
      {
        ghost var before := kernel;
        var done := ApplyAction(actions[i], env(i));
        assert actions[..i+1][..i] == actions[..i];
        TrackedOneMore(owners, old(kernel), before, kernel, local, records, cache, observed, actions, i);
        if !done { return false; }
      }
      assert actions[..|actions|] == actions;
      TrackedToEnd(owners, old(kernel), kernel, local, records, cache);
      cache := next;
      ok := true;
      forall e: Entry, k: Kernel ensures Serves(k, e) <==> CarriesExactly(k, e) { ServesIff(k, e); }
    }
  }

  /** The effect an action can have, complete or not: only its own key's peer changes, except that
      addresses it sets leave other peers, and only its own addresses' routes change. */
  ghost predicate Touches(k: Kernel, k': Kernel, a: Action) {
    var ips := if a.UpdateEndpoint? then {} else IpSet(a.allowedIps);
    && (forall q :: q != a.key ==> (q in k'.peers <==> q in k.peers))
    && (forall q :: q != a.key && q in k.peers ==>
          && k'.peers[q].endpoint == k.peers[q].endpoint
          && k.peers[q].allowed - ips <= k'.peers[q].allowed <= k.peers[q].allowed)
    && (a.Remove? && a.key in k'.peers ==> a.key in k.peers)
    && (a.UpdateEndpoint? && a.key in k.peers ==>
          a.key in k'.peers && k'.peers[a.key].allowed == k.peers[a.key].allowed)
    && (a.UpdateEndpoint? && a.key !in k.peers && a.key in k'.peers ==> k'.peers[a.key].allowed == {})
    && k.routes - ips <= k'.routes <= k.routes + ips
  }

  ghost predicate InForce(k: Kernel, a: Action) {
    match a
    case Set(_, key, endpoint, ips) =>
      key in k.peers && k.peers[key] == PeerState(Some(endpoint), IpSet(ips)) && IpSet(ips) <= k.routes
    case UpdateEndpoint(_, key, endpoint) => key in k.peers && k.peers[key].endpoint == Some(endpoint)
    case Remove(_, key, _) => key !in k.peers
  }

  // ----- agreement -----

  /** The cached peer is to be removed or set afresh by the plan. */
  ghost predicate Reset(local: string, records: seq<Member>, cache: map<string, Entry>, n: string) {
    var r := Deciding(local, records, n);
    n in cache && r.Some? && (r.value.state.Tombstoned? || !SamePeer(cache[n], r.value))
  }

  /** The kernel carries every cached peer that the plan will not set afresh. Neither this nor the plan's
      effect on peers and routes depends on observed endpoints. */
  ghost predicate Repairable(k: Kernel, local: string, records: seq<Member>, cache: map<string, Entry>) {
    forall n :: n in cache && !Reset(local, records, cache, n) ==> Carries(k, cache[n])
  }

  ghost predicate AllCarried(k: Kernel, cache: map<string, Entry>) {
    forall n :: n in cache ==> Carries(k, cache[n])
  }

  ghost predicate CachedKey(cache: map<string, Entry>, q: string) {
    exists n :: n in cache && cache[n].key == q
  }

  ghost predicate WantedKey(local: string, records: seq<Member>, q: string) {
    exists n :: var r := Deciding(local, records, n); r.Some? && r.value.state.Active? && r.value.wireguardKey == q
  }

  ghost predicate KnownKeys(k: Kernel, local: string, records: seq<Member>, cache: map<string, Entry>) {
    forall q :: q in k.peers ==> CachedKey(cache, q) || WantedKey(local, records, q)
  }

  ghost predicate NoStrayPeers(k: Kernel, cache: map<string, Entry>) {
    forall q :: q in k.peers ==> CachedKey(cache, q)
  }

  /** Where a record decided the peer, an endpoint the kernel knows is the one cached. */
  ghost predicate EndpointsAgree(k: Kernel, local: string, records: seq<Member>, cache: map<string, Entry>) {
    forall n :: n in cache && Deciding(local, records, n).Some? && cache[n].key in k.peers ==>
      k.peers[cache[n].key].endpoint in {None, Some(cache[n].endpoint)}
  }

  /** As `Repairable` and `AllCarried`, the peers having no other allowed addresses. */
  ghost predicate RepairableExactly(k: Kernel, local: string, records: seq<Member>, cache: map<string, Entry>) {
    forall n :: n in cache && !Reset(local, records, cache, n) ==> CarriesExactly(k, cache[n])
  }

  ghost predicate AllCarriedExactly(k: Kernel, cache: map<string, Entry>) {
    forall n :: n in cache ==> CarriesExactly(k, cache[n])
  }

  ghost predicate HoldsPrefix(cache: map<string, Entry>, ip: string) {
    exists n :: n in cache && ip in EntryIps(cache[n])
  }

  ghost predicate WantedPrefix(local: string, records: seq<Member>, ip: string) {
    exists n :: var r := Deciding(local, records, n); r.Some? && r.value.state.Active? && ip in MemberIps(r.value)
  }

  ghost predicate KnownRoutes(k: Kernel, local: string, records: seq<Member>, cache: map<string, Entry>) {
    forall ip :: ip in k.routes ==> HoldsPrefix(cache, ip) || WantedPrefix(local, records, ip)
  }

  /** A route that a cached peer had which the plan removed or set afresh. */
  ghost predicate Leftover(local: string, records: seq<Member>, cache: map<string, Entry>, ip: string) {
    exists n :: Reset(local, records, cache, n) && ip in EntryIps(cache[n])
  }

  ghost predicate OnlyLeftovers(k: Kernel, local: string, records: seq<Member>, cache: map<string, Entry>,
                                next: map<string, Entry>) {
    forall ip :: ip in k.routes ==> HoldsPrefix(next, ip) || Leftover(local, records, cache, ip)
  }

  /** The peers the plan does not set afresh are carried as before. */
  ghost predicate KeepsPeers(k: Kernel, k': Kernel, local: string, records: seq<Member>, cache: map<string, Entry>) {
    forall n :: n in cache && !Reset(local, records, cache, n) ==>
      && (Carries(k', cache[n]) <==> Carries(k, cache[n]))
      && (CarriesExactly(k, cache[n]) ==> CarriesExactly(k', cache[n]))
  }

  /** What an attempt keeps, however far it came, so that the next one can start from it. */
  ghost predicate Attempted(k: Kernel, k': Kernel, local: string, records: seq<Member>, cache: map<string, Entry>) {
    && KeepsPeers(k, k', local, records, cache)
    && (Repairable(k', local, records, cache) <==> Repairable(k, local, records, cache))
    && (RepairableExactly(k, local, records, cache) ==> RepairableExactly(k', local, records, cache))
    && (KnownKeys(k, local, records, cache) ==> KnownKeys(k', local, records, cache))
    && (KnownRoutes(k, local, records, cache) ==> KnownRoutes(k', local, records, cache))
  }

  /** The kernel `k'` after a successful attempt from `k` against the new cache. */
  ghost predicate Agrees(k: Kernel, k': Kernel, local: string, records: seq<Member>, cache: map<string, Entry>,
                         next: map<string, Entry>) {
    && (AllCarried(k', next) <==> Repairable(k, local, records, cache))
    && (RepairableExactly(k, local, records, cache) ==> AllCarriedExactly(k', next))
    && (KnownKeys(k, local, records, cache) ==> NoStrayPeers(k', next))
    && (KnownRoutes(k, local, records, cache) ==> OnlyLeftovers(k', local, records, cache, next))
    && EndpointsAgree(k', local, records, next)
  }

  /** Agreement with the cache is repairable under any records. */
  lemma AgreementIsRepairable(k: Kernel, local: string, records: seq<Member>, cache: map<string, Entry>)
    requires AllCarried(k, cache) && NoStrayPeers(k, cache)
    ensures Repairable(k, local, records, cache) && KnownKeys(k, local, records, cache)
    ensures AllCarriedExactly(k, cache) ==> RepairableExactly(k, local, records, cache)
    ensures (forall ip :: ip in k.routes ==> HoldsPrefix(cache, ip)) ==> KnownRoutes(k, local, records, cache)
  {
  }

  /** When the records change before the retry: the kernel an attempt left is repairable under the later records
      if and only if the peers that neither set of records sets afresh were carried, and those that only the
      earlier one did still are. So it is as repairable as before wherever no peer that the earlier records set
      afresh is left alone by the later ones. */
  lemma RetryIff(k: Kernel, k': Kernel, local: string, earlier: seq<Member>, later: seq<Member>,
                 cache: map<string, Entry>)
    requires Attempted(k, k', local, earlier, cache)
    ensures Repairable(k', local, later, cache) <==>
            forall n :: n in cache && !Reset(local, later, cache, n) ==>
              Carries(if Reset(local, earlier, cache, n) then k' else k, cache[n])
    ensures (forall n :: Reset(local, earlier, cache, n) ==> Reset(local, later, cache, n)) ==>
              (Repairable(k', local, later, cache) <==> Repairable(k, local, later, cache))
  {
    assert forall n :: n in cache && !Reset(local, earlier, cache, n) ==>
             (Carries(k', cache[n]) <==> Carries(k, cache[n]));
  }

  lemma TouchKeepsCarries(o: Owners, k: Kernel, k': Kernel, a: Action, n: string, e: Entry)
    requires OwnsEntry(o, n, e) && OwnsAction(o, a) && Touches(k, k', a)
    requires a.nodeId != n || (a.UpdateEndpoint? && a.key == e.key)
    ensures Carries(k', e) <==> Carries(k, e)
    ensures CarriesExactly(k, e) ==> CarriesExactly(k', e)
  {
    assert EntryIps(e)[0] in IpSet(EntryIps(e));
    assert forall ip :: ip in IpSet(EntryIps(e)) ==> o.ip(ip) == n;
    if !a.UpdateEndpoint? {
      assert forall ip :: ip in IpSet(a.allowedIps) ==> o.ip(ip) == a.nodeId;
      assert IpSet(EntryIps(e)) !! IpSet(a.allowedIps);
    }
  }

  /** An action in force stays in force through the later actions of its plan. */
  lemma ActionKeepsInForce(o: Owners, k: Kernel, k': Kernel, a: Action, b: Action)
    requires OwnsAction(o, a) && OwnsAction(o, b) && Ordered(a, b)
    requires InForce(k, a) && Touches(k, k', b)
    ensures InForce(k', a)
  {
    if a.nodeId != b.nodeId {
      assert a.key != b.key;
      if a.Set? && !b.UpdateEndpoint? {
        assert forall ip :: ip in IpSet(a.allowedIps) ==> o.ip(ip) == a.nodeId;
        assert forall ip :: ip in IpSet(b.allowedIps) ==> o.ip(ip) == b.nodeId;
        assert IpSet(a.allowedIps) !! IpSet(b.allowedIps);
      }
    }
  }

  lemma PlanIsOwned(o: Owners, local: string, records: seq<Member>, cache: map<string, Entry>,
                    observed: map<string, string>)
    requires Attributed(o, local, records, cache)
    ensures forall a :: a in PlanOf(local, records, cache, observed).actions ==>
              OwnsAction(o, a) && a in NodeActions(local, records, cache, observed, a.nodeId)
  {
    forall a | a in PlanOf(local, records, cache, observed).actions
      ensures OwnsAction(o, a) && a in NodeActions(local, records, cache, observed, a.nodeId)
    {
      PlanByNode(local, records, cache, observed, a.nodeId);
      DecidingIsListed(local, records, a.nodeId);
    }
  }

  /** What the actions so far have left alone: whether peers that are not reset are carried, and the
      endpoints of peers without any action. */
  ghost predicate Undisturbed(k: Kernel, k': Kernel, local: string, records: seq<Member>, cache: map<string, Entry>,
                              observed: map<string, string>)
  {
    && (forall n :: n in cache && !Reset(local, records, cache, n) ==>
          && (Carries(k', cache[n]) <==> Carries(k, cache[n]))
          && (CarriesExactly(k, cache[n]) ==> CarriesExactly(k', cache[n])))
    && (forall n :: n in cache && NodeActions(local, records, cache, observed, n) == [] ==>
          && (cache[n].key in k'.peers <==> cache[n].key in k.peers)
          && (cache[n].key in k.peers ==> k'.peers[cache[n].key].endpoint == k.peers[cache[n].key].endpoint))
  }

  lemma ActionUndisturbs(o: Owners, local: string, records: seq<Member>, cache: map<string, Entry>,
                         observed: map<string, string>, start: Kernel, k: Kernel, k': Kernel, a: Action)
    requires Attributed(o, local, records, cache)
    requires OwnsAction(o, a) && a in NodeActions(local, records, cache, observed, a.nodeId)
    requires Undisturbed(start, k, local, records, cache, observed) && Touches(k, k', a)
    ensures Undisturbed(start, k', local, records, cache, observed)
  {
    DecidingIsListed(local, records, a.nodeId);
    forall n | n in cache && !Reset(local, records, cache, n)
      ensures Carries(k', cache[n]) <==> Carries(k, cache[n])
      ensures CarriesExactly(k, cache[n]) ==> CarriesExactly(k', cache[n])
    {
      TouchKeepsCarries(o, k, k', a, n, cache[n]);
    }
  }

  /** An action brings in no key and no route but those of its node's record. */
  lemma ActionKeepsKnown(local: string, records: seq<Member>, cache: map<string, Entry>,
                         observed: map<string, string>, k: Kernel, k': Kernel, a: Action)
    requires a in NodeActions(local, records, cache, observed, a.nodeId) && Touches(k, k', a)
    ensures KnownKeys(k, local, records, cache) ==> KnownKeys(k', local, records, cache)
    ensures KnownRoutes(k, local, records, cache) ==> KnownRoutes(k', local, records, cache)
  {
    DecidingIsListed(local, records, a.nodeId);
    if a.Remove? {
      assert forall ip :: ip in a.allowedIps ==> HoldsPrefix(cache, ip);
    } else {
      assert Deciding(local, records, a.nodeId).value.wireguardKey == a.key;
      assert WantedKey(local, records, a.key);
      assert a.Set? ==> forall ip :: ip in a.allowedIps ==> WantedPrefix(local, records, ip);
    }
  }

  /** The state of a plan whose actions so far succeeded. */
  ghost predicate Progressed(start: Kernel, k: Kernel, local: string, records: seq<Member>, cache: map<string, Entry>,
                             observed: map<string, string>, done: seq<Action>)
  {
    && (forall a :: a in done ==> InForce(k, a))
    && Undisturbed(start, k, local, records, cache, observed)
    && (KnownKeys(start, local, records, cache) ==> KnownKeys(k, local, records, cache))
    && (KnownRoutes(start, local, records, cache) ==> KnownRoutes(k, local, records, cache))
  }

  /** Whatever becomes of the next action, the earlier ones stay in force and nothing else is disturbed. */
  lemma ActionProgresses(o: Owners, local: string, records: seq<Member>, cache: map<string, Entry>,
                         observed: map<string, string>, start: Kernel, k: Kernel, k': Kernel, actions: seq<Action>,
                         i: nat)
    requires Attributed(o, local, records, cache) && i < |actions|
    requires forall a :: a in actions ==>
               OwnsAction(o, a) && a in NodeActions(local, records, cache, observed, a.nodeId)
    requires forall j :: 0 <= j < i ==> Ordered(actions[j], actions[i])
    requires Progressed(start, k, local, records, cache, observed, actions[..i]) && Touches(k, k', actions[i])
    ensures Progressed(start, k', local, records, cache, observed, actions[..i])
    ensures InForce(k', actions[i]) ==> Progressed(start, k', local, records, cache, observed, actions[..i+1])
  {
    ActionUndisturbs(o, local, records, cache, observed, start, k, k', actions[i]);
    ActionKeepsKnown(local, records, cache, observed, k, k', actions[i]);
    DoneStaysInForce(o, k, k', actions, i);
    PrefixOneMore(actions, i);
  }

  lemma PrefixOneMore(actions: seq<Action>, i: nat)
    requires i < |actions|
    ensures forall a :: a in actions[..i+1] <==> a in actions[..i] || a == actions[i]
  {
    assert actions[..i+1] == actions[..i] + [actions[i]];
  }

  lemma DoneStaysInForce(o: Owners, k: Kernel, k': Kernel, actions: seq<Action>, i: nat)
    requires i < |actions| && forall a :: a in actions ==> OwnsAction(o, a)
    requires forall j :: 0 <= j < i ==> Ordered(actions[j], actions[i])
    requires (forall a :: a in actions[..i] ==> InForce(k, a)) && Touches(k, k', actions[i])
    ensures forall a :: a in actions[..i] ==> InForce(k', a)
  {
    forall a | a in actions[..i] ensures InForce(k', a) {
      var j :| 0 <= j < i && actions[j] == a;
      ActionKeepsInForce(o, k, k', a, actions[i]);
    }
  }

  lemma ProgressedIsAttempted(start: Kernel, k: Kernel, local: string, records: seq<Member>,
                              cache: map<string, Entry>, observed: map<string, string>, done: seq<Action>)
    requires Progressed(start, k, local, records, cache, observed, done)
    ensures Attempted(start, k, local, records, cache)
  {
  }

  /** The state of an attempt after `i` successful actions, where keys and prefixes are attributed. */
  ghost predicate Tracked(o: Owners, start: Kernel, k: Kernel, local: string, records: seq<Member>,
                          cache: map<string, Entry>, observed: map<string, string>, actions: seq<Action>, i: nat) {
    Attributed(o, local, records, cache) ==>
      && (forall a :: a in actions ==> OwnsAction(o, a) && a in NodeActions(local, records, cache, observed, a.nodeId))
      && i <= |actions|
      && Progressed(start, k, local, records, cache, observed, actions[..i])
      && Attempted(start, k, local, records, cache)
  }

  lemma TrackedAtStart(o: Owners, k: Kernel, local: string, records: seq<Member>, cache: map<string, Entry>,
                       observed: map<string, string>, actions: seq<Action>)
    requires actions == PlanOf(local, records, cache, observed).actions
    ensures Tracked(o, k, k, local, records, cache, observed, actions, 0)
  {
    if Attributed(o, local, records, cache) {
      PlanIsOwned(o, local, records, cache, observed);
    }
  }

  /** Whatever became of the next action, the attempt is as it should be. */
  lemma TrackedOneMore(o: Owners, start: Kernel, k: Kernel, k': Kernel, local: string, records: seq<Member>,
                       cache: map<string, Entry>, observed: map<string, string>, actions: seq<Action>, i: nat)
    requires i < |actions| && AllOrdered(actions)
    requires Tracked(o, start, k, local, records, cache, observed, actions, i) && Touches(k, k', actions[i])
    ensures Attributed(o, local, records, cache) ==> Attempted(start, k', local, records, cache)
    ensures InForce(k', actions[i]) ==> Tracked(o, start, k', local, records, cache, observed, actions, i + 1)
  {
    if Attributed(o, local, records, cache) {
      ActionProgresses(o, local, records, cache, observed, start, k, k', actions, i);
      ProgressedIsAttempted(start, k', local, records, cache, observed, actions[..i]);
    }
  }

  lemma TrackedToEnd(o: Owners, start: Kernel, k: Kernel, local: string, records: seq<Member>,
                     cache: map<string, Entry>)
    requires var actions := PlanOf(local, records, cache, ObservedEndpoints(start)).actions;
             Tracked(o, start, k, local, records, cache, ObservedEndpoints(start), actions, |actions|)
    ensures Attributed(o, local, records, cache) ==>
              && Attempted(start, k, local, records, cache)
              && Agrees(start, k, local, records, cache, PlanOf(local, records, cache, ObservedEndpoints(start)).next)
  {
    if Attributed(o, local, records, cache) {
      var actions := PlanOf(local, records, cache, ObservedEndpoints(start)).actions;
      assert actions[..|actions|] == actions;
      FinishedPlanAgrees(local, records, cache, start, k);
    }
  }

  ghost predicate Finished(local: string, records: seq<Member>, cache: map<string, Entry>, start: Kernel, k: Kernel) {
    var actions := PlanOf(local, records, cache, ObservedEndpoints(start)).actions;
    Progressed(start, k, local, records, cache, ObservedEndpoints(start), actions)
  }

  /** With every action in force, for one node: a peer that was set is carried exactly, one that was not is
      carried as before, a key that was dropped is gone, and the endpoint is as cached. */
  ghost predicate NodeAgrees(local: string, records: seq<Member>, cache: map<string, Entry>, next: map<string, Entry>,
                             start: Kernel, k: Kernel, n: string) {
    var r := Deciding(local, records, n);
    && (n in cache && !Reset(local, records, cache, n) ==>
          && n in next && next[n].key == cache[n].key && EntryIps(next[n]) == EntryIps(cache[n])
          && (Carries(k, next[n]) <==> Carries(start, cache[n]))
          && (CarriesExactly(start, cache[n]) ==> CarriesExactly(k, next[n])))
    && (n in next && (n !in cache || Reset(local, records, cache, n)) ==> CarriesExactly(k, next[n]))
    && (n in cache && !(n in next && next[n].key == cache[n].key) ==> cache[n].key !in k.peers)
    && (r.Some? && r.value.state.Active? ==>
          n in next && next[n].key == r.value.wireguardKey && EntryIps(next[n]) == MemberIps(r.value))
    && (r.Some? && n in next && next[n].key in k.peers ==>
          k.peers[next[n].key].endpoint in {None, Some(next[n].endpoint)})
  }

  lemma FinishedNodeAgrees(local: string, records: seq<Member>, cache: map<string, Entry>, start: Kernel, k: Kernel,
                           n: string)
    requires Finished(local, records, cache, start, k)
    ensures NodeAgrees(local, records, cache, PlanOf(local, records, cache, ObservedEndpoints(start)).next, start, k, n)
  {
    var observed := ObservedEndpoints(start);
    PlanByNode(local, records, cache, observed, n);
    DecidingIsListed(local, records, n);
    var actions := NodeActions(local, records, cache, observed, n);
    forall i | 0 <= i < |actions| ensures InForce(k, actions[i]) {
      assert actions[i] in actions;
    }
  }

  lemma NodesAgreeOnPeers(local: string, records: seq<Member>, cache: map<string, Entry>, next: map<string, Entry>,
                          start: Kernel, k: Kernel)
    requires forall n :: NodeAgrees(local, records, cache, next, start, k, n)
    ensures AllCarried(k, next) <==> Repairable(start, local, records, cache)
    ensures RepairableExactly(start, local, records, cache) ==> AllCarriedExactly(k, next)
    ensures EndpointsAgree(k, local, records, next)
  {
    forall n
      ensures n in cache && !Reset(local, records, cache, n) ==>
                n in next && (Carries(k, next[n]) <==> Carries(start, cache[n]))
                && (CarriesExactly(start, cache[n]) ==> CarriesExactly(k, next[n]))
      ensures n in next && (n !in cache || Reset(local, records, cache, n)) ==> CarriesExactly(k, next[n])
      ensures Deciding(local, records, n).Some? && n in next && next[n].key in k.peers ==>
                k.peers[next[n].key].endpoint in {None, Some(next[n].endpoint)}
    {
      assert NodeAgrees(local, records, cache, next, start, k, n);
    }
  }

  lemma NodesAgreeOnKeys(local: string, records: seq<Member>, cache: map<string, Entry>, next: map<string, Entry>,
                         start: Kernel, k: Kernel)
    requires forall n :: NodeAgrees(local, records, cache, next, start, k, n)
    ensures KnownKeys(k, local, records, cache) ==> NoStrayPeers(k, next)
  {
    forall q | q in k.peers && (CachedKey(cache, q) || WantedKey(local, records, q)) ensures CachedKey(next, q) {
      if CachedKey(cache, q) {
        var n :| n in cache && cache[n].key == q;
        assert NodeAgrees(local, records, cache, next, start, k, n);
      } else {
        var n :| var r := Deciding(local, records, n); r.Some? && r.value.state.Active? && r.value.wireguardKey == q;
        assert NodeAgrees(local, records, cache, next, start, k, n);
      }
    }
  }

  lemma NodesAgreeOnRoutes(local: string, records: seq<Member>, cache: map<string, Entry>, next: map<string, Entry>,
                           start: Kernel, k: Kernel)
    requires forall n :: NodeAgrees(local, records, cache, next, start, k, n)
    ensures KnownRoutes(k, local, records, cache) ==> OnlyLeftovers(k, local, records, cache, next)
  {
    forall ip | HoldsPrefix(cache, ip) || WantedPrefix(local, records, ip)
      ensures HoldsPrefix(next, ip) || Leftover(local, records, cache, ip)
    {
      if HoldsPrefix(cache, ip) {
        var n :| n in cache && ip in EntryIps(cache[n]);
        assert NodeAgrees(local, records, cache, next, start, k, n);
      } else {
        var n :| var r := Deciding(local, records, n); r.Some? && r.value.state.Active? && ip in MemberIps(r.value);
        assert NodeAgrees(local, records, cache, next, start, k, n);
      }
    }
  }

  lemma FinishedPlanAgrees(local: string, records: seq<Member>, cache: map<string, Entry>, start: Kernel, k: Kernel)
    requires Finished(local, records, cache, start, k)
    ensures Agrees(start, k, local, records, cache, PlanOf(local, records, cache, ObservedEndpoints(start)).next)
  {
    var next := PlanOf(local, records, cache, ObservedEndpoints(start)).next;
    forall n ensures NodeAgrees(local, records, cache, next, start, k, n) {
      FinishedNodeAgrees(local, records, cache, start, k, n);
    }
    NodesAgreeOnPeers(local, records, cache, next, start, k);
    NodesAgreeOnKeys(local, records, cache, next, start, k);
    NodesAgreeOnRoutes(local, records, cache, next, start, k);
  }
}
