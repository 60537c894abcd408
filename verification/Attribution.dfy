/** What attributing records to connections protects: some members may send anything over their own
    connections, yet no log ever holds a record of another owner that the owner did not commit. */
module Attribution {
  import opened Names
  import opened Ledger
  import opened Membership
  import opened Catalog
  import opened Replication

  /** A step of the protocol, or records of a sender's own making that arrive over its connection. */
  datatype Event =
    | Regular(step: Replication.Step)
    | Forged(receiver: string, sender: string, records: seq<Record>, budget: nat)

  ghost function NextEvent(w: World, rules: Rules<string, Record>, c: Cluster, e: Event, rogues: set<string>): Cluster
    requires c.hosts.Keys == c.committed.Keys
  {
    match e
    case Regular(step) => Replication.Next(w, rules, c, step)
    case Forged(n, a, records, budget) =>
      if n in c.hosts && a in rogues && a in w.members
      then
        var p := Peer(V4(w.members[a].managementAddress));
        WithHost(c, n, ApplyExchange(rules, c.hosts[n], p, records, budget).host)
      else c
  }

  ghost function AfterEvents(w: World, rules: Rules<string, Record>, nodes: set<string>, events: seq<Event>,
                             rogues: set<string>)
    : (c: Cluster)
    ensures c.hosts.Keys == c.committed.Keys
  {
    if events == [] then Start(nodes)
    else NextEvent(w, rules, AfterEvents(w, rules, nodes, events[..|events|-1], rogues), events[|events|-1], rogues)
  }

  /** The record is a rogue's, or its owner committed it. */
  ghost predicate Genuine(committed: map<string, set<Record>>, rogues: set<string>, r: Record) {
    r.ownerNodeId in rogues || (r.ownerNodeId in committed && r in committed[r.ownerNodeId])
  }

  ghost predicate Attested(rules: Rules<string, Record>, c: Cluster, rogues: set<string>) {
    && c.hosts.Keys == c.committed.Keys
    && HostsConsistent(rules, c.hosts)
    && (forall n, r :: n in c.hosts && r in c.hosts[n].log ==> Genuine(c.committed, rogues, r))
    && (forall m, r :: m in c.sent && r in m.records ==> Genuine(c.committed, rogues, r))
  }

  lemma WriteLogs(rules: Rules<string, Record>, s: Host, p: Provenance, r: Record, x: Record)
    requires x in Write(rules, s, r, Submit(rules, s, p, r)).log
    ensures var verdict := Submit(rules, s, p, r);
            x in s.log || (x == r && rules.check(p, r).None? && (verdict.Applied? || verdict.Superseded?))
  {
  }

  /** An exchange logs only what was sent and verified. */
  lemma ExchangeLogs(rules: Rules<string, Record>, s: Host, p: Provenance, records: seq<Record>, budget: nat)
    requires VerifiedIsWeakest(rules) && Consistent(rules, s)
    ensures var t := ApplyExchange(rules, s, p, records, budget).host;
            && Consistent(rules, t)
            && forall x :: x in t.log ==> x in s.log || (x in records && rules.check(p, x).None?)
  {
    var keeps := (t: Host) =>
      Consistent(rules, t) && forall x :: x in t.log ==> x in s.log || (x in records && rules.check(p, x).None?);
    forall t, r | keeps(t) && r in records ensures keeps(Write(rules, t, r, Submit(rules, t, p, r))) {
      WriteKeepsConsistent(rules, t, p, r);
      forall x | x in Write(rules, t, r, Submit(rules, t, p, r)).log
        ensures x in s.log || (x in records && rules.check(p, x).None?)
      {
        WriteLogs(rules, t, p, r, x);
      }
    }
    ExchangeKeeps(rules, s, p, records, budget, keeps);
  }

  lemma LocalWriteKeepsAttested(rules: Rules<string, Record>, c: Cluster, rogues: set<string>, n: string, r: Record)
    requires VerifiedIsWeakest(rules) && Attested(rules, c, rogues) && n in c.hosts && r.ownerNodeId == n
    ensures Attested(rules, WriteLocally(rules, c, n, r), rogues)
  {
    var c' := WriteLocally(rules, c, n, r);
    WriteKeepsConsistent(rules, c.hosts[n], Local, r);
    forall x | Genuine(c.committed, rogues, x) ensures Genuine(c'.committed, rogues, x) {
      GenuineGrows(c.committed, rogues, n, r, x);
    }
    forall m, x | m in c'.hosts && x in c'.hosts[m].log ensures Genuine(c'.committed, rogues, x) {
      if m == n { WriteLogs(rules, c.hosts[n], Local, r, x); }
      assert x in c.hosts[m].log ==> Genuine(c.committed, rogues, x);
    }
    forall m, x | m in c'.sent && x in m.records ensures Genuine(c'.committed, rogues, x) {
      assert Genuine(c.committed, rogues, x);
    }
  }

  lemma GenuineGrows(committed: map<string, set<Record>>, rogues: set<string>, n: string, r: Record, x: Record)
    requires n in committed && Genuine(committed, rogues, x)
    ensures Genuine(committed[n := committed[n] + {r}], rogues, x)
  {
  }

  lemma HostKeepsAttested(rules: Rules<string, Record>, c: Cluster, rogues: set<string>, n: string, s: Host)
    requires Attested(rules, c, rogues) && n in c.hosts && Consistent(rules, s)
    requires forall x :: x in s.log ==> x in c.hosts[n].log || Genuine(c.committed, rogues, x)
    ensures Attested(rules, WithHost(c, n, s), rogues)
  {
  }

  lemma SendKeepsAttested(rules: Rules<string, Record>, c: Cluster, rogues: set<string>, n: string,
                          listing: seq<Record>)
    requires VerifiedIsWeakest(rules) && Attested(rules, c, rogues)
    requires n in c.hosts && IsSnapshot(c.hosts[n], n, listing)
    ensures Attested(rules, c.(sent := c.sent + {Message(n, listing)}), rogues)
  {
    TableIsMaximum(rules, c.hosts[n]);
    forall r | r in listing ensures Genuine(c.committed, rogues, r) {
      assert r in c.hosts[n].table.Values && r in Elems(c.hosts[n].log);
    }
  }

  lemma RegularKeepsAttested(w: World, rules: Rules<string, Record>, c: Cluster, rogues: set<string>,
                             step: Replication.Step)
    requires Lawful(rules) && Attested(rules, c, rogues)
    ensures Attested(rules, Replication.Next(w, rules, c, step), rogues)
  {
    if step.node in c.hosts && Replication.Next(w, rules, c, step) != c {
      var n := step.node;
      match step
      case Commit(_, draft) =>
        LocalWriteKeepsAttested(rules, c, rogues, n, CommitRecord(w, c.hosts[n].table, n, draft).value);
      case Restate(_, original, state, health) =>
        LocalWriteKeepsAttested(rules, c, rogues, n, RestateRecord(c.hosts[n].table, original, state, health));
      case Send(_, listing) => SendKeepsAttested(rules, c, rogues, n, listing);
      case Receive(_, m, budget) =>
        var p := Peer(V4(w.members[m.sender].managementAddress));
        ExchangeLogs(rules, c.hosts[n], p, m.records, budget);
        HostKeepsAttested(rules, c, rogues, n, ApplyExchange(rules, c.hosts[n], p, m.records, budget).host);
      case CompactHost(_) =>
        CompactionKeepsConsistent(rules, c.hosts[n]);
        KeepIsFilter(c.hosts[n].log, c.hosts[n].table.Values);
        forall x | x in Compact(c.hosts[n]).log ensures x in c.hosts[n].log {
          assert x in Elems(Compact(c.hosts[n]).log);
        }
        HostKeepsAttested(rules, c, rogues, n, Compact(c.hosts[n]));
    }
  }

  /** What a rogue sends is logged only under its own name. */
  lemma ForgedKeepsAttested(w: World, c: Cluster, rogues: set<string>, n: string, a: string, records: seq<Record>,
                            budget: nat)
    requires Injective(w.digest) && Keyed(w.members) && UniqueAddresses(w.members)
    requires Attested(HostRules(w), c, rogues) && n in c.hosts && a in rogues && a in w.members
    ensures var rules := HostRules(w);
            Attested(rules, NextEvent(w, rules, c, Forged(n, a, records, budget), rogues), rogues)
  {
    var rules := HostRules(w);
    var address := w.members[a].managementAddress;
    HostRulesAreCatalogLike(w);
    ExchangeLogs(rules, c.hosts[n], Peer(V4(address)), records, budget);
    forall x | rules.check(Peer(V4(address)), x).None? ensures x.ownerNodeId == a {
      UniqueAddressSpeaksForHolder(w.members, address, x.ownerNodeId);
    }
    HostKeepsAttested(rules, c, rogues, n, ApplyExchange(rules, c.hosts[n], Peer(V4(address)), records, budget).host);
  }

  lemma {:induction false} EventsKeepAttested(w: World, nodes: set<string>, events: seq<Event>, rogues: set<string>)
    requires Injective(w.digest) && Keyed(w.members) && UniqueAddresses(w.members)
    ensures var rules := HostRules(w);
            Attested(rules, AfterEvents(w, rules, nodes, events, rogues), rogues)
  {
    if events != [] {
      var rules := HostRules(w);
      var init, e := events[..|events|-1], events[|events|-1];
      EventsKeepAttested(w, nodes, init, rogues);
      var c := AfterEvents(w, rules, nodes, init, rogues);
      HostRulesAreCatalogLike(w);
      match e
      case Regular(step) => RegularKeepsAttested(w, rules, c, rogues, step);
      case Forged(n, a, records, budget) =>
        if n in c.hosts && a in rogues && a in w.members { ForgedKeepsAttested(w, c, rogues, n, a, records, budget); }
    }
  }

  /** Over every run in which some members also send arbitrary records over their own connections: a record
      in any node's log whose owner is none of them was committed locally by that owner. */
  lemma HonestOwnersAreNotForged(w: World, nodes: set<string>, events: seq<Event>, rogues: set<string>, n: string,
                                 r: Record)
    requires Injective(w.digest) && Keyed(w.members) && UniqueAddresses(w.members)
    requires var c := AfterEvents(w, HostRules(w), nodes, events, rogues);
             n in c.hosts && r in c.hosts[n].log && r.ownerNodeId !in rogues
    ensures var c := AfterEvents(w, HostRules(w), nodes, events, rogues);
            r.ownerNodeId in c.committed && r in c.committed[r.ownerNodeId]
  {
    EventsKeepAttested(w, nodes, events, rogues);
    assert Genuine(AfterEvents(w, HostRules(w), nodes, events, rogues).committed, rogues, r);
  }

  /** What a rogue sends in its own name is judged like anyone's: in every such run, a record of its own that is
      complete, not behind what is known of its replica and above the deployment's winner becomes the winner. */
  lemma RogueSpeaksForItself(w: World, nodes: set<string>, events: seq<Event>, rogues: set<string>, n: string,
                             a: string, r: Record)
    requires Injective(w.digest) && Keyed(w.members) && UniqueAddresses(w.members)
    requires n in AfterEvents(w, HostRules(w), nodes, events, rogues).hosts
    requires a in rogues && a in w.members && r.ownerNodeId == a && Complete(w.scope, r)
    requires var s := AfterEvents(w, HostRules(w), nodes, events, rogues).hosts[n];
             r !in s.log && !Stale(s.table, r) && Beats(w.digest, (x: Record) => Fits(x), s.table, r)
    ensures var c := AfterEvents(w, HostRules(w), nodes, events, rogues);
            var c' := AfterEvents(w, HostRules(w), nodes, events + [Forged(n, a, [r], 1)], rogues);
            n in c'.hosts && c'.hosts[n].table == c.hosts[n].table[r.deploymentId := r]
  {
    var rules := HostRules(w);
    var s := AfterEvents(w, rules, nodes, events, rogues).hosts[n];
    var p := Peer(V4(w.members[a].managementAddress));
    EventsKeepAttested(w, nodes, events, rogues);
    assert (events + [Forged(n, a, [r], 1)])[..|events|] == events;
    UniqueAddressSpeaksForHolder(w.members, w.members[a].managementAddress, a);
    PeerSpeaksFor(w.members, p, a);
    Catalog.Judged(w.scope, w.members, w.digest, (x: Record) => Fits(x), s, p, r);
    OneIsApplied(rules, s, p, r);
  }

  lemma OneIsApplied(rules: Rules<string, Record>, s: Host, p: Provenance, r: Record)
    requires Submit(rules, s, p, r).Applied?
    ensures ApplyExchange(rules, s, p, [r], 1).host.table == s.table[rules.slot(r) := r]
  {
    assert [r][1..] == [];
    assert ApplyExchange(rules, Write(rules, s, r, Applied), p, [], 0).host == Write(rules, s, r, Applied);
  }
}
