/** The `.jiji` zone a node serves: the newest active, healthy deployment of every replica whose owner is
    reachable, under an aggregate and a per-server name. */
module ServedZone {
  import opened Names
  import opened Catalog

  function AggregateName(project: string, service: string): string {
    project + "-" + service + ".jiji"
  }

  function ServerName(project: string, service: string, owner: string): string {
    project + "-" + service + "-" + owner + ".jiji"
  }

  predicate Publishes(project: string, r: Record, name: string) {
    name == AggregateName(project, r.service) || name == ServerName(project, r.service, r.ownerNodeId)
  }

  /** The addresses under a name, in the order of the records. */
  function AddressesUnder(project: string, records: seq<Record>, reachable: string -> bool, name: string): seq<Ipv4> {
    if records == [] then []
    else
      var r := records[|records|-1];
      AddressesUnder(project, records[..|records|-1], reachable, name)
      + if reachable(r.ownerNodeId) && Publishes(project, r, name) then [r.address] else []
  }

  function Push(zone: map<string, seq<Ipv4>>, name: string, address: Ipv4): map<string, seq<Ipv4>> {
    zone[name := (if name in zone then zone[name] else []) + [address]]
  }

  ghost predicate IsZone(project: string, records: seq<Record>, reachable: string -> bool,
                         zone: map<string, seq<Ipv4>>) {
    forall name ::
      && (name in zone <==> AddressesUnder(project, records, reachable, name) != [])
      && (name in zone ==> zone[name] == AddressesUnder(project, records, reachable, name))
  }

  method ZoneFromRecords(project: string, records: seq<Record>, reachable: string -> bool)
      returns (zone: map<string, seq<Ipv4>>)
    ensures IsZone(project, records, reachable, zone)
  {
    zone := map[];
    for i := 0 to |records|
      invariant IsZone(project, records[..i], reachable, zone)
    {
      assert records[..i+1][..i] == records[..i];
      var r := records[i];
      if !reachable(r.ownerNodeId) { continue; }
      ServerNameIsDistinct(project, r.service, r.ownerNodeId);
      zone := Push(zone, AggregateName(project, r.service), r.address);
      zone := Push(zone, ServerName(project, r.service, r.ownerNodeId), r.address);
    }
    assert records[..|records|] == records;
  }

  /** A record's two names are never the same, so its address is listed once under each. */
  lemma ServerNameIsDistinct(project: string, service: string, owner: string)
    ensures AggregateName(project, service) != ServerName(project, service, owner)
  {
    assert |ServerName(project, service, owner)| > |AggregateName(project, service)|;
  }

  lemma {:induction false} UnderIff(project: string, records: seq<Record>, reachable: string -> bool, name: string,
                                    a: Ipv4)
    ensures a in AddressesUnder(project, records, reachable, name) <==>
            exists r :: r in records && reachable(r.ownerNodeId) && Publishes(project, r, name) && r.address == a
  {
    if records != [] {
      UnderIff(project, records[..|records|-1], reachable, name, a);
      assert records == records[..|records|-1] + [records[|records|-1]];
    }
  }

  /** The record is published under the name: its owner is reachable and the name is the service's, with or without
      the owner, in the project. */
  ghost predicate IsListed(project: string, r: Record, reachable: string -> bool, name: string) {
    && reachable(r.ownerNodeId)
    && (|| name == project + "-" + r.service + ".jiji"
        || name == project + "-" + r.service + "-" + r.ownerNodeId + ".jiji")
  }

  /** Places in ascending order, with these addresses. */
  ghost predicate HasAddresses(records: seq<Record>, places: seq<nat>, addresses: seq<Ipv4>) {
    && |places| == |addresses|
    && (forall j, k :: 0 <= j < k < |places| ==> places[j] < places[k])
    && (forall k :: 0 <= k < |places| ==> places[k] < |records| && records[places[k]].address == addresses[k])
  }

  /** The addresses are those of the records at these places, which are all the places of records published under
      the name, in order. */
  ghost predicate Lists(project: string, records: seq<Record>, reachable: string -> bool, name: string,
                        places: seq<nat>, addresses: seq<Ipv4>) {
    && HasAddresses(records, places, addresses)
    && forall i: nat :: i < |records| ==> (i in places <==> IsListed(project, records[i], reachable, name))
  }

  lemma ListedIff(project: string, r: Record, reachable: string -> bool, name: string)
    ensures IsListed(project, r, reachable, name) <==> reachable(r.ownerNodeId) && Publishes(project, r, name)
  {
  }

  lemma AddressesGrow(records: seq<Record>, places: seq<nat>, addresses: seq<Ipv4>)
    requires records != [] && HasAddresses(records[..|records|-1], places, addresses)
    ensures HasAddresses(records, places, addresses)
    ensures HasAddresses(records, places + [|records|-1], addresses + [records[|records|-1].address])
  {
    assert forall i :: 0 <= i < |records| - 1 ==> records[i] == records[..|records|-1][i];
  }

  lemma ListsOneMore(project: string, records: seq<Record>, reachable: string -> bool, name: string, places: seq<nat>,
                     addresses: seq<Ipv4>, listed: bool)
    requires records != [] && Lists(project, records[..|records|-1], reachable, name, places, addresses)
    requires listed <==> IsListed(project, records[|records|-1], reachable, name)
    ensures var last: nat := |records| - 1;
            if listed
            then Lists(project, records, reachable, name, places + [last], addresses + [records[last].address])
            else Lists(project, records, reachable, name, places, addresses)
  {
    AddressesGrow(records, places, addresses);
    PlacesGrow(project, records, reachable, name, places, listed);
  }

  lemma PlacesGrow(project: string, records: seq<Record>, reachable: string -> bool, name: string, places: seq<nat>,
                   listed: bool)
    requires records != [] && forall k :: 0 <= k < |places| ==> places[k] < |records| - 1
    requires forall i: nat :: i < |records| - 1 ==>
               (i in places <==> IsListed(project, records[..|records|-1][i], reachable, name))
    requires listed <==> IsListed(project, records[|records|-1], reachable, name)
    ensures var all := if listed then places + [|records|-1] else places;
            forall i: nat :: i < |records| ==> (i in all <==> IsListed(project, records[i], reachable, name))
  {
    var all := if listed then places + [|records|-1] else places;
    forall i: nat | i < |records| ensures i in all <==> IsListed(project, records[i], reachable, name) {
      if i < |records| - 1 { assert records[i] == records[..|records|-1][i]; }
    }
  }

  lemma {:induction false} UnderIsInOrder(project: string, records: seq<Record>, reachable: string -> bool,
                                          name: string) returns (places: seq<nat>)
    ensures Lists(project, records, reachable, name, places, AddressesUnder(project, records, reachable, name))
  {
    places := [];
    if records != [] {
      var init, last := records[..|records|-1], records[|records|-1];
      var before := UnderIsInOrder(project, init, reachable, name);
      var listed := reachable(last.ownerNodeId) && Publishes(project, last, name);
      ListedIff(project, last, reachable, name);
      ListsOneMore(project, records, reachable, name, before, AddressesUnder(project, init, reachable, name), listed);
      places := if listed then before + [|init|] else before;
      assert AddressesUnder(project, init, reachable, name) + [] == AddressesUnder(project, init, reachable, name);
    }
  }

  /** For every zone built from a list of records: a name is in it if and only if some record is published under it,
      and it then lists the addresses of exactly those records, once for each, in their order. */
  lemma ZoneLists(project: string, records: seq<Record>, reachable: string -> bool, zone: map<string, seq<Ipv4>>,
                  name: string)
    requires IsZone(project, records, reachable, zone)
    ensures name in zone <==> exists r :: r in records && IsListed(project, r, reachable, name)
    ensures name in zone ==> exists places :: Lists(project, records, reachable, name, places, zone[name])
  {
    var places := UnderIsInOrder(project, records, reachable, name);
    if name in zone {
      assert places[0] in places && records[places[0]] in records;
    }
    if r :| r in records && IsListed(project, r, reachable, name) {
      var i: nat :| i < |records| && records[i] == r;
      assert i in places;
    }
  }

  /** `w` is served under the name: the newest eligible deployment of its replica, its owner reachable. */
  ghost predicate ServedUnder(project: string, view: seq<Record>, reachable: string -> bool, name: string, w: Record) {
    IsServed(view, w) && reachable(w.ownerNodeId) && Publishes(project, w, name)
  }

  /** Listed by replica id, each replica once: the order of a map keyed by replica. */
  ghost predicate ByReplica(records: seq<Record>) {
    forall i, j :: 0 <= i < j < |records| ==> Before(records[i].replicaId, records[j].replicaId)
  }

  method ListWinners(winners: map<string, Record>) returns (records: seq<Record>)
    requires forall k :: k in winners ==> winners[k].replicaId == k
    ensures ByReplica(records) && forall r :: r in records <==> r in winners.Values
  {
    records := [];
    var pending := winners.Keys;
    while pending != {}
      invariant pending <= winners.Keys && ByReplica(records)
      invariant forall i, k :: 0 <= i < |records| && k in pending ==> Before(records[i].replicaId, k)
      invariant forall r :: r in records <==> exists k :: k in winners.Keys - pending && winners[k] == r
    {
      var k := Least(pending);
      pending := pending - {k};
      records := records + [winners[k]];
    }
  }

  /** The zone served for a view's winners, which hold one record per deployment: under each name, in the
      order of replica ids, the address of every served record that publishes it, once for each. */
  method BuildZone(project: string, view: seq<Record>, reachable: string -> bool)
      returns (zone: map<string, seq<Ipv4>>, ghost served: seq<Record>)
    requires OnePerDeployment(set r | r in view)
    ensures ByReplica(served) && forall w :: w in served <==> IsServed(view, w)
    ensures IsZone(project, served, reachable, zone)
    ensures forall name :: name in zone <==> exists w :: ServedUnder(project, view, reachable, name, w)
    ensures forall name, a :: name in zone ==>
              (a in zone[name] <==> exists w :: ServedUnder(project, view, reachable, name, w) && w.address == a)
  {
    var winners := ActiveHealthyWinners(view);
    var records := ListWinners(winners);
    forall w ensures w in records <==> IsServed(view, w) {
      if w in records {
        var k :| k in winners && winners[k] == w;
      }
      if IsServed(view, w) {
        ServedIsUnique(view, w, winners[w.replicaId]);
        assert winners[w.replicaId] in winners.Values;
      }
    }
    served := records;
    zone := ZoneFromRecords(project, records, reachable);
    ZoneOfServed(project, view, records, reachable, zone);
  }

  lemma ZoneOfServed(project: string, view: seq<Record>, records: seq<Record>, reachable: string -> bool,
                     zone: map<string, seq<Ipv4>>)
    requires IsZone(project, records, reachable, zone) && forall w :: w in records <==> IsServed(view, w)
    ensures forall name :: name in zone <==> exists w :: ServedUnder(project, view, reachable, name, w)
    ensures forall name, a :: name in zone ==>
              (a in zone[name] <==> exists w :: ServedUnder(project, view, reachable, name, w) && w.address == a)
  {
    forall name, a
      ensures a in AddressesUnder(project, records, reachable, name) <==>
              exists w :: ServedUnder(project, view, reachable, name, w) && w.address == a
    {
      UnderIff(project, records, reachable, name, a);
      if w :| w in records && reachable(w.ownerNodeId) && Publishes(project, w, name) && w.address == a {
        assert ServedUnder(project, view, reachable, name, w);
      }
    }
    forall name ensures name in zone <==> exists w :: ServedUnder(project, view, reachable, name, w) {
      var under := AddressesUnder(project, records, reachable, name);
      if name in zone {
        assert under[0] in under;
      }
      if w :| ServedUnder(project, view, reachable, name, w) {
        assert w.address in under;
      }
    }
  }

  // ----- whose names they are -----

  function Qualified(r: Record): string { r.service + "-" + r.ownerNodeId }

  lemma NameIsInjective(project: string, a: string, b: string)
    ensures AggregateName(project, a) == AggregateName(project, b) <==> a == b
  {
    var x, y := AggregateName(project, a), AggregateName(project, b);
    assert x[|project|+1..|x|-5] == a && y[|project|+1..|y|-5] == b;
  }

  lemma ServerNameIsQualified(project: string, r: Record)
    ensures ServerName(project, r.service, r.ownerNodeId) == AggregateName(project, Qualified(r))
  {
  }

  /** Names are not always a service's own. Two records publish a common name if and only if they are of one
      service, or one service is called like the other with its server appended, or the two services with
      their servers appended read the same. */
  lemma NamesCollideIff(project: string, a: Record, b: Record)
    ensures (exists name :: Publishes(project, a, name) && Publishes(project, b, name)) <==>
            || a.service == b.service
            || b.service == Qualified(a)
            || a.service == Qualified(b)
            || Qualified(a) == Qualified(b)
  {
    ServerNameIsQualified(project, a);
    ServerNameIsQualified(project, b);
    NameIsInjective(project, a.service, b.service);
    NameIsInjective(project, a.service, Qualified(b));
    NameIsInjective(project, Qualified(a), b.service);
    NameIsInjective(project, Qualified(a), Qualified(b));
    assert Publishes(project, a, AggregateName(project, a.service)) &&
             Publishes(project, a, AggregateName(project, Qualified(a)));
    assert Publishes(project, b, AggregateName(project, b.service)) &&
             Publishes(project, b, AggregateName(project, Qualified(b)));
  }

  /** The name of one service lists addresses of that service only. */
  ghost predicate OwnAddressesOnly(project: string, records: seq<Record>, reachable: string -> bool, service: string,
                                   name: string) {
    forall r :: r in records && reachable(r.ownerNodeId) && Publishes(project, r, name) ==> r.service == service
  }

  /** A service's aggregate name is its own if and only if no reachable record of another service is called
      so with its server appended; its per-server name if and only if no other service is called so, with or
      without its server. Where it is not, the other record's address is in the zone under the name. */
  lemma NameIsOwnIff(project: string, records: seq<Record>, reachable: string -> bool, zone: map<string, seq<Ipv4>>,
                     w: Record)
    requires IsZone(project, records, reachable, zone)
    ensures OwnAddressesOnly(project, records, reachable, w.service, AggregateName(project, w.service)) <==>
            forall r :: r in records && reachable(r.ownerNodeId) ==> Qualified(r) != w.service
    ensures OwnAddressesOnly(project, records, reachable, w.service, ServerName(project, w.service, w.ownerNodeId)) <==>
            forall r :: r in records && reachable(r.ownerNodeId) && r.service != w.service ==>
              r.service != Qualified(w) && Qualified(r) != Qualified(w)
    ensures forall r, name :: r in records && reachable(r.ownerNodeId) && Publishes(project, r, name) ==>
              name in zone && r.address in zone[name]
  {
    ServerNameIsQualified(project, w);
    forall r
      ensures Publishes(project, r, AggregateName(project, w.service)) <==>
                r.service == w.service || Qualified(r) == w.service
      ensures Publishes(project, r, AggregateName(project, Qualified(w))) <==>
                r.service == Qualified(w) || Qualified(r) == Qualified(w)
      ensures |Qualified(r)| > |r.service|
    {
      ServerNameIsQualified(project, r);
      NameIsInjective(project, w.service, r.service);
      NameIsInjective(project, w.service, Qualified(r));
      NameIsInjective(project, Qualified(w), r.service);
      NameIsInjective(project, Qualified(w), Qualified(r));
    }
    forall r, name | r in records && reachable(r.ownerNodeId) && Publishes(project, r, name)
      ensures name in zone && r.address in zone[name]
    {
      UnderIff(project, records, reachable, name, r.address);
    }
  }
}
