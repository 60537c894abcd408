/** Host-local address leases: first-fit allocation, release into quarantine, reconstruction from
    container labels, and collection that needs positive evidence. */
module Leases {
  import opened Names

  const DEFAULT_QUARANTINE_SECONDS := 30
  const IPV4_SPACE := 0x1_0000_0000

  function SaturatingAdd(a: nat, b: nat): nat { if a + b > U64_MAX then U64_MAX else a + b }

  /** A lease is active, or quarantined until a given time. */
  datatype Lease = Lease(replicaId: string, address: nat, quarantinedUntil: Option<nat>)

  /** The lease table by deployment, whether an inventory has completed, and the deployments whose
      containers the last inventory observed. */
  datatype Table = Table(leases: map<string, Lease>, checkpoint: bool, observed: set<string>)

  function Used(t: Table): set<nat> { set d | d in t.leases :: t.leases[d].address }

  ghost predicate OneToOne(t: Table) {
    forall a, b :: a in t.leases && b in t.leases && t.leases[a].address == t.leases[b].address ==> a == b
  }

  ghost predicate Holds(t: Table, d: string, address: nat) {
    d in t.leases && t.leases[d].address == address
  }

  // ----- operations on values -----

  /** An insertion that fails on either unique column; the deployment column makes it a no-op. */
  function Claim(t: Table, d: string, replica: string, address: nat): Table {
    if d in t.leases || address in Used(t) then t else t.(leases := t.leases[d := Lease(replica, address, None)])
  }

  /** Reactivates an exact match, inserts a free pair, refuses everything else. */
  function Recover(t: Table, d: string, replica: string, address: nat): Table {
    if d in t.leases then
      if t.leases[d].replicaId == replica && t.leases[d].address == address
      then t.(leases := t.leases[d := t.leases[d].(quarantinedUntil := None)])
      else t
    else if address in Used(t) then t
    else t.(leases := t.leases[d := Lease(replica, address, None)])
  }

  function Quarantine(t: Table, d: string, until: nat): Table {
    if d in t.leases then t.(leases := t.leases[d := t.leases[d].(quarantinedUntil := Some(until))]) else t
  }

  /** The evidence a collection needs before it may forget a lease. */
  predicate Collectable(t: Table, d: string, now: nat) {
    && t.checkpoint
    && d in t.leases && t.leases[d].quarantinedUntil.Some? && t.leases[d].quarantinedUntil.value <= now
    && d !in t.observed
  }

  function Collect(t: Table, now: nat): Table {
    t.(leases := map d | d in t.leases && !Collectable(t, d, now) :: t.leases[d])
  }

  // ----- subnets -----

  function Pow2(n: nat): (p: nat)
    ensures p > 0
  {
    if n == 0 then 1 else 2 * Pow2(n - 1)
  }

  datatype Cidr = Cidr(network: nat, prefix: nat)

  function AddressCount(c: Cidr): nat
    requires c.prefix <= 32
  {
    Pow2(32 - c.prefix)
  }

  /** Host bits are zero. */
  predicate ValidCidr(c: Cidr) {
    c.prefix <= 32 && c.network < IPV4_SPACE && c.network % AddressCount(c) == 0
  }

  lemma {:induction false} Pow2Splits(a: nat, b: nat)
    ensures Pow2(a + b) == Pow2(a) * Pow2(b)
  {
    if a > 0 {
      Pow2Splits(a - 1, b);
    }
  }

  lemma Pow2Of32()
    ensures Pow2(32) == IPV4_SPACE
  {
    assert Pow2(4) == 16;
    assert Pow2(8) == 256 by { Pow2Splits(4, 4); }
    assert Pow2(16) == 0x1_0000 by { Pow2Splits(8, 8); }
    Pow2Splits(16, 16);
  }

  lemma MultipleBelow(size: nat, q: nat, p: nat)
    requires size > 0 && q * size < p * size
    ensures q * size + size <= p * size
  {
    assert q < p by { if q >= p { MultipleMonotone(size, p, q); } }
    MultipleMonotone(size, q + 1, p);
  }

  lemma MultipleMonotone(size: nat, a: nat, b: nat)
    requires a <= b
    ensures a * size <= b * size
  {
  }

  lemma AlignedBlockFits(network: nat, size: nat, blocks: nat)
    requires size > 0 && network % size == 0 && network < blocks * size
    ensures network + size <= blocks * size
  {
    var q := network / size;
    assert network == q * size + network % size;
    MultipleBelow(size, q, blocks);
  }

  /** The networks of one prefix length fill the address space. */
  lemma NetworksFillSpace(c: Cidr)
    requires c.prefix <= 32
    ensures AddressCount(c) * Pow2(c.prefix) == 0x1_0000_0000
  {
    Pow2Of32();
    Pow2Splits(32 - c.prefix, c.prefix);
  }

  /** Every offset of a valid network is an IPv4 address: the sum never wraps. */
  lemma AddressesFit(c: Cidr, offset: nat)
    requires ValidCidr(c) && offset < AddressCount(c)
    ensures c.network + offset < IPV4_SPACE
  {
    Pow2Of32();
    Pow2Splits(c.prefix, 32 - c.prefix);
    AlignedBlockFits(c.network, AddressCount(c), Pow2(c.prefix));
  }

  // ----- allocation -----

  predicate Free(t: Table, reserved: set<nat>, address: nat) {
    address !in reserved && address !in Used(t)
  }

  /** The lowest free host address from an offset on. */
  function FirstFree(t: Table, c: Cidr, reserved: set<nat>, offset: nat): Option<nat>
    requires c.prefix <= 32
    decreases AddressCount(c) - offset
  {
    if offset + 1 >= AddressCount(c) then None
    else if Free(t, reserved, c.network + offset) then Some(c.network + offset)
    else FirstFree(t, c, reserved, offset + 1)
  }

  /** Neither the network nor the broadcast address. */
  ghost predicate IsHost(c: Cidr, address: nat)
    requires c.prefix <= 32
  {
    c.network < address < c.network + AddressCount(c) - 1
  }

  lemma {:induction false} FirstFreeIsLowest(t: Table, c: Cidr, reserved: set<nat>, offset: nat)
    requires c.prefix <= 32
    ensures var f := FirstFree(t, c, reserved, offset);
            && (f.None? ==> forall a :: c.network + offset <= a < c.network + AddressCount(c) - 1 ==>
                  !Free(t, reserved, a))
            && (f.Some? ==>
                  && c.network + offset <= f.value < c.network + AddressCount(c) - 1 && Free(t, reserved, f.value)
                            && forall a :: c.network + offset <= a < f.value ==> !Free(t, reserved, a))
    decreases AddressCount(c) - offset
  {
    if offset + 1 < AddressCount(c) && !Free(t, reserved, c.network + offset) {
      FirstFreeIsLowest(t, c, reserved, offset + 1);
    }
  }

  datatype Allocation = Leased(lease: Lease) | Exhausted

  /** Allocation on the collected table: an existing lease as it is, or the first free host address. */
  function Allocate(t: Table, d: string, replica: string, now: nat, c: Cidr, reserved: set<nat>): (Table, Allocation)
    requires c.prefix <= 32
  {
    var u := Collect(t, now);
    if d in u.leases then (u, Leased(u.leases[d]))
    else
      match FirstFree(u, c, reserved, 1)
      case None => (u, Exhausted)
      case Some(a) => (Claim(u, d, replica, a), Leased(Lease(replica, a, None)))
  }

  /** A collection may not forget the lease: it is active, its quarantine has not ended, no inventory has completed,
      or the last one observed the deployment. */
  ghost predicate IsKept(t: Table, d: string, now: nat) {
    && d in t.leases
    && (|| t.leases[d].quarantinedUntil.None? || now < t.leases[d].quarantinedUntil.value
        || !t.checkpoint || d in t.observed)
  }

  /** The address is reserved, or a lease that is kept holds it. */
  ghost predicate IsTaken(t: Table, now: nat, reserved: set<nat>, address: nat) {
    address in reserved || exists d :: IsKept(t, d, now) && t.leases[d].address == address
  }

  lemma CollectedRows(t: Table, now: nat, reserved: set<nat>)
    ensures Collect(t, now).checkpoint == t.checkpoint && Collect(t, now).observed == t.observed
    ensures forall d :: d in Collect(t, now).leases <==> IsKept(t, d, now)
    ensures forall d :: IsKept(t, d, now) ==> Collect(t, now).leases[d] == t.leases[d]
    ensures forall a :: Free(Collect(t, now), reserved, a) <==> !IsTaken(t, now, reserved, a)
  {
    var u := Collect(t, now);
    assert forall d :: d in u.leases <==> IsKept(t, d, now);
    forall a ensures Free(u, reserved, a) <==> !IsTaken(t, now, reserved, a) {
      if a in Used(u) {
        var d :| d in u.leases && u.leases[d].address == a;
        assert IsKept(t, d, now) && t.leases[d].address == a;
      }
      if d :| IsKept(t, d, now) && t.leases[d].address == a {
        assert d in u.leases && u.leases[d].address == a;
      }
    }
  }

  /** What an allocation makes of the rows, without reference to the collection and the search: every other row that
      is kept stays as it is and every other is gone; a lease of the deployment that is kept is the answer; otherwise
      the deployment gets the lowest host address that is not taken, and there is no answer exactly when all are. */
  lemma AllocateIsFirstFit(t: Table, d: string, replica: string, now: nat, c: Cidr, reserved: set<nat>)
    requires c.prefix <= 32
    ensures var (t', r) := Allocate(t, d, replica, now, c, reserved);
            && t'.checkpoint == t.checkpoint && t'.observed == t.observed
            && (forall e :: e != d ==> (e in t'.leases <==> IsKept(t, e, now)))
            && (forall e :: e != d && IsKept(t, e, now) ==> t'.leases[e] == t.leases[e])
            && (r.Leased? <==> d in t'.leases) && (r.Leased? ==> t'.leases[d] == r.lease)
            && (IsKept(t, d, now) ==> r == Leased(t.leases[d]))
            && (!IsKept(t, d, now) && r.Leased? ==>
                  && r.lease.replicaId == replica && r.lease.quarantinedUntil == None
                  && IsHost(c, r.lease.address) && !IsTaken(t, now, reserved, r.lease.address)
                  && forall a: nat :: IsHost(c, a) && a < r.lease.address ==> IsTaken(t, now, reserved, a))
            && (r.Exhausted? <==>
                  !IsKept(t, d, now) && forall a: nat :: IsHost(c, a) ==> IsTaken(t, now, reserved, a))
  {
    CollectedRows(t, now, reserved);
    FirstFreeIsLowest(Collect(t, now), c, reserved, 1);
  }

  // ----- pigeonhole -----

  /** The host addresses of a network: neither the network nor the broadcast address. */
  function Hosts(network: nat, count: nat): set<nat> {
    if count <= 2 then {} else Hosts(network, count - 1) + {network + count - 2}
  }

  lemma {:induction false} HostsCount(network: nat, count: nat)
    requires count >= 2
    ensures |Hosts(network, count)| == count - 2
    ensures forall a :: a in Hosts(network, count) <==> network < a < network + count - 1
  {
    if count > 2 {
      HostsCount(network, count - 1);
    }
  }

  lemma {:induction false} SubsetCount(a: set<nat>, b: set<nat>)
    requires a <= b
    ensures |a| <= |b|
  {
    if a != {} {
      var x :| x in a;
      SubsetCount(a - {x}, b - {x});
    }
  }

  lemma {:induction false} UsedCount(t: Table)
    ensures |Used(t)| <= |t.leases|
    decreases |t.leases|
  {
    if t.leases == map[] {
      assert Used(t) == {};
    } else {
      var d :| d in t.leases;
      var rest := t.(leases := t.leases - {d});
      assert t.leases.Keys == rest.leases.Keys + {d};
      UsedCount(rest);
      assert Used(t) <= Used(rest) + {t.leases[d].address};
      SubsetCount(Used(t), Used(rest) + {t.leases[d].address});
    }
  }

  /** Fewer leases and reservations than host addresses leave one free. */
  lemma AllocateSucceeds(t: Table, d: string, replica: string, now: nat, c: Cidr, reserved: set<nat>)
    requires c.prefix <= 32 && AddressCount(c) >= 2
    requires |Collect(t, now).leases| + |reserved * Hosts(c.network, AddressCount(c))| < AddressCount(c) - 2
    ensures Allocate(t, d, replica, now, c, reserved).1.Leased?
  {
    var u, hosts := Collect(t, now), Hosts(c.network, AddressCount(c));
    AllocateIsFirstFit(t, d, replica, now, c, reserved);
    CollectedRows(t, now, reserved);
    HostsCount(c.network, AddressCount(c));
    if forall a: nat :: IsHost(c, a) ==> IsTaken(t, now, reserved, a) {
      forall a | a in hosts ensures a in Used(u) + reserved * hosts {
        assert IsHost(c, a) && !Free(u, reserved, a);
      }
      SubsetCount(hosts, Used(u) + reserved * hosts);
      UsedCount(u);
    }
  }

  // ----- runs -----

  datatype Step =
    | ClaimStep(deployment: string, replica: string, address: nat)
    | RecoverStep(deployment: string, replica: string, address: nat)
    | ReleaseStep(deployment: string, until: nat)
    | CollectStep(now: nat)
    | AllocateStep(deployment: string, replica: string, now: nat, subnet: Cidr, reserved: set<nat>)
    | InventoryStep(observed: set<string>)

  function Next(t: Table, s: Step): Table {
    match s
    case ClaimStep(d, replica, address) => Claim(t, d, replica, address)
    case RecoverStep(d, replica, address) => Recover(t, d, replica, address)
    case ReleaseStep(d, until) => Quarantine(t, d, until)
    case CollectStep(now) => Collect(t, now)
    case AllocateStep(d, replica, now, c, reserved) =>
      if c.prefix <= 32 then Allocate(t, d, replica, now, c, reserved).0 else t
    case InventoryStep(observed) => t.(observed := observed, checkpoint := true)
  }

  function After(steps: seq<Step>): Table {
    if steps == [] then Table(map[], false, {}) else Next(After(steps[..|steps|-1]), steps[|steps|-1])
  }

  lemma InsertKeepsOneToOne(t: Table, d: string, lease: Lease)
    requires OneToOne(t) && lease.address !in Used(t)
    ensures OneToOne(t.(leases := t.leases[d := lease]))
  {
    assert forall e :: e in t.leases ==> t.leases[e].address in Used(t);
  }

  lemma CollectKeepsOneToOne(t: Table, now: nat)
    requires OneToOne(t)
    ensures OneToOne(Collect(t, now))
  {
  }

  lemma RecoverKeepsOneToOne(t: Table, d: string, replica: string, address: nat)
    requires OneToOne(t)
    ensures OneToOne(Recover(t, d, replica, address))
  {
    if d !in t.leases && address !in Used(t) { InsertKeepsOneToOne(t, d, Lease(replica, address, None)); }
  }

  lemma AllocateKeepsOneToOne(t: Table, d: string, replica: string, now: nat, c: Cidr, reserved: set<nat>)
    requires OneToOne(t) && c.prefix <= 32
    ensures OneToOne(Allocate(t, d, replica, now, c, reserved).0)
  {
    AllocateIsFirstFit(t, d, replica, now, c, reserved);
    var (t', r) := Allocate(t, d, replica, now, c, reserved);
    assert forall e :: e != d && e in t'.leases ==> IsKept(t, e, now) && t'.leases[e] == t.leases[e];
  }

  lemma NextKeepsOneToOne(t: Table, s: Step)
    requires OneToOne(t)
    ensures OneToOne(Next(t, s))
  {
    match s
    case ClaimStep(d, replica, address) =>
      if d !in t.leases && address !in Used(t) { InsertKeepsOneToOne(t, d, Lease(replica, address, None)); }
    case RecoverStep(d, replica, address) => RecoverKeepsOneToOne(t, d, replica, address);
    case CollectStep(now) => CollectKeepsOneToOne(t, now);
    case AllocateStep(d, replica, now, c, reserved) =>
      if c.prefix <= 32 { AllocateKeepsOneToOne(t, d, replica, now, c, reserved); }
    case _ =>
  }

  /** Over every run deployments and leased addresses stay one to one. */
  lemma {:induction false} LeasesAreOneToOne(steps: seq<Step>)
    ensures OneToOne(After(steps))
  {
    if steps != [] {
      LeasesAreOneToOne(steps[..|steps|-1]);
      NextKeepsOneToOne(After(steps[..|steps|-1]), steps[|steps|-1]);
    }
  }

  /** The step is a collection, on its own or as part of an allocation. */
  predicate IsCollection(s: Step) { s.CollectStep? || (s.AllocateStep? && s.subnet.prefix <= 32) }

  /** A step by which a deployment loses its address is a collection that need not keep it. */
  ghost predicate Collects(t: Table, s: Step, d: string) {
    && IsCollection(s) && d in t.leases && t.checkpoint && d !in t.observed
    && t.leases[d].quarantinedUntil.Some? && t.leases[d].quarantinedUntil.value <= s.now
  }

  lemma LossNeedsEvidence(t: Table, s: Step, d: string, address: nat)
    requires Holds(t, d, address) && !Holds(Next(t, s), d, address)
    ensures Collects(t, s, d)
  {
  }

  /** An address passes from one deployment to another only through a collection, somewhere between the
      two, at or after the end of the first one's quarantine, after an inventory, and with the first
      deployment absent from what was observed. */
  lemma {:induction false} HandoverNeedsCollection(steps: seq<Step>, i: nat, j: nat, d: string, e: string, address: nat)
    requires i <= j <= |steps| && d != e
    requires Holds(After(steps[..i]), d, address) && Holds(After(steps[..j]), e, address)
    ensures exists k :: i <= k < j && Holds(After(steps[..k]), d, address) && Collects(After(steps[..k]), steps[k], d)
    decreases j - i
  {
    LeasesAreOneToOne(steps[..i]);
    assert i < j;
    assert steps[..i+1][..i] == steps[..i];
    if Holds(After(steps[..i+1]), d, address) {
      HandoverNeedsCollection(steps, i + 1, j, d, e, address);
    } else {
      LossNeedsEvidence(After(steps[..i]), steps[i], d, address);
    }
  }

  // ----- the evidence in the history -----

  /** The last inventory before a step, and the last release of a deployment before it. */
  ghost predicate LastInventory(steps: seq<Step>, m: nat, k: nat) {
    m < k <= |steps| && steps[m].InventoryStep? && forall x :: m < x < k ==> !steps[x].InventoryStep?
  }

  ghost predicate Releases(s: Step, d: string) { s.ReleaseStep? && s.deployment == d }

  ghost predicate LastRelease(steps: seq<Step>, m: nat, k: nat, d: string) {
    m < k <= |steps| && Releases(steps[m], d) && forall x :: m < x < k ==> !Releases(steps[x], d)
  }

  lemma KeepsEvidence(t: Table, s: Step)
    requires !s.InventoryStep?
    ensures Next(t, s).checkpoint == t.checkpoint && Next(t, s).observed == t.observed
  {
  }

  /** The checkpoint is set by the first inventory, and what is observed is what the last one observed. */
  lemma {:induction false} CheckpointIsInventory(steps: seq<Step>, k: nat)
    requires k <= |steps|
    ensures After(steps[..k]).checkpoint <==> exists m: nat :: LastInventory(steps, m, k)
    ensures forall m: nat :: LastInventory(steps, m, k) ==> steps[m].observed == After(steps[..k]).observed
  {
    if k > 0 {
      assert steps[..k][..k-1] == steps[..k-1];
      CheckpointIsInventory(steps, k - 1);
      if steps[k-1].InventoryStep? {
        assert LastInventory(steps, k - 1, k);
      } else {
        KeepsEvidence(After(steps[..k-1]), steps[k-1]);
        var j: nat := k - 1;
        if m: nat :| LastInventory(steps, m, j) { assert LastInventory(steps, m, k); }
        assert forall m: nat :: LastInventory(steps, m, k) ==> LastInventory(steps, m, j);
      }
    }
  }

  lemma {:induction false} QuarantineIsRelease(steps: seq<Step>, k: nat, d: string)
    requires k <= |steps| && d in After(steps[..k]).leases && After(steps[..k]).leases[d].quarantinedUntil.Some?
    ensures exists m: nat :: LastRelease(steps, m, k, d) &&
              Some(steps[m].until) == After(steps[..k]).leases[d].quarantinedUntil
  {
    var t := After(steps[..k-1]);
    assert steps[..k][..k-1] == steps[..k-1];
    if Releases(steps[k-1], d) {
      assert LastRelease(steps, k - 1, k, d);
    } else {
      RowComesFrom(t, steps[k-1], d);
      QuarantineIsRelease(steps, k - 1, d);
      var m: nat :| LastRelease(steps, m, k - 1, d) && Some(steps[m].until) == t.leases[d].quarantinedUntil;
      assert LastRelease(steps, m, k, d);
    }
  }

  /** Only a release quarantines a lease. */
  lemma RowComesFrom(t: Table, s: Step, d: string)
    requires d in Next(t, s).leases && Next(t, s).leases[d].quarantinedUntil.Some? && !Releases(s, d)
    ensures d in t.leases && t.leases[d].quarantinedUntil == Next(t, s).leases[d].quarantinedUntil
  {
    if s.AllocateStep? && s.subnet.prefix <= 32 {
      AllocateIsFirstFit(t, s.deployment, s.replica, s.now, s.subnet, s.reserved);
    }
  }

  /** Over every run, in terms of its steps alone: a deployment that held an address and no longer does was collected
      in between, at or after the end its last release asked for, and the last inventory did not observe it. */
  lemma {:induction false} LossNeedsHistory(steps: seq<Step>, i: nat, j: nat, d: string, address: nat)
    requires i <= j <= |steps| && Holds(After(steps[..i]), d, address) && !Holds(After(steps[..j]), d, address)
    ensures exists k, m: nat, r: nat ::
              && i <= k < j && IsCollection(steps[k])
              && LastInventory(steps, m, k) && d !in steps[m].observed
              && LastRelease(steps, r, k, d) && steps[r].until <= steps[k].now
    decreases j - i
  {
    assert steps[..i+1][..i] == steps[..i];
    if Holds(After(steps[..i+1]), d, address) {
      LossNeedsHistory(steps, i + 1, j, d, address);
    } else {
      LossNeedsEvidence(After(steps[..i]), steps[i], d, address);
      CheckpointIsInventory(steps, i);
      QuarantineIsRelease(steps, i, d);
      var m: nat :| LastInventory(steps, m, i);
      var r: nat :| LastRelease(steps, r, i, d) && Some(steps[r].until) == After(steps[..i]).leases[d].quarantinedUntil;
    }
  }

  /** The step may end the quarantine of the deployment before the given time, or set it anew. */
  ghost predicate Interferes(s: Step, d: string, until: nat) {
    || Releases(s, d) || (s.RecoverStep? && s.deployment == d) || (IsCollection(s) && until <= s.now)
  }

  /** Over every run: a release leaves the deployment its replica and address, quarantined until the end asked for,
      and so it stays through all steps that neither recover nor release it again and collect only before that end. */
  lemma {:induction false} QuarantineLasts(steps: seq<Step>, i: nat, j: nat, d: string)
    requires i < j <= |steps| && Releases(steps[i], d) && d in After(steps[..i]).leases
    requires forall k :: i < k < j ==> !Interferes(steps[k], d, steps[i].until)
    ensures var before, after := After(steps[..i]).leases, After(steps[..j]).leases;
            && d in after && after[d].replicaId == before[d].replicaId && after[d].address == before[d].address
            && after[d].quarantinedUntil == Some(steps[i].until)
  {
    assert steps[..j][..j-1] == steps[..j-1];
    if i + 1 < j {
      QuarantineLasts(steps, i, j - 1, d);
      QuarantineStays(After(steps[..j-1]), steps[j-1], d, steps[i].until);
    }
  }

  lemma QuarantineStays(t: Table, s: Step, d: string, until: nat)
    requires d in t.leases && t.leases[d].quarantinedUntil == Some(until) && !Interferes(s, d, until)
    ensures d in Next(t, s).leases && Next(t, s).leases[d] == t.leases[d]
  {
    if s.AllocateStep? && s.subnet.prefix <= 32 {
      AllocateIsFirstFit(t, s.deployment, s.replica, s.now, s.subnet, s.reserved);
    }
  }

  /** The other way: such a release is collected, by the first collection at or after its end, if the last inventory
      before did not observe the deployment. */
  lemma ExpiredIsCollected(steps: seq<Step>, i: nat, m: nat, k: nat, d: string)
    requires i < k < |steps| && Releases(steps[i], d) && d in After(steps[..i]).leases
    requires forall x :: i < x < k ==> !Interferes(steps[x], d, steps[i].until)
    requires LastInventory(steps, m, k) && d !in steps[m].observed
    requires steps[k].CollectStep? && steps[i].until <= steps[k].now
    ensures d !in After(steps[..k+1]).leases
  {
    QuarantineLasts(steps, i, k, d);
    CheckpointIsInventory(steps, k);
    assert steps[..k+1][..k] == steps[..k];
  }

  // ----- the store -----

  /** One observed container's labels; labels that do not parse are an empty map. */
  type Labels = map<string, string>

  function Label(labels: Labels, key: string): Option<string> {
    if key in labels && labels[key] != "" then Some(labels[key]) else None
  }

  /** What discovery reports of a container with these labels: seven of them, empty where it has none. */
  function Discovered(own: Labels): Labels {
    map key | key in {"jiji.service", "jiji.catalog-managed", "jiji.replica", "jiji.deployment", "jiji.lease",
                      "jiji.lease-owned", "jiji.lifecycle"} :: if key in own then own[key] else ""
  }

  function DiscoverAll(containers: seq<Labels>): seq<Labels> {
    seq(|containers|, i requires 0 <= i < |containers| => Discovered(containers[i]))
  }

  /** The lease a container's labels prove, if they prove one. `parse` reads an IPv4 address. */
  function LabeledLease(labels: Labels, parse: string -> Option<nat>): Option<(string, Lease)> {
    if Label(labels, "jiji.catalog-managed") != Some("true") then None
    else if Label(labels, "jiji.lease-owned") == Some("false") then None
    else
      var d, replica := Label(labels, "jiji.deployment"), Label(labels, "jiji.replica");
      var address := Label(labels, "jiji.lease");
      if d.None? || replica.None? || address.None? || parse(address.value).None? then None
      else Some((d.value, Lease(replica.value, parse(address.value).value, None)))
  }

  /** A container's own labels prove a lease: it is managed by the catalog, its lease is not another's, and it names
      deployment, replica and an address. */
  ghost predicate Proves(own: Labels, parse: string -> Option<nat>, d: string, lease: Lease) {
    && "jiji.catalog-managed" in own && own["jiji.catalog-managed"] == "true"
    && !("jiji.lease-owned" in own && own["jiji.lease-owned"] == "false")
    && d != "" && "jiji.deployment" in own && own["jiji.deployment"] == d
    && lease.replicaId != "" && "jiji.replica" in own && own["jiji.replica"] == lease.replicaId
    && "jiji.lease" in own && own["jiji.lease"] != "" && parse(own["jiji.lease"]) == Some(lease.address)
    && lease.quarantinedUntil == None
  }

  /** Recovery reads from what discovery reports exactly what the container's own labels prove. */
  lemma ProvesIff(own: Labels, parse: string -> Option<nat>, d: string, lease: Lease)
    ensures LabeledLease(Discovered(own), parse) == Some((d, lease)) <==> Proves(own, parse, d, lease)
  {
    LabelsAreSeen(own);
  }

  lemma LabelsAreSeen(own: Labels)
    ensures var seen := Discovered(own);
            && Label(seen, "jiji.catalog-managed") == Label(own, "jiji.catalog-managed")
            && Label(seen, "jiji.lease-owned") == Label(own, "jiji.lease-owned")
            && Label(seen, "jiji.deployment") == Label(own, "jiji.deployment")
            && Label(seen, "jiji.replica") == Label(own, "jiji.replica")
            && Label(seen, "jiji.lease") == Label(own, "jiji.lease")
  {
  }

  function RecoverAll(t: Table, observations: seq<Labels>, parse: string -> Option<nat>): Table {
    if observations == [] then t
    else
      var before := RecoverAll(t, observations[..|observations|-1], parse);
      match LabeledLease(observations[|observations|-1], parse)
      case None => before
      case Some((d, lease)) => Recover(before, d, lease.replicaId, lease.address)
  }

  /** How many of the observations end with the lease they prove in force. */
  function RecoveredCount(t: Table, observations: seq<Labels>, parse: string -> Option<nat>): nat {
    if observations == [] then 0
    else
      var init := observations[..|observations|-1];
      var u := RecoverAll(t, observations, parse);
      RecoveredCount(t, init, parse)
      + match LabeledLease(observations[|observations|-1], parse)
        case None => 0
        case Some((d, lease)) => if d in u.leases && u.leases[d] == lease then 1 else 0
  }

  /** Every lease keeps its replica and address, at most losing its quarantine. */
  ghost predicate KeepsLeases(t: Table, u: Table) {
    && u.checkpoint == t.checkpoint && u.observed == t.observed
    && forall d :: d in t.leases ==>
         d in u.leases && u.leases[d].replicaId == t.leases[d].replicaId && u.leases[d].address == t.leases[d].address
         && u.leases[d].quarantinedUntil in {None, t.leases[d].quarantinedUntil}
  }

  lemma RecoverKeepsLeases(t: Table, u: Table, d: string, replica: string, address: nat)
    requires KeepsLeases(t, u)
    ensures KeepsLeases(t, Recover(u, d, replica, address))
  {
  }

  /** Reconstruction from labels never steals: every lease that existed keeps its replica and address,
      at most losing its quarantine, and addresses stay one to one. */
  lemma {:induction false} RecoveryNeverSteals(t: Table, observations: seq<Labels>, parse: string -> Option<nat>)
    requires OneToOne(t)
    ensures OneToOne(RecoverAll(t, observations, parse)) && KeepsLeases(t, RecoverAll(t, observations, parse))
  {
    if observations != [] {
      RecoveryNeverSteals(t, observations[..|observations|-1], parse);
      var before := RecoverAll(t, observations[..|observations|-1], parse);
      match LabeledLease(observations[|observations|-1], parse)
      case None =>
      case Some((d, lease)) =>
        RecoverKeepsOneToOne(before, d, lease.replicaId, lease.address);
        RecoverKeepsLeases(t, before, d, lease.replicaId, lease.address);
    }
  }

  lemma RowIsOldOrProved(t: Table, labels: Labels, parse: string -> Option<nat>, d: string)
    requires d in RecoverAll(t, [labels], parse).leases
    ensures var row := RecoverAll(t, [labels], parse).leases[d];
            (d in t.leases && row == t.leases[d]) || LabeledLease(labels, parse) == Some((d, row))
  {
    assert [labels][..0] == [] && RecoverAll(t, [], parse) == t;
  }

  /** Every row after a recovery is as it was before, or proved by a container. */
  lemma {:induction false} RecoveryNeedsProof(t: Table, containers: seq<Labels>, parse: string -> Option<nat>,
                                              d: string)
    requires d in RecoverAll(t, DiscoverAll(containers), parse).leases
    ensures var row := RecoverAll(t, DiscoverAll(containers), parse).leases[d];
            (d in t.leases && row == t.leases[d]) || exists own :: own in containers && Proves(own, parse, d, row)
  {
    if containers != [] {
      var init, last := containers[..|containers|-1], containers[|containers|-1];
      assert DiscoverAll(containers)[..|containers|-1] == DiscoverAll(init) && last in containers;
      var before := RecoverAll(t, DiscoverAll(init), parse);
      var row := RecoverAll(t, DiscoverAll(containers), parse).leases[d];
      RecoverLast(t, DiscoverAll(containers), parse);
      RowIsOldOrProved(before, Discovered(last), parse, d);
      if d in before.leases && row == before.leases[d] {
        RecoveryNeedsProof(t, init, parse, d);
      } else {
        ProvesIff(last, parse, d, row);
      }
    }
  }

  lemma RecoveredRow(t: Table, labels: Labels, parse: string -> Option<nat>, d: string, lease: Lease)
    requires d in t.leases && lease.quarantinedUntil == None
    requires t.leases[d].replicaId == lease.replicaId && t.leases[d].address == lease.address
    ensures var u := RecoverAll(t, [labels], parse);
            && d in u.leases && u.leases[d].replicaId == lease.replicaId && u.leases[d].address == lease.address
            && (t.leases[d] == lease || LabeledLease(labels, parse) == Some((d, lease)) ==> u.leases[d] == lease)
  {
    assert [labels][..0] == [] && RecoverAll(t, [], parse) == t;
  }

  lemma RecoverLast(t: Table, observations: seq<Labels>, parse: string -> Option<nat>)
    requires observations != []
    ensures RecoverAll(t, observations, parse) ==
            RecoverAll(RecoverAll(t, observations[..|observations|-1], parse), [observations[|observations|-1]], parse)
  {
    assert [observations[|observations|-1]][..0] == [];
  }

  /** A lease that a container proves is active after the recovery, if its deployment had it before. */
  lemma {:induction false} RecoveryRevives(t: Table, observations: seq<Labels>, parse: string -> Option<nat>, d: string,
                                           lease: Lease)
    requires d in t.leases && lease.quarantinedUntil == None
    requires t.leases[d].replicaId == lease.replicaId && t.leases[d].address == lease.address
    ensures var u := RecoverAll(t, observations, parse);
            && d in u.leases && u.leases[d].replicaId == lease.replicaId && u.leases[d].address == lease.address
            && ((exists labels :: labels in observations && LabeledLease(labels, parse) == Some((d, lease))) ==>
                  u.leases[d] == lease)
  {
    if observations != [] {
      var init, last := observations[..|observations|-1], observations[|observations|-1];
      RecoveryRevives(t, init, parse, d, lease);
      RecoverLast(t, observations, parse);
      RecoveredRow(RecoverAll(t, init, parse), last, parse, d, lease);
      assert observations == init + [last];
    }
  }

  ghost predicate IsEffective(t: Table, observations: seq<Labels>, parse: string -> Option<nat>, i: nat) {
    && i < |observations| && LabeledLease(observations[i], parse).Some?
    && var (d, lease) := LabeledLease(observations[i], parse).value;
       var u := RecoverAll(t, observations[..i+1], parse); d in u.leases && u.leases[d] == lease
  }

  ghost function Satisfying(n: nat, p: nat -> bool): set<nat> { set i: nat | i < n && p(i) }

  lemma SatisfyingOneMore(n: nat, p: nat -> bool)
    ensures |Satisfying(n + 1, p)| == |Satisfying(n, p)| + if p(n) then 1 else 0
  {
    assert Satisfying(n + 1, p) == if p(n) then Satisfying(n, p) + {n} else Satisfying(n, p);
  }

  ghost function Effective(t: Table, observations: seq<Labels>, parse: string -> Option<nat>): nat -> bool {
    (i: nat) => IsEffective(t, observations, parse, i)
  }

  lemma CountOneMore(t: Table, observations: seq<Labels>, parse: string -> Option<nat>, n: nat)
    requires n < |observations|
    ensures RecoveredCount(t, observations[..n+1], parse) ==
            RecoveredCount(t, observations[..n], parse) + if Effective(t, observations, parse)(n) then 1 else 0
  {
    assert observations[..n+1][..n] == observations[..n];
  }

  /** The count is the number of observations whose lease is in force once they have been recovered. */
  lemma {:induction false} CountIsOfEffective(t: Table, observations: seq<Labels>, parse: string -> Option<nat>, n: nat)
    requires n <= |observations|
    ensures RecoveredCount(t, observations[..n], parse) == |Satisfying(n, Effective(t, observations, parse))|
  {
    if n > 0 {
      CountIsOfEffective(t, observations, parse, n - 1);
      CountOneMore(t, observations, parse, n - 1);
      SatisfyingOneMore(n - 1, Effective(t, observations, parse));
    }
  }

  /** A collection removes exactly the expired leases that no observation claims. */
  lemma CollectIsRemoval(t: Table, now: nat, expired: set<string>)
    requires t.checkpoint
    requires forall d :: d in expired <==>
               d in t.leases && t.leases[d].quarantinedUntil.Some? && t.leases[d].quarantinedUntil.value <= now
    ensures Collect(t, now).leases == t.leases - (expired - t.observed)
  {
  }

  lemma RemoveOneMore(m: map<string, Lease>, gone: set<string>, d: string)
    ensures m - gone - {d} == m - (gone + {d})
  {
  }

  lemma SizeWithout(m: map<string, Lease>, d: string)
    requires d in m
    ensures |m - {d}| == |m| - 1
  {
    assert m.Keys == (m - {d}).Keys + {d};
  }

  datatype ClaimResult = Granted | Refused | UniqueViolation

  class LeaseStore {
    var leases: map<string, Lease>
    var checkpoint: bool
    var observed: set<string>

    function Contents(): Table
      reads this
    {
      Table(leases, checkpoint, observed)
    }

    constructor ()
      ensures Contents() == Table(map[], false, {})
    {
      leases, checkpoint, observed := map[], false, {};
    }

    /** Inserts a lease unless the deployment has one; another deployment's address is an error. */
    method ClaimAddressLease(d: string, replica: string, address: nat) returns (result: ClaimResult)
      modifies this`leases
      ensures Contents() == Claim(old(Contents()), d, replica, address)
      ensures result.UniqueViolation? <==>
              d !in old(leases) && exists e :: e in old(leases) && old(leases)[e].address == address
      ensures result.Granted? <==> d in leases && leases[d].replicaId == replica && leases[d].address == address
      ensures forall e :: e in old(leases) ==> e in leases && leases[e] == old(leases)[e]
      ensures forall e :: e in leases && e !in old(leases) ==> e == d && leases[e] == Lease(replica, address, None)
    {
      if d in leases {
        return if leases[d].replicaId == replica && leases[d].address == address then Granted else Refused;
      }
      if address in Used(Contents()) { return UniqueViolation; }
      leases := leases[d := Lease(replica, address, None)];
      return Granted;
    }

    method RecoverAddressLease(d: string, replica: string, address: nat) returns (recovered: bool)
      modifies this`leases
      ensures Contents() == Recover(old(Contents()), d, replica, address)
      ensures recovered <==> d in leases && leases[d] == Lease(replica, address, None)
      ensures recovered <==>
              if d in old(leases) then old(leases)[d].replicaId == replica && old(leases)[d].address == address
              else forall e :: e in old(leases) ==> old(leases)[e].address != address
      ensures leases == if recovered then old(leases)[d := Lease(replica, address, None)] else old(leases)
    {
      if d in leases {
        var existing := leases[d];
        if existing.replicaId != replica || existing.address != address { return false; }
        leases := leases[d := existing.(quarantinedUntil := None)];
        return true;
      }
      if address in Used(Contents()) { return false; }
      leases := leases[d := Lease(replica, address, None)];
      return true;
    }

    method RecoverLabeledLeases(observations: seq<Labels>, parse: string -> Option<nat>) returns (count: nat)
      modifies this`leases
      ensures Contents() == RecoverAll(old(Contents()), observations, parse)
      ensures count == RecoveredCount(old(Contents()), observations, parse)
    {
      count := 0;
      for i := 0 to |observations|
        invariant Contents() == RecoverAll(old(Contents()), observations[..i], parse)
        invariant count == RecoveredCount(old(Contents()), observations[..i], parse)
      {
        assert observations[..i+1][..i] == observations[..i];
        match LabeledLease(observations[i], parse)
        case None =>
        case Some((d, lease)) =>
          var recovered := RecoverAddressLease(d, lease.replicaId, lease.address);
          if recovered { count := count + 1; }
      }
      assert observations[..|observations|] == observations;
    }

    method QuarantineAddressLease(d: string, until: nat) returns (released: bool)
      modifies this`leases
      ensures Contents() == Quarantine(old(Contents()), d, until)
      ensures released <==> d in old(leases)
      ensures leases == if d in old(leases)
                        then old(leases)[d := Lease(old(leases)[d].replicaId, old(leases)[d].address, Some(until))]
                        else old(leases)
    {
      released := d in leases;
      if released { leases := leases[d := leases[d].(quarantinedUntil := Some(until))]; }
    }

    method Release(d: string, timestamp: nat, seconds: nat) returns (released: bool)
      modifies this`leases
      ensures Contents() == Quarantine(old(Contents()), d, SaturatingAdd(timestamp, seconds))
      ensures released <==> d in old(leases)
      ensures released ==>
                && d in leases && leases[d].quarantinedUntil.Some?
                && var until := leases[d].quarantinedUntil.value;
                   until <= U64_MAX && (until == timestamp + seconds || (until == U64_MAX < timestamp + seconds))
    {
      released := QuarantineAddressLease(d, SaturatingAdd(timestamp, seconds));
    }

    /** Deletes the given deployments' leases, except those an observation still claims. */
    method DeleteUnclaimed(expired: set<string>) returns (removed: nat)
      requires expired <= leases.Keys
      modifies this`leases
      ensures leases == old(leases) - (expired - observed)
      ensures removed == |old(leases)| - |leases|
    {
      removed := 0;
      var pending := expired;
      ghost var gone: set<string> := {};
      while pending != {}
        invariant pending <= expired && gone !! pending
        invariant gone <= expired - observed <= gone + pending
        invariant leases == old(leases) - gone
        invariant removed == |old(leases)| - |leases|
      {
        var d :| d in pending;
        pending := pending - {d};
        if d !in observed {
          SizeWithout(leases, d);
          RemoveOneMore(old(leases), gone, d);
          leases := leases - {d};
          removed := removed + 1;
          gone := gone + {d};
        }
      }
      assert gone == expired - observed;
    }

    method CollectExpiredAddressLeases(now: nat) returns (removed: nat)
      modifies this`leases
      ensures Contents() == Collect(old(Contents()), now)
      ensures removed == |old(leases)| - |leases|
      ensures forall d :: d in leases <==> IsKept(old(Contents()), d, now)
      ensures forall d :: d in leases ==> leases[d] == old(leases)[d]
    {
      if !checkpoint {
        assert leases == Collect(Contents(), now).leases;
        return 0;
      }
      var expired := set d | d in leases && leases[d].quarantinedUntil.Some? && leases[d].quarantinedUntil.value <= now;
      CollectIsRemoval(Contents(), now, expired);
      removed := DeleteUnclaimed(expired);
    }

    method AllocateAddress(d: string, replica: string, now: nat, subnet: Cidr,
                           reserved: set<nat>) returns (r: Allocation)
      requires ValidCidr(subnet)
      modifies this`leases
      ensures (Contents(), r) == Allocate(old(Contents()), d, replica, now, subnet, reserved)
    {
      var _ := CollectExpiredAddressLeases(now);
      if d in leases { return Leased(leases[d]); }
      var used := Used(Contents());
      var offset := 1;
      while offset + 1 < AddressCount(subnet)
        invariant offset >= 1 && Contents() == Collect(old(Contents()), now) && used == Used(Contents())
        invariant FirstFree(Contents(), subnet, reserved, 1) == FirstFree(Contents(), subnet, reserved, offset)
        decreases AddressCount(subnet) - offset
      {
        var address := subnet.network + offset;
        if address !in reserved && address !in used {
          var result := ClaimAddressLease(d, replica, address);
          assert result.Granted?;
          return Leased(leases[d]);
        }
        offset := offset + 1;
      }
      return Exhausted;
    }
  }
}
