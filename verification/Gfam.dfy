/**
  The access-control table of global fabric-attached memory in src/dcd_gfam.cpp, layered on a dynamic
  capacity device: hosts, permission mappings, per-host access counts and bandwidth shares, and the
  latency of each access. Calls are served one at a time. Counters are unbounded and the floating-point
  numbers are reals.
 */
module Gfam {
  import opened Common
  import Dcd
  import opened History
  import opened Sorting

  const PERM_READ: bv32 := 1
  const PERM_WRITE: bv32 := 2
  const PERM_ATOMIC: bv32 := 4
  const PERM_SHARED: bv32 := 8

  datatype Host = Host(id: nat, name: string, active: bool, share: real,
                       readCount: nat, writeCount: nat, atomicCount: nat)

  datatype Mapping = Mapping(host: nat, base: nat, size: nat, perms: bv32)

  /** In gigabits per second; the constructor allows no less than 1. */
  type Bandwidth = b: real | b >= 1.0 witness 1.0

  /** What an access costs at least, in nanoseconds, and how fast the fabric is. */
  datatype Fabric = Fabric(latency: real, bandwidth: Bandwidth)

  datatype Table = Table(fabric: Fabric, hosts: map<nat, Host>, mappings: seq<Mapping>,
                         denied: nat, accesses: nat, totalLatency: int)
  {
    predicate IsActive(host: nat) {
      host in hosts && hosts[host].active
    }
  }

  /** One access: who, where, and of which kind. An atomic counts as atomic whatever `isWrite` says. */
  datatype Access = Access(host: nat, addr: nat, size: nat, isWrite: bool, isAtomic: bool)

  function Required(a: Access): bv32 {
    if a.isAtomic then PERM_ATOMIC | PERM_READ | PERM_WRITE
    else if a.isWrite then PERM_WRITE else PERM_READ
  }

  predicate Allows(m: Mapping, a: Access) {
    m.host == a.host && Dcd.RangeContains(m.base, m.size, a.addr, a.size) && (m.perms & Required(a)) == Required(a)
  }

  /** The decision of check_access; `device` is None when the table has no device behind it. */
  predicate MayAccess(device: Option<Dcd.Device>, t: Table, a: Access) {
    && device.Some? && Dcd.IsAllocated(device.value, a.addr, a.size)
    && t.IsActive(a.host)
    && exists i :: 0 <= i < |t.mappings| && Allows(t.mappings[i], a)
  }

  predicate SameKey(m: Mapping, host: nat, base: nat, size: nat) {
    m.host == host && m.base == base && m.size == size
  }

  function FirstWithKey(ms: seq<Mapping>, host: nat, base: nat, size: nat): (k: nat)
    ensures k <= |ms|
    ensures k < |ms| ==> SameKey(ms[k], host, base, size)
    ensures forall i :: 0 <= i < k ==> !SameKey(ms[i], host, base, size)
  {
    if ms == [] || SameKey(ms[0], host, base, size) then 0 else 1 + FirstWithKey(ms[1..], host, base, size)
  }

  /** The mappings that satisfy a predicate, in order. */
  function Keep(ms: seq<Mapping>, p: Mapping -> bool): seq<Mapping> {
    if ms == [] then [] else (if p(ms[0]) then [ms[0]] else []) + Keep(ms[1..], p)
  }

  // ---------------------------------------------------------------------------------------------
  // Operations on the table
  // ---------------------------------------------------------------------------------------------

  function ActiveHosts(hosts: map<nat, Host>): set<nat> {
    set k | k in hosts && hosts[k].active
  }

  function EvenShare(hosts: map<nat, Host>): real {
    if ActiveHosts(hosts) == {} then 0.0 else 1.0 / |ActiveHosts(hosts)| as real
  }

  /** The active hosts share the bandwidth evenly; the others have none. */
  function Rebalance(hosts: map<nat, Host>): map<nat, Host> {
    map k | k in hosts :: hosts[k].(share := if hosts[k].active then EvenShare(hosts) else 0.0)
  }

  const NEW_HOST := Host(0, "", true, 0.0, 0, 0, 0)

  function Activated(hosts: map<nat, Host>, host: nat, name: string): map<nat, Host> {
    var h := if host in hosts then hosts[host] else NEW_HOST;
    hosts[host := h.(id := host, name := name, active := true)]
  }

  function Deactivated(hosts: map<nat, Host>, host: nat): map<nat, Host> {
    if host in hosts then hosts[host := hosts[host].(active := false)] else hosts
  }

  function Register(t: Table, host: nat, name: string): Table {
    t.(hosts := Rebalance(Activated(t.hosts, host, name)))
  }

  function Unregister(t: Table, host: nat): Table {
    t.(hosts := Rebalance(Deactivated(t.hosts, host)),
       mappings := Keep(t.mappings, (m: Mapping) => m.host != host))
  }

  function Grant(device: Option<Dcd.Device>, t: Table, host: nat, base: nat, size: nat, perms: bv32)
    : (Table, Dcd.Status)
  {
    if device.None? || !Dcd.IsAllocated(device.value, base, size) || perms == 0 then
      (t, Dcd.InvalidRequest)
    else if !t.IsActive(host) then
      (t, Dcd.AccessDenied)
    else
      var k := FirstWithKey(t.mappings, host, base, size);
      (t.(mappings := if k < |t.mappings| then t.mappings[k := t.mappings[k].(perms := perms)]
                      else t.mappings + [Mapping(host, base, size, perms)]), Dcd.Ok)
  }

  function Revoke(t: Table, host: nat, base: nat, size: nat): (Table, Dcd.Status) {
    var kept := Keep(t.mappings, (m: Mapping) => !SameKey(m, host, base, size));
    (t.(mappings := kept), if |kept| == |t.mappings| then Dcd.NotFound else Dcd.Ok)
  }

  function RevokeExtent(t: Table, base: nat, size: nat): Table {
    t.(mappings := Keep(t.mappings, (m: Mapping) => !(m.base == base && m.size == size)))
  }

  function CountAccess(h: Host, a: Access): Host {
    if a.isAtomic then h.(atomicCount := h.atomicCount + 1)
    else if a.isWrite then h.(writeCount := h.writeCount + 1)
    else h.(readCount := h.readCount + 1)
  }

  /** A host without a share is charged as if it had all the bandwidth. */
  function EffectiveShare(t: Table, host: nat): (share: real)
    ensures share > 0.0
  {
    if host in t.hosts && t.hosts[host].share > 0.0 then t.hosts[host].share else 1.0
  }

  /** The fabric, the transfer at the host's share of the bandwidth, and a penalty for sharing. */
  function AccessLatency(t: Table, host: nat, size: nat): real {
    var share := EffectiveShare(t, host);
    var bandwidth := t.fabric.bandwidth * share;
    assert bandwidth > 0.0;
    var transfer := size as real * 8.0 / (bandwidth * 1_000_000_000.0) * 1_000_000_000.0;
    var penalty := if share < 1.0 then t.fabric.latency * (1.0 / share - 1.0) * 0.25 else 0.0;
    t.fabric.latency + transfer + penalty
  }

  datatype AccessResult = AccessResult(allowed: bool, status: Dcd.Status, latency: real)

  /** record_access: decide, and count the decision. */
  function Record(device: Option<Dcd.Device>, t: Table, a: Access): (Table, AccessResult) {
    if MayAccess(device, t, a) then
      var latency := AccessLatency(t, a.host, a.size);
      (t.(hosts := t.hosts[a.host := CountAccess(t.hosts[a.host], a)], accesses := t.accesses + 1,
          totalLatency := t.totalLatency + latency.Floor),
       AccessResult(true, Dcd.Ok, latency))
    else
      (t.(denied := t.denied + 1), AccessResult(false, Dcd.AccessDenied, 0.0))
  }

  // ---------------------------------------------------------------------------------------------
  // The device and the table together
  // ---------------------------------------------------------------------------------------------

  datatype System = System(device: Dcd.Device, table: Table)

  datatype Op =
    | Capacity(op: Dcd.Op)
    | RegisterHost(host: nat, name: string)
    | UnregisterHost(host: nat)
    | GrantAccess(host: nat, base: nat, size: nat, perms: bv32)
    | RevokeAccess(host: nat, base: nat, size: nat)
    | RevokeRange(base: nat, size: nat)
    | RecordAccess(access: Access)

  function Step(s: System, op: Op): System
    requires s.device.granule >= 1
  {
    match op
    case Capacity(o) => s.(device := Dcd.Apply(s.device, o))
    case RegisterHost(host, name) => s.(table := Register(s.table, host, name))
    case UnregisterHost(host) => s.(table := Unregister(s.table, host))
    case GrantAccess(host, base, size, perms) =>
      s.(table := Grant(Some(s.device), s.table, host, base, size, perms).0)
    case RevokeAccess(host, base, size) => s.(table := Revoke(s.table, host, base, size).0)
    case RevokeRange(base, size) => s.(table := RevokeExtent(s.table, base, size))
    case RecordAccess(a) => s.(table := Record(Some(s.device), s.table, a).0)
  }

  function Run(s: System, ops: seq<Op>): System
    requires s.device.granule >= 1
    decreases |ops|
  {
    if ops == [] then s else Run(Step(s, ops[0]), ops[1..])
  }

  ghost predicate Legal(ops: seq<Op>) {
    forall i :: 0 <= i < |ops| && ops[i].Capacity? ==> Dcd.Legal(ops[i].op)
  }

  function NewSystem(total: nat, granule: nat, fabric: Fabric): System {
    System(Dcd.NewDevice(total, granule), EmptyTable(fabric))
  }

  function EmptyTable(fabric: Fabric): Table {
    Table(fabric, map[], [], 0, 0, 0)
  }

  // ---------------------------------------------------------------------------------------------
  // Sums over the hosts
  // ---------------------------------------------------------------------------------------------

  function OpsOf(h: Host): nat {
    h.readCount + h.writeCount + h.atomicCount
  }

  ghost function SumBy(hosts: map<nat, Host>, f: Host -> nat): nat {
    if hosts == map[] then 0 else var k :| k in hosts; f(hosts[k]) + SumBy(hosts - {k}, f)
  }

  lemma {:induction false} SumByPicks(hosts: map<nat, Host>, f: Host -> nat, k: nat)
    requires k in hosts
    ensures SumBy(hosts, f) == f(hosts[k]) + SumBy(hosts - {k}, f)
    decreases |hosts|
  {
    var j :| j in hosts && SumBy(hosts, f) == f(hosts[j]) + SumBy(hosts - {j}, f);
    if j != k {
      SumByPicks(hosts - {j}, f, k);
      SumByPicks(hosts - {k}, f, j);
      assert hosts - {j} - {k} == hosts - {k} - {j};
    }
  }

  lemma SumByUpdate(hosts: map<nat, Host>, f: Host -> nat, k: nat, h: Host)
    ensures SumBy(hosts[k := h], f) == SumBy(hosts, f) - (if k in hosts then f(hosts[k]) else 0) + f(h)
  {
    SumByPicks(hosts[k := h], f, k);
    if k in hosts {
      SumByPicks(hosts, f, k);
      assert hosts[k := h] - {k} == hosts - {k};
    } else {
      assert hosts[k := h] - {k} == hosts;
    }
  }

  /** Hosts that differ only in what `f` ignores give the same sum. */
  lemma {:induction false} SumByAgrees(hosts: map<nat, Host>, others: map<nat, Host>, f: Host -> nat)
    requires hosts.Keys == others.Keys
    requires forall k :: k in hosts ==> f(hosts[k]) == f(others[k])
    ensures SumBy(hosts, f) == SumBy(others, f)
    decreases |hosts|
  {
    if k :| k in hosts {
      SumByPicks(hosts, f, k);
      SumByPicks(others, f, k);
      SumByAgrees(hosts - {k}, others - {k}, f);
    } else {
      assert hosts == map[] && others == map[];
    }
  }

  // ---------------------------------------------------------------------------------------------
  // The table's invariant
  // ---------------------------------------------------------------------------------------------

  predicate DifferentKeys(m: Mapping, n: Mapping) {
    !(m.host == n.host && m.base == n.base && m.size == n.size)
  }

  /** Every active host has an even share of the bandwidth and the others have none. */
  ghost predicate EvenShares(hosts: map<nat, Host>) {
    forall k :: k in hosts ==> hosts[k].share == if hosts[k].active then EvenShare(hosts) else 0.0
  }

  /**
    Mappings belong to active hosts, have unique keys and grant something; allowed accesses are all
    counted; the bandwidth is shared evenly.
   */
  ghost predicate TableInv(t: Table) {
    && EvenShares(t.hosts)
    && (forall i :: 0 <= i < |t.mappings| ==> t.IsActive(t.mappings[i].host) && t.mappings[i].perms != 0)
    && Pairwise(t.mappings, DifferentKeys)
    && t.accesses == SumBy(t.hosts, OpsOf)
  }

  lemma {:induction false} KeepElements(ms: seq<Mapping>, p: Mapping -> bool)
    ensures forall m :: m in Keep(ms, p) <==> m in ms && p(m)
    ensures Pairwise(ms, DifferentKeys) ==> Pairwise(Keep(ms, p), DifferentKeys)
    ensures |Keep(ms, p)| <= |ms| && (|Keep(ms, p)| == |ms| <==> forall m :: m in ms ==> p(m))
  {
    if ms != [] {
      KeepElements(ms[1..], p);
      assert ms == [ms[0]] + ms[1..];
      var rest := Keep(ms[1..], p);
      if Pairwise(ms, DifferentKeys) {
        assert Pairwise(ms[1..], DifferentKeys);
        forall j | 0 <= j < |rest| ensures DifferentKeys(ms[0], rest[j]) {
          assert rest[j] in ms[1..];
        }
      }
    }
  }

  lemma KeepKeepsInv(t: Table, p: Mapping -> bool)
    requires TableInv(t)
    ensures TableInv(t.(mappings := Keep(t.mappings, p)))
  {
    KeepElements(t.mappings, p);
    var kept := Keep(t.mappings, p);
    forall i | 0 <= i < |kept| ensures t.IsActive(kept[i].host) && kept[i].perms != 0 {
      assert kept[i] in t.mappings;
    }
  }

  lemma RebalanceIsEven(hosts: map<nat, Host>)
    ensures EvenShares(Rebalance(hosts))
    ensures SumBy(Rebalance(hosts), OpsOf) == SumBy(hosts, OpsOf)
  {
    assert ActiveHosts(Rebalance(hosts)) == ActiveHosts(hosts);
    SumByAgrees(Rebalance(hosts), hosts, OpsOf);
  }

  lemma RegisterKeepsInv(t: Table, host: nat, name: string)
    requires TableInv(t)
    ensures TableInv(Register(t, host, name))
  {
    var hosts := Activated(t.hosts, host, name);
    SumByUpdate(t.hosts, OpsOf, host, hosts[host]);
    RebalanceIsEven(hosts);
  }

  /** Only the mappings of the dropped host refer to it. */
  lemma UnregisterKeepsMappings(t: Table, host: nat)
    requires TableInv(t)
    ensures var t' := Unregister(t, host);
            && (forall i :: 0 <= i < |t'.mappings| ==> t'.IsActive(t'.mappings[i].host) && t'.mappings[i].perms != 0)
            && Pairwise(t'.mappings, DifferentKeys)
  {
    var others := (m: Mapping) => m.host != host;
    KeepElements(t.mappings, others);
    var t' := Unregister(t, host);
    assert t'.mappings == Keep(t.mappings, others);
    forall i | 0 <= i < |t'.mappings| ensures t'.IsActive(t'.mappings[i].host) && t'.mappings[i].perms != 0 {
      assert t'.mappings[i] in t.mappings && t'.mappings[i].host != host;
    }
  }

  lemma UnregisterKeepsInv(t: Table, host: nat)
    requires TableInv(t)
    ensures TableInv(Unregister(t, host))
  {
    UnregisterKeepsMappings(t, host);
    RebalanceIsEven(Deactivated(t.hosts, host));
    if host in t.hosts {
      SumByUpdate(t.hosts, OpsOf, host, t.hosts[host].(active := false));
    }
  }

  lemma GrantKeepsInv(device: Option<Dcd.Device>, t: Table, host: nat, base: nat, size: nat, perms: bv32)
    requires TableInv(t)
    ensures TableInv(Grant(device, t, host, base, size, perms).0)
  {
  }

  lemma RecordKeepsInv(device: Option<Dcd.Device>, t: Table, a: Access)
    requires TableInv(t)
    ensures TableInv(Record(device, t, a).0)
  {
    if MayAccess(device, t, a) {
      SumByUpdate(t.hosts, OpsOf, a.host, CountAccess(t.hosts[a.host], a));
      assert ActiveHosts(Record(device, t, a).0.hosts) == ActiveHosts(t.hosts);
    }
  }

  lemma StepKeepsInv(s: System, op: Op)
    requires Dcd.Valid(s.device) && TableInv(s.table) && (op.Capacity? ==> Dcd.Legal(op.op))
    ensures Dcd.Valid(Step(s, op).device) && TableInv(Step(s, op).table)
  {
    match op
    case Capacity(o) => Dcd.RunKeepsValid(s.device, [o]);
    case RegisterHost(host, name) => RegisterKeepsInv(s.table, host, name);
    case UnregisterHost(host) => UnregisterKeepsInv(s.table, host);
    case GrantAccess(host, base, size, perms) =>
      GrantKeepsInv(Some(s.device), s.table, host, base, size, perms);
    case RevokeAccess(host, base, size) => KeepKeepsInv(s.table, (m: Mapping) => !SameKey(m, host, base, size));
    case RevokeRange(base, size) => KeepKeepsInv(s.table, (m: Mapping) => !(m.base == base && m.size == size));
    case RecordAccess(a) => RecordKeepsInv(Some(s.device), s.table, a);
  }

  // ---------------------------------------------------------------------------------------------
  // Accounting on every run
  // ---------------------------------------------------------------------------------------------

  function AccessCalls(ops: seq<Op>): nat {
    if ops == [] then 0 else (if ops[0].RecordAccess? then 1 else 0) + AccessCalls(ops[1..])
  }

  datatype Kind = ReadKind | WriteKind | AtomicKind

  function KindOf(a: Access): Kind {
    if a.isAtomic then AtomicKind else if a.isWrite then WriteKind else ReadKind
  }

  function CountOf(t: Table, host: nat, kind: Kind): nat {
    if host !in t.hosts then 0
    else match kind
         case ReadKind => t.hosts[host].readCount
         case WriteKind => t.hosts[host].writeCount
         case AtomicKind => t.hosts[host].atomicCount
  }

  /** The accesses of one kind by one host that check_access would allow at the moment they are made. */
  function AllowedIn(s: System, ops: seq<Op>, host: nat, kind: Kind): nat
    requires s.device.granule >= 1
    decreases |ops|
  {
    if ops == [] then 0
    else (if ops[0].RecordAccess? && ops[0].access.host == host && KindOf(ops[0].access) == kind
             && MayAccess(Some(s.device), s.table, ops[0].access) then 1 else 0)
         + AllowedIn(Step(s, ops[0]), ops[1..], host, kind)
  }

  /** The whole nanoseconds of the accesses that are allowed when they are made. */
  function LatencyIn(s: System, ops: seq<Op>): int
    requires s.device.granule >= 1
    decreases |ops|
  {
    if ops == [] then 0
    else (if ops[0].RecordAccess? && MayAccess(Some(s.device), s.table, ops[0].access)
          then AccessLatency(s.table, ops[0].access.host, ops[0].access.size).Floor else 0)
         + LatencyIn(Step(s, ops[0]), ops[1..])
  }

  lemma StepAccounts(s: System, op: Op)
    requires s.device.granule >= 1
    ensures var t, t' := s.table, Step(s, op).table;
            && t'.fabric == t.fabric
            && t'.accesses + t'.denied == t.accesses + t.denied + AccessCalls([op])
            && t'.totalLatency == t.totalLatency + LatencyIn(s, [op])
  {
    assert [op][1..] == [];
  }

  lemma StepCounts(s: System, op: Op, host: nat, kind: Kind)
    requires s.device.granule >= 1
    ensures CountOf(Step(s, op).table, host, kind) == CountOf(s.table, host, kind) + AllowedIn(s, [op], host, kind)
  {
    assert [op][1..] == [];
  }

  lemma {:induction false} RunKeepsInv(s: System, ops: seq<Op>)
    requires Dcd.Valid(s.device) && TableInv(s.table) && Legal(ops)
    ensures Dcd.Valid(Run(s, ops).device) && TableInv(Run(s, ops).table)
    decreases |ops|
  {
    if ops != [] {
      StepKeepsInv(s, ops[0]);
      RunKeepsInv(Step(s, ops[0]), ops[1..]);
    }
  }

  lemma {:induction false} RunAccounts(s: System, ops: seq<Op>)
    requires s.device.granule >= 1
    ensures var s' := Run(s, ops);
            && s'.table.fabric == s.table.fabric
            && s'.table.accesses + s'.table.denied == s.table.accesses + s.table.denied + AccessCalls(ops)
            && s'.table.totalLatency == s.table.totalLatency + LatencyIn(s, ops)
    decreases |ops|
  {
    if ops != [] {
      StepAccounts(s, ops[0]);
      RunAccounts(Step(s, ops[0]), ops[1..]);
      assert AccessCalls(ops) == AccessCalls([ops[0]]) + AccessCalls(ops[1..]);
      assert LatencyIn(s, ops) == LatencyIn(s, [ops[0]]) + LatencyIn(Step(s, ops[0]), ops[1..]);
    }
  }

  lemma {:induction false} RunCounts(s: System, ops: seq<Op>, host: nat, kind: Kind)
    requires s.device.granule >= 1
    ensures CountOf(Run(s, ops).table, host, kind)
         == CountOf(s.table, host, kind) + AllowedIn(s, ops, host, kind)
    decreases |ops|
  {
    if ops != [] {
      StepCounts(s, ops[0], host, kind);
      RunCounts(Step(s, ops[0]), ops[1..], host, kind);
      assert AllowedIn(s, ops, host, kind)
          == AllowedIn(s, [ops[0]], host, kind) + AllowedIn(Step(s, ops[0]), ops[1..], host, kind);
    }
  }

  /**
    After every run from a new device and an empty table: calls are allowed or denied, the allowed ones
    are the sum of all hosts' counts, unregistered hosts included, each host's count of each kind is the
    number of accesses that check_access would have allowed, the total latency is that of those
    accesses, every mapping has an active host and its own key, the bandwidth is shared evenly, and the
    device's own counters balance.
   */
  lemma EveryRunBalances(total: nat, granule: nat, fabric: Fabric, ops: seq<Op>, host: nat, kind: Kind)
    requires total <= Dcd.UINT64_MAX && granule <= Dcd.UINT64_MAX && Legal(ops)
    ensures var s0 := NewSystem(total, granule, fabric);
            var s := Run(s0, ops);
            && Dcd.Valid(s.device) && TableInv(s.table)
            && AccessCalls(ops) == s.table.accesses + s.table.denied
            && s.table.accesses == SumBy(s.table.hosts, OpsOf)
            && CountOf(s.table, host, kind) == AllowedIn(s0, ops, host, kind)
            && s.table.totalLatency == LatencyIn(s0, ops)
  {
    var s0 := NewSystem(total, granule, fabric);
    RunKeepsInv(s0, ops);
    RunAccounts(s0, ops);
    RunCounts(s0, ops, host, kind);
  }

  // ---------------------------------------------------------------------------------------------
  // What an access costs
  // ---------------------------------------------------------------------------------------------

  /** With n active hosts a transfer takes n times as long as alone, and each other host adds a quarter of the fabric latency. */
  lemma LatencyWithShare(fabric: Fabric, n: nat, size: nat, share: real)
    requires n >= 1 && share == 1.0 / n as real
    ensures size as real * 8.0 / (fabric.bandwidth * share * 1_000_000_000.0) * 1_000_000_000.0
         == size as real * 8.0 * n as real / fabric.bandwidth
    ensures 1.0 / share == n as real
    ensures share < 1.0 <==> n > 1
  {
    var k, bits, b := n as real, size as real * 8.0, fabric.bandwidth;
    assert share * k == 1.0;
    DivideByShare(bits, b, share, k);
  }

  lemma DivideByShare(bits: real, b: real, share: real, k: real)
    requires b >= 1.0 && share > 0.0 && share * k == 1.0
    ensures bits / (b * share * 1_000_000_000.0) * 1_000_000_000.0 == bits * k / b
    ensures 1.0 / share == k
  {
    var x := bits * k / b;
    assert x * b == bits * k;
    assert x * (b * share) == bits by {
      assert x * (b * share) == (x * b) * share;
      assert bits * k * share == bits * (share * k);
    }
    var y := bits / (b * share * 1_000_000_000.0);
    assert y * (b * share * 1_000_000_000.0) == bits;
    assert (y * 1_000_000_000.0) * (b * share) == x * (b * share);
  }

  /** The cost of an access when n hosts are active, as a caller would work it out. */
  function SharedCost(fabric: Fabric, n: nat, size: nat): real {
    fabric.latency * (1.0 + (n - 1) as real * 0.25) + size as real * 8.0 * n as real / fabric.bandwidth
  }

  lemma CostWithEvenShares(t: Table, host: nat, size: nat)
    requires EvenShares(t.hosts) && t.IsActive(host)
    ensures host in ActiveHosts(t.hosts)
    ensures AccessLatency(t, host, size) == SharedCost(t.fabric, |ActiveHosts(t.hosts)|, size)
  {
    assert host in ActiveHosts(t.hosts);
    LatencyWithShare(t.fabric, |ActiveHosts(t.hosts)|, size, t.hosts[host].share);
  }

  /** A host without a share, never registered or dropped, is charged as if it were alone. */
  lemma CostWithoutShare(t: Table, host: nat, size: nat)
    requires EvenShares(t.hosts) && !t.IsActive(host)
    ensures AccessLatency(t, host, size) == SharedCost(t.fabric, 1, size)
  {
    LatencyWithShare(t.fabric, 1, size, 1.0);
  }

  /** After every run, an access of an active host costs what the number of active hosts says, whoever makes it. */
  lemma AccessCost(total: nat, granule: nat, fabric: Fabric, ops: seq<Op>, host: nat, size: nat)
    requires total <= Dcd.UINT64_MAX && granule <= Dcd.UINT64_MAX && Legal(ops)
    requires Run(NewSystem(total, granule, fabric), ops).table.IsActive(host)
    ensures var t := Run(NewSystem(total, granule, fabric), ops).table;
            AccessLatency(t, host, size) == SharedCost(fabric, |ActiveHosts(t.hosts)|, size)
  {
    var s0 := NewSystem(total, granule, fabric);
    RunKeepsInv(s0, ops);
    RunAccounts(s0, ops);
    CostWithEvenShares(Run(s0, ops).table, host, size);
  }

  // ---------------------------------------------------------------------------------------------
  // Who may access what, from the history of the run
  // ---------------------------------------------------------------------------------------------

  /** The operation grants exactly this mapping. */
  predicate Grants(s: System, op: Op, m: Mapping) {
    op == GrantAccess(m.host, m.base, m.size, m.perms)
    && Grant(Some(s.device), s.table, m.host, m.base, m.size, m.perms).1 == Dcd.Ok
  }

  /** The operation takes the mapping away: revoked by key or by range, its host dropped, or granted anew. */
  predicate Ends(s: System, op: Op, m: Mapping) {
    match op
    case RevokeAccess(host, base, size) => SameKey(m, host, base, size)
    case RevokeRange(base, size) => m.base == base && m.size == size
    case UnregisterHost(host) => m.host == host
    case GrantAccess(host, base, size, perms) =>
      SameKey(m, host, base, size) && Grant(Some(s.device), s.table, host, base, size, perms).1 == Dcd.Ok
    case _ => false
  }

  lemma ReplacedElements(ms: seq<Mapping>, k: nat, x: Mapping, m: Mapping)
    requires Pairwise(ms, DifferentKeys) && k < |ms| && !DifferentKeys(ms[k], x)
    ensures m in ms[k := x] <==> m == x || (m in ms && DifferentKeys(m, x))
  {
    var after := ms[k := x];
    assert after[k] == x;
    if m in after && m != x {
      var i :| 0 <= i < |after| && after[i] == m;
      assert ms[i] == m && i != k;
      assert if i < k then DifferentKeys(ms[i], ms[k]) else DifferentKeys(ms[k], ms[i]);
    }
    if m in ms && DifferentKeys(m, x) {
      var i :| 0 <= i < |ms| && ms[i] == m;
      assert after[i] == m;
    }
  }

  lemma GrantChangesMappings(device: Option<Dcd.Device>, t: Table, host: nat, base: nat, size: nat, perms: bv32, m: Mapping)
    requires TableInv(t) && Grant(device, t, host, base, size, perms).1 == Dcd.Ok
    ensures m in Grant(device, t, host, base, size, perms).0.mappings <==>
            if SameKey(m, host, base, size) then m.perms == perms else m in t.mappings
  {
    var k := FirstWithKey(t.mappings, host, base, size);
    var granted := Mapping(host, base, size, perms);
    if k < |t.mappings| {
      assert t.mappings[k].(perms := perms) == granted;
      ReplacedElements(t.mappings, k, granted, m);
    } else {
      assert m in t.mappings + [granted] <==> m in t.mappings || m == granted;
    }
  }

  lemma StepChangesMappings(s: System, op: Op, m: Mapping)
    requires s.device.granule >= 1 && TableInv(s.table)
    ensures m in Step(s, op).table.mappings <==> Grants(s, op, m) || (m in s.table.mappings && !Ends(s, op, m))
  {
    match op
    case GrantAccess(host, base, size, perms) =>
      if Grant(Some(s.device), s.table, host, base, size, perms).1 == Dcd.Ok {
        GrantChangesMappings(Some(s.device), s.table, host, base, size, perms, m);
      }
    case UnregisterHost(host) => KeepElements(s.table.mappings, (x: Mapping) => x.host != host);
    case RevokeAccess(host, base, size) => KeepElements(s.table.mappings, (x: Mapping) => !SameKey(x, host, base, size));
    case RevokeRange(base, size) => KeepElements(s.table.mappings, (x: Mapping) => !(x.base == base && x.size == size));
    case _ =>
  }

  lemma {:induction false} RunSnoc(s: System, ops: seq<Op>, n: nat)
    requires s.device.granule >= 1 && n < |ops|
    ensures Run(s, ops[..n]).device.granule >= 1
    ensures Run(s, ops[..n + 1]) == Step(Run(s, ops[..n]), ops[n])
    decreases n
  {
    assert ops[..n + 1][1..] == ops[1..][..n];
    if n == 0 {
      assert ops[..0] == [] && ops[1..][..0] == [];
    } else {
      assert ops[..n][1..] == ops[1..][..n - 1];
      RunSnoc(Step(s, ops[0]), ops[1..], n - 1);
    }
  }

  ghost function GrantTimes(s: System, ops: seq<Op>, m: Mapping): nat -> bool
    requires s.device.granule >= 1
  {
    (k: nat) => k < |ops| && Grants(Run(s, ops[..k]), ops[k], m)
  }

  ghost function EndTimes(s: System, ops: seq<Op>, m: Mapping): nat -> bool
    requires s.device.granule >= 1
  {
    (k: nat) => k < |ops| && Ends(Run(s, ops[..k]), ops[k], m)
  }

  /** Some operation granted the mapping, and no later one took it away. */
  ghost predicate LiveGrant(s: System, ops: seq<Op>, m: Mapping)
    requires s.device.granule >= 1
  {
    Since(GrantTimes(s, ops, m), EndTimes(s, ops, m), |ops|)
  }

  lemma {:induction false} MappingsAt(s: System, ops: seq<Op>, m: Mapping, n: nat)
    requires Dcd.Valid(s.device) && TableInv(s.table) && s.table.mappings == [] && Legal(ops) && n <= |ops|
    ensures m in Run(s, ops[..n]).table.mappings <==> Since(GrantTimes(s, ops, m), EndTimes(s, ops, m), n)
  {
    if n == 0 {
      assert ops[..0] == [];
    } else {
      MappingsAt(s, ops, m, n - 1);
      RunKeepsInv(s, ops[..n - 1]);
      RunSnoc(s, ops, n - 1);
      StepChangesMappings(Run(s, ops[..n - 1]), ops[n - 1], m);
      SinceStep(GrantTimes(s, ops, m), EndTimes(s, ops, m), n - 1);
    }
  }

  /** The table of a run holds exactly the grants that nothing has taken away since. */
  lemma MappingsAreLiveGrants(s: System, ops: seq<Op>, m: Mapping)
    requires Dcd.Valid(s.device) && TableInv(s.table) && s.table.mappings == [] && Legal(ops)
    ensures m in Run(s, ops).table.mappings <==> LiveGrant(s, ops, m)
  {
    MappingsAt(s, ops, m, |ops|);
    assert ops[..|ops|] == ops;
  }

  /** The operation adds capacity, and this is the range it returns. */
  predicate Adds(s: System, op: Op, base: nat, size: nat)
    requires s.device.granule >= 1
  {
    op.Capacity? && op.op.AddOp? &&
    var r := Dcd.Add(s.device, op.op.requestedBase, op.op.size, op.op.tag, op.op.time).1;
    r.status == Dcd.Ok && r.base == base && r.size == size
  }

  /** The operation releases exactly this range. */
  predicate Releases(s: System, op: Op, base: nat, size: nat)
    requires s.device.granule >= 1
  {
    op.Capacity? && op.op.ReleaseOp? && op.op.base == base && Dcd.AlignedSize(s.device, op.op.size) == size
    && Dcd.Release(s.device, op.op.base, op.op.size, op.op.tag, op.op.time).1 == Dcd.Ok
  }

  lemma StepChangesExtents(s: System, op: Op, base: nat, size: nat)
    requires Dcd.Packed(s.device)
    ensures Dcd.HasExtent(Step(s, op).device, base, size) <==>
            Adds(s, op, base, size) || (Dcd.HasExtent(s.device, base, size) && !Releases(s, op, base, size))
  {
    if op.Capacity? {
      match op.op
      case AddOp(b, z, tag, time) => Dcd.AddChangesExtents(s.device, b, z, tag, time, base, size);
      case ReleaseOp(b, z, tag, time) => Dcd.ReleaseChangesExtents(s.device, b, z, tag, time, base, size);
    }
  }

  ghost function AddTimes(s: System, ops: seq<Op>, base: nat, size: nat): nat -> bool
    requires s.device.granule >= 1
  {
    (k: nat) => k < |ops| && Run(s, ops[..k]).device.granule >= 1 && Adds(Run(s, ops[..k]), ops[k], base, size)
  }

  ghost function ReleaseTimes(s: System, ops: seq<Op>, base: nat, size: nat): nat -> bool
    requires s.device.granule >= 1
  {
    (k: nat) => k < |ops| && Run(s, ops[..k]).device.granule >= 1 && Releases(Run(s, ops[..k]), ops[k], base, size)
  }

  /** Some operation added the range, and no later one released it. */
  ghost predicate LiveAdd(s: System, ops: seq<Op>, base: nat, size: nat)
    requires s.device.granule >= 1
  {
    Since(AddTimes(s, ops, base, size), ReleaseTimes(s, ops, base, size), |ops|)
  }

  lemma {:induction false} ExtentsAt(s: System, ops: seq<Op>, base: nat, size: nat, n: nat)
    requires Dcd.Valid(s.device) && TableInv(s.table) && s.device.extents == [] && Legal(ops) && n <= |ops|
    ensures Dcd.HasExtent(Run(s, ops[..n]).device, base, size) <==>
            Since(AddTimes(s, ops, base, size), ReleaseTimes(s, ops, base, size), n)
  {
    if n == 0 {
      assert ops[..0] == [];
    } else {
      ExtentsAt(s, ops, base, size, n - 1);
      RunKeepsInv(s, ops[..n - 1]);
      RunSnoc(s, ops, n - 1);
      StepChangesExtents(Run(s, ops[..n - 1]), ops[n - 1], base, size);
      SinceStep(AddTimes(s, ops, base, size), ReleaseTimes(s, ops, base, size), n - 1);
    }
  }

  /** The device of a run holds exactly the added ranges that have not been released since. */
  lemma ExtentsAreLiveAdds(s: System, ops: seq<Op>, base: nat, size: nat)
    requires Dcd.Valid(s.device) && TableInv(s.table) && s.device.extents == [] && Legal(ops)
    ensures Dcd.HasExtent(Run(s, ops).device, base, size) <==> LiveAdd(s, ops, base, size)
  {
    ExtentsAt(s, ops, base, size, |ops|);
    assert ops[..|ops|] == ops;
  }

  ghost predicate Backed(s: System, ops: seq<Op>, a: Access)
    requires s.device.granule >= 1
  {
    exists base, size :: Dcd.RangeContains(base, size, a.addr, a.size) && LiveAdd(s, ops, base, size)
  }

  ghost predicate Granted(s: System, ops: seq<Op>, a: Access)
    requires s.device.granule >= 1
  {
    exists m :: Allows(m, a) && LiveGrant(s, ops, m)
  }

  lemma BackedIffAllocated(s: System, ops: seq<Op>, a: Access)
    requires Dcd.Valid(s.device) && TableInv(s.table) && s.device.extents == [] && Legal(ops)
    ensures Dcd.IsAllocated(Run(s, ops).device, a.addr, a.size) <==> Backed(s, ops, a)
  {
    var d := Run(s, ops).device;
    RunKeepsInv(s, ops);
    Dcd.AllocatedIffInExtent(d, a.addr, a.size);
    if base, size :| Dcd.RangeContains(base, size, a.addr, a.size) && Dcd.HasExtent(d, base, size) {
      ExtentsAreLiveAdds(s, ops, base, size);
    }
    if base, size :| Dcd.RangeContains(base, size, a.addr, a.size) && LiveAdd(s, ops, base, size) {
      ExtentsAreLiveAdds(s, ops, base, size);
    }
  }

  lemma GrantedIffMapped(s: System, ops: seq<Op>, a: Access)
    requires Dcd.Valid(s.device) && TableInv(s.table) && s.table.mappings == [] && Legal(ops)
    ensures (exists i :: 0 <= i < |Run(s, ops).table.mappings| && Allows(Run(s, ops).table.mappings[i], a)) <==>
            Granted(s, ops, a)
  {
    var t := Run(s, ops).table;
    if i :| 0 <= i < |t.mappings| && Allows(t.mappings[i], a) {
      MappingsAreLiveGrants(s, ops, t.mappings[i]);
    }
    if m :| Allows(m, a) && LiveGrant(s, ops, m) {
      MappingsAreLiveGrants(s, ops, m);
      var i :| 0 <= i < |t.mappings| && t.mappings[i] == m;
    }
  }

  lemma AccessAfterRun(s: System, ops: seq<Op>, a: Access)
    requires Dcd.Valid(s.device) && TableInv(s.table) && Legal(ops)
    requires s.device.extents == [] && s.table.mappings == []
    ensures MayAccess(Some(Run(s, ops).device), Run(s, ops).table, a) <==> Backed(s, ops, a) && Granted(s, ops, a)
  {
    RunKeepsInv(s, ops);
    BackedIffAllocated(s, ops, a);
    GrantedIffMapped(s, ops, a);
  }

  /**
    After every run an access is allowed exactly when the range of some add contains it that has not
    been released since, and some grant covers it with the permissions it needs that has since been
    neither revoked, replaced nor dropped with its host.
   */
  lemma AccessIffLiveGrant(total: nat, granule: nat, fabric: Fabric, ops: seq<Op>, a: Access)
    requires total <= Dcd.UINT64_MAX && granule <= Dcd.UINT64_MAX && Legal(ops)
    ensures var s := NewSystem(total, granule, fabric);
            MayAccess(Some(Run(s, ops).device), Run(s, ops).table, a) <==> Backed(s, ops, a) && Granted(s, ops, a)
  {
    AccessAfterRun(NewSystem(total, granule, fabric), ops, a);
  }

  /** Bit 1 lets a host read, bit 2 write, and an atomic needs 1, 2 and 4. */
  predicate Permits(perms: bv32, a: Access) {
    if a.isAtomic then perms & 1 != 0 && perms & 2 != 0 && perms & 4 != 0
    else if a.isWrite then perms & 2 != 0
    else perms & 1 != 0
  }

  lemma ReadBit(perms: bv32)
    ensures perms & 1 == 1 <==> perms & 1 != 0
  {
  }

  lemma WriteBit(perms: bv32)
    ensures perms & 2 == 2 <==> perms & 2 != 0
  {
  }

  lemma AtomicBits(perms: bv32)
    ensures perms & 7 == 7 <==> perms & 1 != 0 && perms & 2 != 0 && perms & 4 != 0
  {
  }

  /** A mapping allows an access exactly when it is the host's, covers it, and has the bits for its kind. */
  lemma AllowsByBits(m: Mapping, a: Access)
    ensures Allows(m, a) <==>
            m.host == a.host && Dcd.RangeContains(m.base, m.size, a.addr, a.size) && Permits(m.perms, a)
  {
    ReadBit(m.perms);
    WriteBit(m.perms);
    AtomicBits(m.perms);
    assert PERM_ATOMIC | PERM_READ | PERM_WRITE == 7;
  }

  /** The decision on the table: backed, active, and one mapping with the bits. */
  lemma MayAccessByBits(device: Option<Dcd.Device>, t: Table, a: Access)
    ensures MayAccess(device, t, a) <==>
            && device.Some? && Dcd.IsAllocated(device.value, a.addr, a.size)
            && a.host in t.hosts && t.hosts[a.host].active
            && exists i :: 0 <= i < |t.mappings| && CoversFor(t.mappings[i], a)
  {
    forall i | 0 <= i < |t.mappings| ensures Allows(t.mappings[i], a) <==> CoversFor(t.mappings[i], a) {
      AllowsByBits(t.mappings[i], a);
    }
  }

  /** Some grant of the host that nothing has taken away covers the range with the bits for the access. */
  ghost predicate GrantedBits(s: System, ops: seq<Op>, a: Access)
    requires s.device.granule >= 1
  {
    exists m :: CoversFor(m, a) && LiveGrant(s, ops, m)
  }

  predicate CoversFor(m: Mapping, a: Access) {
    m.host == a.host && Dcd.RangeContains(m.base, m.size, a.addr, a.size) && Permits(m.perms, a)
  }

  /**
    After every run: a read is allowed exactly when the range is backed and one live grant of the host
    covers it with bit 1, a write when one does with bit 2, an atomic when one does with bits 1, 2 and 4.
   */
  lemma AccessByBits(total: nat, granule: nat, fabric: Fabric, ops: seq<Op>, a: Access)
    requires total <= Dcd.UINT64_MAX && granule <= Dcd.UINT64_MAX && Legal(ops)
    ensures var s := NewSystem(total, granule, fabric);
            MayAccess(Some(Run(s, ops).device), Run(s, ops).table, a) <==> Backed(s, ops, a) && GrantedBits(s, ops, a)
  {
    var s := NewSystem(total, granule, fabric);
    AccessIffLiveGrant(total, granule, fabric, ops, a);
    if m :| Allows(m, a) && LiveGrant(s, ops, m) {
      AllowsByBits(m, a);
      assert CoversFor(m, a);
    }
    if m :| CoversFor(m, a) && LiveGrant(s, ops, m) {
      AllowsByBits(m, a);
    }
  }

  predicate Registers(op: Op, host: nat) {
    op.RegisterHost? && op.host == host
  }

  ghost function RegisterTimes(ops: seq<Op>, host: nat): nat -> bool {
    (k: nat) => k < |ops| && Registers(ops[k], host)
  }

  ghost function UnregisterTimes(ops: seq<Op>, host: nat): nat -> bool {
    (k: nat) => k < |ops| && ops[k] == UnregisterHost(host)
  }

  lemma StepActive(s: System, op: Op, host: nat)
    requires s.device.granule >= 1
    ensures Step(s, op).table.IsActive(host) <==>
            Registers(op, host) || (s.table.IsActive(host) && op != UnregisterHost(host))
  {
  }

  lemma {:induction false} ActiveAt(s: System, ops: seq<Op>, host: nat, n: nat)
    requires s.device.granule >= 1 && s.table.hosts == map[] && n <= |ops|
    ensures Run(s, ops[..n]).table.IsActive(host) <==>
            Since(RegisterTimes(ops, host), UnregisterTimes(ops, host), n)
  {
    if n == 0 {
      assert ops[..0] == [];
    } else {
      ActiveAt(s, ops, host, n - 1);
      RunSnoc(s, ops, n - 1);
      StepActive(Run(s, ops[..n - 1]), ops[n - 1], host);
      SinceStep(RegisterTimes(ops, host), UnregisterTimes(ops, host), n - 1);
    }
  }

  /** After every run a host is active exactly when it was registered and not unregistered since. */
  lemma ActiveIffRegistered(s: System, ops: seq<Op>, host: nat)
    requires s.device.granule >= 1 && s.table.hosts == map[]
    ensures Run(s, ops).table.IsActive(host) <==>
            Since(RegisterTimes(ops, host), UnregisterTimes(ops, host), |ops|)
  {
    ActiveAt(s, ops, host, |ops|);
    assert ops[..|ops|] == ops;
  }

  /**
    After every run a grant succeeds exactly when its range is backed, it grants something and its host
    was registered and not unregistered since; the status tells which is missing, the range or the
    permissions first, and a grant that fails changes nothing.
   */
  lemma GrantStatus(total: nat, granule: nat, fabric: Fabric, ops: seq<Op>, m: Mapping)
    requires total <= Dcd.UINT64_MAX && granule <= Dcd.UINT64_MAX && Legal(ops)
    ensures var s := NewSystem(total, granule, fabric);
            var s' := Run(s, ops);
            var (t, status) := Grant(Some(s'.device), s'.table, m.host, m.base, m.size, m.perms);
            var valid := m.perms != 0 && Backed(s, ops, Access(m.host, m.base, m.size, false, false));
            var active := Since(RegisterTimes(ops, m.host), UnregisterTimes(ops, m.host), |ops|);
            && (status == Dcd.Ok <==> valid && active)
            && (status == Dcd.AccessDenied <==> valid && !active)
            && (status == Dcd.InvalidRequest <==> !valid)
            && (status != Dcd.Ok ==> t == s'.table)
  {
    var s := NewSystem(total, granule, fabric);
    BackedIffAllocated(s, ops, Access(m.host, m.base, m.size, false, false));
    ActiveIffRegistered(s, ops, m.host);
  }

  /** Without a device behind the table nothing can be granted and nothing accessed. */
  lemma NothingWithoutDevice(t: Table, m: Mapping, a: Access)
    ensures Grant(None, t, m.host, m.base, m.size, m.perms) == (t, Dcd.InvalidRequest)
    ensures !MayAccess(None, t, a)
  {
  }

  /** What record_access answers, and what it changes: one host's count, or the number of denials. */
  lemma RecordIsExact(device: Option<Dcd.Device>, t: Table, a: Access, other: nat)
    ensures var (t', result) := Record(device, t, a);
            && result.allowed == MayAccess(device, t, a)
            && result.status == (if result.allowed then Dcd.Ok else Dcd.AccessDenied)
            && (!result.allowed ==> result.latency == 0.0 && t' == t.(denied := t.denied + 1))
            && (result.allowed ==>
                  && result.latency == AccessLatency(t, a.host, a.size)
                  && t'.mappings == t.mappings && t'.denied == t.denied && t'.accesses == t.accesses + 1
                  && t'.hosts.Keys == t.hosts.Keys
                  && (other in t.hosts && other != a.host ==> t'.hosts[other] == t.hosts[other]))
  {
  }

  /** Registering names the host, keeps its counts, or starts them at 0, and touches only the shares of the others. */
  lemma RegisterIsExact(t: Table, host: nat, name: string, other: nat)
    ensures var t' := Register(t, host, name);
            && t'.hosts.Keys == t.hosts.Keys + {host}
            && t'.hosts[host].id == host && t'.hosts[host].name == name
            && (host in t.hosts ==> SameCounts(t'.hosts[host], t.hosts[host]))
            && (host !in t.hosts ==> OpsOf(t'.hosts[host]) == 0)
            && (other in t.hosts && other != host ==>
                  t'.hosts[other] == t.hosts[other].(share := t'.hosts[other].share))
            && t'.mappings == t.mappings
  {
  }

  predicate SameCounts(h: Host, o: Host) {
    h.readCount == o.readCount && h.writeCount == o.writeCount && h.atomicCount == o.atomicCount
  }

  // ---------------------------------------------------------------------------------------------
  // Released memory is unreachable
  // ---------------------------------------------------------------------------------------------

  /** An allowed access touches only bytes of one active extent. */
  lemma AllowedAccessIsBacked(device: Dcd.Device, t: Table, a: Access, x: nat)
    requires MayAccess(Some(device), t, a) && Dcd.Covers(a.addr, a.size, x)
    ensures Dcd.TagAt(device.extents, x).Some?
  {
    var i :| 0 <= i < |device.extents| && Dcd.ExtentContains(device.extents[i], a.addr, a.size);
    assert Dcd.Holds(device.extents[i], x);
    Dcd.TagAtOfFreeByte(device.extents, x);
  }

  /** The operation adds capacity, successfully, over byte x. */
  predicate Reclaims(s: System, op: Op, x: nat)
    requires s.device.granule >= 1
  {
    op.Capacity? && op.op.AddOp? &&
    var r := Dcd.Add(s.device, op.op.requestedBase, op.op.size, op.op.tag, op.op.time).1;
    r.status == Dcd.Ok && Dcd.Covers(r.base, r.size, x)
  }

  predicate NeverReclaims(s: System, ops: seq<Op>, x: nat)
    requires s.device.granule >= 1
    decreases |ops|
  {
    ops == [] || (!Reclaims(s, ops[0], x) && NeverReclaims(Step(s, ops[0]), ops[1..], x))
  }

  lemma StepChangesOwner(s: System, op: Op, x: nat)
    requires Dcd.Packed(s.device) && (op.Capacity? ==> Dcd.Legal(op.op))
    requires Dcd.TagAt(s.device.extents, x).None?
    ensures Dcd.TagAt(Step(s, op).device.extents, x).Some? <==> Reclaims(s, op, x)
  {
    if op.Capacity? {
      match op.op
      case AddOp(base, size, tag, time) => Dcd.AddClaimsExactly(s.device, base, size, tag, time, x);
      case ReleaseOp(base, size, tag, time) => Dcd.ReleaseFreesExactly(s.device, base, size, tag, time, x);
    }
  }

  lemma {:induction false} StaysFree(s: System, ops: seq<Op>, x: nat)
    requires Dcd.Valid(s.device) && TableInv(s.table) && Legal(ops)
    requires Dcd.TagAt(s.device.extents, x).None? && NeverReclaims(s, ops, x)
    ensures Dcd.TagAt(Run(s, ops).device.extents, x).None?
    decreases |ops|
  {
    if ops != [] {
      StepChangesOwner(s, ops[0], x);
      StepKeepsInv(s, ops[0]);
      StaysFree(Step(s, ops[0]), ops[1..], x);
    }
  }

  /**
    After a successful release, and whatever happens next to hosts, mappings and the rest of the
    device, an access touching any byte of the released range is refused as long as no later add has
    covered that byte.
   */
  lemma ReleasedIsUnreachable(s: System, base: nat, size: nat, tag: nat, time: nat, ops: seq<Op>, a: Access, x: nat)
    requires Dcd.Valid(s.device) && TableInv(s.table) && Legal(ops) && size <= Dcd.UINT64_MAX
    requires Dcd.Release(s.device, base, size, tag, time).1 == Dcd.Ok
    requires Dcd.Covers(base, Dcd.AlignedSize(s.device, size), x) && Dcd.Covers(a.addr, a.size, x)
    requires NeverReclaims(Step(s, Capacity(Dcd.ReleaseOp(base, size, tag, time))), ops, x)
    ensures var s' := Run(Step(s, Capacity(Dcd.ReleaseOp(base, size, tag, time))), ops);
            !MayAccess(Some(s'.device), s'.table, a)
  {
    var release := Capacity(Dcd.ReleaseOp(base, size, tag, time));
    Dcd.ReleaseFreesExactly(s.device, base, size, tag, time, x);
    StepKeepsInv(s, release);
    StaysFree(Step(s, release), ops, x);
    var s' := Run(Step(s, release), ops);
    if MayAccess(Some(s'.device), s'.table, a) {
      AllowedAccessIsBacked(s'.device, s'.table, a, x);
    }
  }

  // ---------------------------------------------------------------------------------------------
  // The device, updated in place
  // ---------------------------------------------------------------------------------------------

  datatype Stats = Stats(hosts: nat, mappings: nat, shared: nat, readOps: nat, writeOps: nat, atomicOps: nat, denied: nat,
                         averageLatency: real)

  function ReadsOf(h: Host): nat { h.readCount }

  function WritesOf(h: Host): nat { h.writeCount }

  function AtomicsOf(h: Host): nat { h.atomicCount }

  function SharedCount(ms: seq<Mapping>): nat {
    if ms == [] then 0 else (if ms[0].perms & PERM_SHARED != 0 then 1 else 0) + SharedCount(ms[1..])
  }

  ghost function SharedMappings(ms: seq<Mapping>): set<nat> {
    set i | 0 <= i < |ms| && ms[i].perms & 8 != 0
  }

  /** The shared mappings are those with bit 8. */
  lemma {:induction false} SharedCountIs(ms: seq<Mapping>)
    ensures SharedCount(ms) == |SharedMappings(ms)|
    decreases |ms|
  {
    if ms == [] {
      assert SharedMappings(ms) == {};
    } else {
      var n := |ms| - 1;
      SharedCountIs(ms[..n]);
      SharedCountSnoc(ms[..n], ms[n]);
      assert ms == ms[..n] + [ms[n]];
      assert SharedMappings(ms) == SharedMappings(ms[..n]) + if ms[n].perms & 8 != 0 then {n} else {};
    }
  }

  lemma {:induction false} SharedCountSnoc(ms: seq<Mapping>, m: Mapping)
    ensures SharedCount(ms + [m]) == SharedCount(ms) + if m.perms & 8 != 0 then 1 else 0
  {
    if ms != [] {
      assert (ms + [m])[1..] == ms[1..] + [m];
      SharedCountSnoc(ms[1..], m);
    }
  }

  class GfamDevice {
    const dcd: Dcd.DynamicCapacityDevice?
    var hosts: map<nat, Host>
    var mappings: seq<Mapping>
    var denied: nat
    var accesses: nat
    var totalLatency: int
    const fabric: Fabric

    ghost function Model(): Table
      reads this
    {
      Table(fabric, hosts, mappings, denied, accesses, totalLatency)
    }

    ghost function Backing(): Option<Dcd.Device>
      reads dcd
    {
      if dcd == null then None else Some(dcd.Model())
    }

    constructor (dcd: Dcd.DynamicCapacityDevice?, latency: real, bandwidth: real)
      ensures this.dcd == dcd && TableInv(Model())
      ensures Model() == EmptyTable(Fabric(latency, if bandwidth > 1.0 then bandwidth else 1.0))
    {
      this.dcd := dcd;
      fabric := Fabric(latency, if bandwidth > 1.0 then bandwidth else 1.0);
      hosts, mappings, denied, accesses, totalLatency := map[], [], 0, 0, 0;
    }

    /** Count the active hosts, then give each its share. */
    method RebalanceBandwidth()
      modifies this`hosts
      ensures hosts == Rebalance(old(hosts))
    {
      var n := CountActive();
      var share := if n > 0 then 1.0 / n as real else 0.0;
      var before, todo := hosts, hosts.Keys;
      while todo != {}
        invariant todo <= before.Keys == hosts.Keys
        invariant forall k :: k in hosts ==>
                    hosts[k] == if k in todo then before[k]
                                else before[k].(share := if before[k].active then share else 0.0)
        decreases todo
      {
        var k :| k in todo;
        hosts := hosts[k := hosts[k].(share := if hosts[k].active then share else 0.0)];
        todo := todo - {k};
      }
    }

    method CountActive() returns (n: nat)
      ensures n == |ActiveHosts(hosts)|
    {
      n := 0;
      var rest := hosts;
      while rest != map[]
        invariant n + |ActiveHosts(rest)| == |ActiveHosts(hosts)|
        decreases |rest|
      {
        var k :| k in rest;
        assert ActiveHosts(rest - {k}) == ActiveHosts(rest) - {k};
        if rest[k].active {
          n := n + 1;
        }
        rest := rest - {k};
      }
    }

    method IsBacked(addr: nat, size: nat) returns (backed: bool)
      ensures backed <==> Backing().Some? && Dcd.IsAllocated(Backing().value, addr, size)
    {
      if dcd == null {
        return false;
      }
      var extent := dcd.FindExtent(addr, size);
      return extent.Some?;
    }

    method RegisterHost(host: nat, name: string)
      requires TableInv(Model())
      modifies this
      ensures Model() == Register(old(Model()), host, name) && TableInv(Model())
    {
      RegisterKeepsInv(Model(), host, name);
      var h := if host in hosts then hosts[host] else NEW_HOST;
      hosts := hosts[host := h.(id := host, name := name, active := true)];
      RebalanceBandwidth();
    }

    method UnregisterHost(host: nat)
      requires TableInv(Model())
      modifies this
      ensures Model() == Unregister(old(Model()), host) && TableInv(Model())
    {
      UnregisterKeepsInv(Model(), host);
      if host in hosts {
        hosts := hosts[host := hosts[host].(active := false)];
      }
      mappings := Keep(mappings, (m: Mapping) => m.host != host);
      RebalanceBandwidth();
    }

    method GrantAccess(host: nat, base: nat, size: nat, perms: bv32) returns (status: Dcd.Status)
      requires TableInv(Model())
      modifies this
      ensures (Model(), status) == Grant(Backing(), old(Model()), host, base, size, perms) && TableInv(Model())
    {
      GrantKeepsInv(Backing(), Model(), host, base, size, perms);
      var backed := IsBacked(base, size);
      if !backed || perms == 0 {
        return Dcd.InvalidRequest;
      }
      if host !in hosts || !hosts[host].active {
        return Dcd.AccessDenied;
      }
      for i := 0 to |mappings|
        invariant Model() == old(Model())
        invariant forall j :: 0 <= j < i ==> !SameKey(mappings[j], host, base, size)
      {
        if mappings[i].host == host && mappings[i].base == base && mappings[i].size == size {
          assert i == FirstWithKey(mappings, host, base, size);
          mappings := mappings[i := mappings[i].(perms := perms)];
          return Dcd.Ok;
        }
      }
      mappings := mappings + [Mapping(host, base, size, perms)];
      return Dcd.Ok;
    }

    method RevokeAccess(host: nat, base: nat, size: nat) returns (status: Dcd.Status)
      requires TableInv(Model())
      modifies this
      ensures (Model(), status) == Revoke(old(Model()), host, base, size) && TableInv(Model())
      ensures status == Dcd.Ok <==> exists m :: m in old(mappings) && SameKey(m, host, base, size)
      ensures forall m :: m in mappings <==> m in old(mappings) && !SameKey(m, host, base, size)
    {
      var others := (m: Mapping) => !SameKey(m, host, base, size);
      KeepKeepsInv(Model(), others);
      KeepElements(mappings, others);
      var oldSize := |mappings|;
      mappings := Keep(mappings, others);
      return if |mappings| == oldSize then Dcd.NotFound else Dcd.Ok;
    }

    method RevokeAll(base: nat, size: nat)
      requires TableInv(Model())
      modifies this
      ensures Model() == RevokeExtent(old(Model()), base, size) && TableInv(Model())
      ensures forall m :: m in mappings <==> m in old(mappings) && !(m.base == base && m.size == size)
    {
      var others := (m: Mapping) => !(m.base == base && m.size == size);
      KeepKeepsInv(Model(), others);
      KeepElements(mappings, others);
      mappings := Keep(mappings, others);
    }

    method CheckAccess(a: Access) returns (allowed: bool)
      ensures allowed <==> MayAccess(Backing(), Model(), a)
    {
      var backed := IsBacked(a.addr, a.size);
      if !backed || a.host !in hosts || !hosts[a.host].active {
        return false;
      }
      for i := 0 to |mappings|
        invariant forall j :: 0 <= j < i ==> !Allows(mappings[j], a)
      {
        if Allows(mappings[i], a) {
          return true;
        }
      }
      return false;
    }

    method CalculateAccessLatency(host: nat, size: nat) returns (latency: real)
      ensures latency == AccessLatency(Model(), host, size)
    {
      var share := if host in hosts then hosts[host].share else 0.0;
      if share <= 0.0 {
        share := 1.0;
      }
      var effective := fabric.bandwidth * share;
      assert effective > 0.0;
      var transfer := size as real * 8.0 / (effective * 1_000_000_000.0) * 1_000_000_000.0;
      var penalty := if share < 1.0 then fabric.latency * (1.0 / share - 1.0) * 0.25 else 0.0;
      return fabric.latency + transfer + penalty;
    }

    /** Decides as CheckAccess does in the same state, and counts the decision and the latency. */
    method RecordAccess(a: Access) returns (r: AccessResult)
      requires TableInv(Model())
      modifies this
      ensures r.allowed <==> MayAccess(Backing(), old(Model()), a)
      ensures (Model(), r) == Record(Backing(), old(Model()), a) && TableInv(Model())
    {
      RecordKeepsInv(Backing(), Model(), a);
      var allowed := CheckAccess(a);
      if !allowed {
        denied := denied + 1;
        return AccessResult(false, Dcd.AccessDenied, 0.0);
      }
      var latency := CalculateAccessLatency(a.host, a.size);
      hosts := hosts[a.host := CountAccess(hosts[a.host], a)];
      totalLatency := totalLatency + latency.Floor;
      accesses := accesses + 1;
      return AccessResult(true, Dcd.Ok, latency);
    }

    method GetStats() returns (s: Stats)
      requires TableInv(Model())
      ensures s.hosts == |ActiveHosts(hosts)| && s.mappings == |mappings| && s.shared == |SharedMappings(mappings)|
      ensures s.readOps == SumBy(hosts, ReadsOf) && s.writeOps == SumBy(hosts, WritesOf)
      ensures s.atomicOps == SumBy(hosts, AtomicsOf) && s.denied == denied
      ensures s.readOps + s.writeOps + s.atomicOps == accesses
      ensures s.averageLatency == if accesses > 0 then totalLatency as real / accesses as real else 0.0
    {
      SharedCountIs(mappings);
      var active := CountActive();
      var r, w, at := CountKinds();
      var shared := 0;
      for i := 0 to |mappings|
        invariant shared + SharedCount(mappings[i..]) == SharedCount(mappings)
      {
        assert mappings[i..][1..] == mappings[i + 1..];
        if mappings[i].perms & PERM_SHARED != 0 {
          shared := shared + 1;
        }
      }
      var average := if accesses > 0 then totalLatency as real / accesses as real else 0.0;
      s := Stats(active, |mappings|, shared, r, w, at, denied, average);
    }

    method CountKinds() returns (r: nat, w: nat, at: nat)
      ensures r == SumBy(hosts, ReadsOf) && w == SumBy(hosts, WritesOf) && at == SumBy(hosts, AtomicsOf)
      ensures r + w + at == SumBy(hosts, OpsOf)
    {
      r, w, at := 0, 0, 0;
      var rest := hosts;
      while rest != map[]
        invariant r + SumBy(rest, ReadsOf) == SumBy(hosts, ReadsOf)
        invariant w + SumBy(rest, WritesOf) == SumBy(hosts, WritesOf)
        invariant at + SumBy(rest, AtomicsOf) == SumBy(hosts, AtomicsOf)
        invariant r + w + at + SumBy(rest, OpsOf) == SumBy(hosts, OpsOf)
        decreases |rest|
      {
        var k :| k in rest;
        SumByPicks(rest, ReadsOf, k);
        SumByPicks(rest, WritesOf, k);
        SumByPicks(rest, AtomicsOf, k);
        SumByPicks(rest, OpsOf, k);
        r, w, at := r + rest[k].readCount, w + rest[k].writeCount, at + rest[k].atomicCount;
        rest := rest - {k};
      }
    }
  }
}
