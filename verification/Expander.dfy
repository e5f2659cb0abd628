/**
  The occupation list of CXLMemExpander and the two caches built from it: the address set of
  src/cxlendpoint.cpp and the address ranges of include/cxlendpoint.h. Both caches share one validity
  flag, and most operations that change the list leave the flag alone. Whether a request names this
  expander and whether the request queue has room are inputs; calls are served one at a time.
 */
module Expander {
  import opened Common
  import opened RangeIndex
  import Sorting

  datatype Expander = Expander(id: int, occupation: seq<Occupation>, addressCache: set<nat>,
                               ranges: seq<AddressRange>, cacheValid: bool, lastTimestamp: nat)

  datatype Op =
    | Insert(time: nat, address: nat, index: int, room: bool)
    | Record(time: nat, address: nat, index: int, isWrite: bool, room: bool)
    | Query(address: nat)
    | UpdateRanges
    | UpdateAddresses
    | Invalidate
    | DeleteEntry(address: nat, length: nat)
    | FreeStats(erased: set<nat>)          // the positions whose coin came up 1
    | MigrateIn(entry: Occupation)
    | MigrateOut(address: nat)
    | BackInvalidate(address: nat)
  {
    /** Addresses are 64-bit values. */
    predicate Legal() {
      match this
      case Insert(_, a, _, _) => a < UINT64_VALUES
      case Record(_, a, _, _, _) => a < UINT64_VALUES
      case MigrateIn(o) => o.address < UINT64_VALUES
      case _ => true
    }

    /** The operation puts an entry for the address on the list. */
    predicate Adds(id: int, a: nat) {
      match this
      case Insert(_, b, index, room) => index == id && room && b == a && a != 0
      case Record(_, b, index, _, room) => index == id && room && b == a
      case MigrateIn(o) => o.address == a
      case _ => false
    }

    predicate Removes() {
      FreeStats? || MigrateOut? || BackInvalidate?
    }
  }

  // ---------------------------------------------------------------------------------------------
  // Changes to the list
  // ---------------------------------------------------------------------------------------------

  function EraseFirst(occupation: seq<Occupation>, a: nat): seq<Occupation> {
    if occupation == [] then []
    else if occupation[0].address == a then occupation[1..]
    else [occupation[0]] + EraseFirst(occupation[1..], a)
  }

  function EraseAll(occupation: seq<Occupation>, a: nat): seq<Occupation> {
    if occupation == [] then []
    else (if occupation[0].address == a then [] else [occupation[0]]) + EraseAll(occupation[1..], a)
  }

  /** Drop the entries at the given positions, the first entry being at position `from`. */
  function EraseAt(occupation: seq<Occupation>, erased: set<nat>, from: nat): seq<Occupation>
    decreases |occupation|
  {
    if occupation == [] then []
    else (if from in erased then [] else [occupation[0]]) + EraseAt(occupation[1..], erased, from + 1)
  }

  predicate Touches(o: Occupation, a: nat, length: nat) {
    o.address == a || a <= o.address <= (a + length) % UINT64_VALUES
  }

  function Touch(occupation: seq<Occupation>, a: nat, length: nat, time: nat): seq<Occupation> {
    seq(|occupation|, i requires 0 <= i < |occupation| =>
      if Touches(occupation[i], a, length)
      then occupation[i].(accessCount := occupation[i].accessCount + 1, timestamp := time)
      else occupation[i])
  }

  // ---------------------------------------------------------------------------------------------
  // One operation
  // ---------------------------------------------------------------------------------------------

  function Max(x: nat, y: nat): nat {
    if x > y then x else y
  }

  /** The list moves but the flag does not: an address new to the list is not in the ranges. */
  function InsertEffect(s: Expander, time: nat, a: nat, index: int, room: bool): (Expander, nat) {
    var s' := s.(lastTimestamp := Max(s.lastTimestamp, time));
    if index != s.id then (s, 0)
    else if a == 0 then (s', 1)
    else if !room then (s', 0)
    else if a in s.addressCache && Occupied(s.occupation, a) then
      (s'.(occupation := EraseFirst(s.occupation, a) + [Occupation(time, a, 0)]), 2)
    else
      (s'.(occupation := s.occupation + [Occupation(time, a, 0)], addressCache := s.addressCache + {a}), 1)
  }

  function RecordEffect(s: Expander, time: nat, a: nat, index: int, isWrite: bool, room: bool): (Expander, nat) {
    var s' := s.(lastTimestamp := Max(s.lastTimestamp, time));
    if index != s.id then (s, 0)
    else if !room then (s', 0)
    else
      (s'.(occupation := EraseFirst(s.occupation, a) + [Occupation(time, a, if isWrite then 0 else 1)],
           addressCache := s.addressCache + {a}, cacheValid := false),
       if isWrite then 1 else 2)
  }

  function Rebuild(s: Expander): Expander {
    if s.cacheValid then s
    else
      var sorted := Sorting.Sort(s.occupation, AddressOf);
      s.(occupation := sorted, ranges := BuildRanges(sorted), cacheValid := true)
  }

  /** Raises the flag that also guards the ranges, without building them. */
  function RefreshAddresses(s: Expander): Expander {
    if s.cacheValid then s
    else s.(addressCache := set o | o in s.occupation :: o.address, cacheValid := true)
  }

  function WithList(s: Expander, occupation: seq<Occupation>): Expander {
    s.(occupation := occupation)
  }

  function DeleteEffect(s: Expander, a: nat, length: nat): Expander {
    var touched := exists i :: 0 <= i < |s.occupation| && Touches(s.occupation[i], a, length);
    WithList(s, Touch(s.occupation, a, length, s.lastTimestamp)).(cacheValid := s.cacheValid && !touched)
  }

  function FreeEffect(s: Expander, erased: set<nat>): Expander {
    var kept := EraseAt(s.occupation, erased, 0);
    WithList(s, kept).(cacheValid := s.cacheValid && |kept| == |s.occupation|)
  }

  function Apply(s: Expander, op: Op): Expander {
    match op
    case Insert(time, a, index, room) => InsertEffect(s, time, a, index, room).0
    case Record(time, a, index, isWrite, room) => RecordEffect(s, time, a, index, isWrite, room).0
    case Query(_) => Rebuild(s)
    case UpdateRanges => Rebuild(s)
    case UpdateAddresses => RefreshAddresses(s)
    case Invalidate => s.(cacheValid := false)
    case DeleteEntry(a, length) => DeleteEffect(s, a, length)
    case FreeStats(erased) => FreeEffect(s, erased)
    case MigrateIn(o) => WithList(s, s.occupation + [o])
    case MigrateOut(a) => WithList(s, EraseFirst(s.occupation, a))
    case BackInvalidate(a) => WithList(s, EraseAll(s.occupation, a))
  }

  /** What is_address_local returns. */
  ghost predicate Answer(s: Expander, a: nat) {
    InSome(Rebuild(s).ranges, a)
  }

  function Empty(id: int): Expander {
    Expander(id, [], {}, [], false, 0)
  }

  /** The state after a run; the last operation is on the right. */
  function Run(s: Expander, ops: seq<Op>): Expander {
    if ops == [] then s else Apply(Run(s, ops[..|ops| - 1]), ops[|ops| - 1])
  }

  ghost predicate AllLegal(ops: seq<Op>) {
    forall i :: 0 <= i < |ops| ==> ops[i].Legal()
  }

  // ---------------------------------------------------------------------------------------------
  // What each operation does to the occupied addresses
  // ---------------------------------------------------------------------------------------------

  lemma OccupiedConcat(s: seq<Occupation>, t: seq<Occupation>, a: nat)
    ensures Occupied(s + t, a) <==> Occupied(s, a) || Occupied(t, a)
  {
    if Occupied(s, a) {
      var i :| 0 <= i < |s| && s[i].address == a;
      assert (s + t)[i].address == a;
    }
    if Occupied(t, a) {
      var i :| 0 <= i < |t| && t[i].address == a;
      assert (s + t)[|s| + i].address == a;
    }
    if Occupied(s + t, a) {
      var i :| 0 <= i < |s + t| && (s + t)[i].address == a;
      assert if i < |s| then s[i].address == a else t[i - |s|].address == a;
    }
  }

  lemma OccupiedOne(o: Occupation, a: nat)
    ensures Occupied([o], a) <==> o.address == a
  {
    assert [o][0] == o;
  }

  /** Erasing one entry changes the list exactly when the address is on it, and hides no other address. */
  lemma {:induction false} EraseFirstKeepsOthers(s: seq<Occupation>, a: nat, b: nat)
    ensures b != a ==> (Occupied(EraseFirst(s, a), b) <==> Occupied(s, b))
    ensures Occupied(EraseFirst(s, a), b) ==> Occupied(s, b)
    ensures EraseFirst(s, a) == s <==> !Occupied(s, a)
  {
    if s != [] {
      OccupiedSplit(s, b);
      OccupiedSplit(s, a);
      EraseFirstKeepsOthers(s[1..], a, b);
      if s[0].address == a {
        assert |EraseFirst(s, a)| < |s|;
      } else {
        OccupiedConcat([s[0]], EraseFirst(s[1..], a), b);
        OccupiedOne(s[0], b);
        assert EraseFirst(s, a)[1..] == EraseFirst(s[1..], a);
      }
    }
  }

  lemma {:induction false} EraseAllRemoves(s: seq<Occupation>, a: nat, b: nat)
    ensures Occupied(EraseAll(s, a), b) <==> b != a && Occupied(s, b)
  {
    if s != [] {
      OccupiedSplit(s, b);
      EraseAllRemoves(s[1..], a, b);
      OccupiedConcat([s[0]], EraseAll(s[1..], a), b);
      OccupiedOne(s[0], b);
      assert [] + EraseAll(s[1..], a) == EraseAll(s[1..], a);
    }
  }

  lemma {:induction false} EraseAtAddsNothing(s: seq<Occupation>, erased: set<nat>, from: nat, b: nat)
    requires Occupied(EraseAt(s, erased, from), b)
    ensures Occupied(s, b)
    decreases |s|
  {
    if s != [] {
      var rest := EraseAt(s[1..], erased, from + 1);
      OccupiedSplit(s, b);
      if from in erased {
        assert [] + rest == rest;
      } else {
        OccupiedConcat([s[0]], rest, b);
        OccupiedOne(s[0], b);
      }
      if Occupied(rest, b) {
        EraseAtAddsNothing(s[1..], erased, from + 1, b);
      }
    }
  }

  lemma TouchKeepsAddresses(s: seq<Occupation>, a: nat, length: nat, time: nat, b: nat)
    ensures Occupied(Touch(s, a, length, time), b) <==> Occupied(s, b)
  {
    var t := Touch(s, a, length, time);
    assert forall i :: 0 <= i < |s| ==> t[i].address == s[i].address;
  }

  ghost predicate Bounded(occupation: seq<Occupation>) {
    forall i :: 0 <= i < |occupation| ==> occupation[i].address < UINT64_VALUES
  }

  lemma BoundedIffOccupied(s: seq<Occupation>)
    ensures Bounded(s) <==> forall a: nat :: Occupied(s, a) ==> a < UINT64_VALUES
  {
    if forall a: nat :: Occupied(s, a) ==> a < UINT64_VALUES {
      forall i | 0 <= i < |s| ensures s[i].address < UINT64_VALUES {
        assert Occupied(s, s[i].address);
      }
    }
  }

  lemma RebuildIndexes(s: Expander)
    requires Bounded(s.occupation) && !s.cacheValid
    ensures Indexes(Rebuild(s).ranges, s.occupation) && Indexes(Rebuild(s).ranges, Rebuild(s).occupation)
  {
    SortThenBuild(s.occupation);
  }

  lemma RebuildKeepsAddresses(s: Expander, a: nat)
    ensures Occupied(Rebuild(s).occupation, a) <==> Occupied(s.occupation, a)
  {
    Sorting.SortSorts(s.occupation, AddressOf);
    OccupiedIgnoresOrder(Rebuild(s).occupation, s.occupation, a);
  }

  /** Every operation but the three removals keeps what is occupied and adds what it names, nothing else. */
  lemma GrowthOf(s: Expander, op: Op, a: nat)
    ensures !op.Removes() ==>
              (Occupied(Apply(s, op).occupation, a) <==> Occupied(s.occupation, a) || op.Adds(s.id, a))
    ensures op.Removes() && Occupied(Apply(s, op).occupation, a) ==> Occupied(s.occupation, a)
  {
    match op
    case Insert(time, b, _, _) =>
      AppendAddress(s.occupation, Occupation(time, b, 0), a);
    case Record(time, b, _, isWrite, _) =>
      AppendAddress(s.occupation, Occupation(time, b, if isWrite then 0 else 1), a);
    case Query(_) => RebuildKeepsAddresses(s, a);
    case UpdateRanges => RebuildKeepsAddresses(s, a);
    case UpdateAddresses =>
    case Invalidate =>
    case DeleteEntry(b, length) => TouchKeepsAddresses(s.occupation, b, length, s.lastTimestamp, a);
    case FreeStats(erased) =>
      if Occupied(EraseAt(s.occupation, erased, 0), a) {
        EraseAtAddsNothing(s.occupation, erased, 0, a);
      }
    case MigrateIn(o) =>
      OccupiedConcat(s.occupation, [o], a);
      OccupiedOne(o, a);
    case MigrateOut(b) => EraseFirstKeepsOthers(s.occupation, b, a);
    case BackInvalidate(b) => EraseAllRemoves(s.occupation, b, a);
  }

  /** Appending an entry, after erasing an older one for the same address or not. */
  lemma AppendAddress(s: seq<Occupation>, o: Occupation, a: nat)
    ensures Occupied(s + [o], a) <==> Occupied(s, a) || a == o.address
    ensures Occupied(EraseFirst(s, o.address) + [o], a) <==> Occupied(s, a) || a == o.address
  {
    OccupiedOne(o, a);
    OccupiedConcat(s, [o], a);
    OccupiedConcat(EraseFirst(s, o.address), [o], a);
    EraseFirstKeepsOthers(s, o.address, a);
  }

  // ---------------------------------------------------------------------------------------------
  // What each operation does to the entries
  // ---------------------------------------------------------------------------------------------

  /** The first entry for the address goes, whatever its position, and the others keep their order. */
  lemma {:induction false} EraseFirstAt(s: seq<Occupation>, a: nat, k: nat)
    requires k <= |s| && (k < |s| ==> s[k].address == a)
    requires forall i :: 0 <= i < k ==> s[i].address != a
    ensures EraseFirst(s, a) == if k < |s| then s[..k] + s[k + 1..] else s
    decreases k
  {
    if k > 0 {
      EraseFirstAt(s[1..], a, k - 1);
      if k < |s| {
        assert s[..k] + s[k + 1..] == [s[0]] + (s[1..][..k - 1] + s[1..][k..]);
      }
    }
  }

  /** How many of the `n` positions from `from` on are not erased. */
  function KeptCount(erased: set<nat>, from: nat, n: nat): nat
    decreases n
  {
    if n == 0 then 0 else (if from in erased then 0 else 1) + KeptCount(erased, from + 1, n - 1)
  }

  /** free_stats keeps exactly the entries whose coin did not come up, in order. */
  lemma {:induction false} EraseAtKeeps(s: seq<Occupation>, erased: set<nat>, from: nat, i: nat)
    requires i < |s| && from + i !in erased
    ensures KeptCount(erased, from, i) < |EraseAt(s, erased, from)|
    ensures EraseAt(s, erased, from)[KeptCount(erased, from, i)] == s[i]
    decreases |s|
  {
    if i > 0 {
      EraseAtKeeps(s[1..], erased, from + 1, i - 1);
    }
  }

  lemma {:induction false} EraseAtSize(s: seq<Occupation>, erased: set<nat>, from: nat)
    ensures |EraseAt(s, erased, from)| == KeptCount(erased, from, |s|)
    decreases |s|
  {
    if s != [] {
      EraseAtSize(s[1..], erased, from + 1);
    }
  }

  /** How many of the first `n` entries have another address. */
  function OthersCount(s: seq<Occupation>, a: nat, n: nat): nat
    requires n <= |s|
    decreases n
  {
    if n == 0 then 0 else (if s[0].address == a then 0 else 1) + OthersCount(s[1..], a, n - 1)
  }

  /** Back-invalidation keeps exactly the entries of other addresses, in order. */
  lemma {:induction false} EraseAllKeeps(s: seq<Occupation>, a: nat, i: nat)
    requires i < |s| && s[i].address != a
    ensures OthersCount(s, a, i) < |EraseAll(s, a)| && EraseAll(s, a)[OthersCount(s, a, i)] == s[i]
    decreases |s|
  {
    if i > 0 {
      EraseAllKeeps(s[1..], a, i - 1);
    }
  }

  lemma {:induction false} EraseAllSize(s: seq<Occupation>, a: nat)
    ensures |EraseAll(s, a)| == OthersCount(s, a, |s|)
  {
    if s != [] {
      EraseAllSize(s[1..], a);
    }
  }

  /**
    delete_entry counts one more access, at the last timestamp, for exactly the entries from the address
    to the address plus the length; if that sum does not fit 64 bits, for those at the address alone.
   */
  lemma TouchIsExact(s: seq<Occupation>, a: nat, length: nat, time: nat, i: nat)
    requires a < UINT64_VALUES && length < UINT64_VALUES && i < |s|
    ensures var t := Touch(s, a, length, time);
            var inside := s[i].address == a || (a + length < UINT64_VALUES && a <= s[i].address <= a + length);
            && |t| == |s| && t[i].address == s[i].address
            && t[i].accessCount == s[i].accessCount + (if inside then 1 else 0)
            && t[i].timestamp == (if inside then time else s[i].timestamp)
  {
  }

  predicate InsideRange(o: Occupation, a: nat, length: nat) {
    o.address == a || (a + length < UINT64_VALUES && a <= o.address <= a + length)
  }

  /** Which operations raise the flag, which drop it, and which leave it as it is. */
  lemma FlagIsExact(s: Expander, op: Op)
    ensures var valid := Apply(s, op).cacheValid;
            match op
            case Query(_) => valid
            case UpdateRanges => valid
            case UpdateAddresses => valid
            case Invalidate => !valid
            case Record(_, _, index, _, room) => valid == (s.cacheValid && !(index == s.id && room))
            case DeleteEntry(a, length) =>
              a < UINT64_VALUES && length < UINT64_VALUES ==>
                valid == (s.cacheValid && forall i :: 0 <= i < |s.occupation| ==> !InsideRange(s.occupation[i], a, length))
            case FreeStats(erased) =>
              valid == (s.cacheValid && forall i :: 0 <= i < |s.occupation| ==> i !in erased)
            case _ => valid == s.cacheValid
  {
    match op
    case DeleteEntry(a, length) =>
      if a < UINT64_VALUES && length < UINT64_VALUES {
        forall i | 0 <= i < |s.occupation|
          ensures Touches(s.occupation[i], a, length) <==> InsideRange(s.occupation[i], a, length)
        {
        }
      }
    case FreeStats(erased) =>
      EraseAtSize(s.occupation, erased, 0);
      AllKeptIff(erased, 0, |s.occupation|);
      assert KeptCount(erased, 0, |s.occupation|) == |s.occupation| <==>
             forall i :: 0 <= i < |s.occupation| ==> i !in erased;
    case _ =>
  }

  lemma {:induction false} AllKeptIff(erased: set<nat>, from: nat, n: nat)
    ensures KeptCount(erased, from, n) <= n
    ensures KeptCount(erased, from, n) == n <==> forall i :: from <= i < from + n ==> i !in erased
    decreases n
  {
    if n > 0 {
      AllKeptIff(erased, from + 1, n - 1);
    }
  }

  /** The codes of insert, the entry it leaves at the end, and what it does not touch. */
  lemma InsertIsExact(s: Expander, time: nat, a: nat, index: int, room: bool)
    ensures var (s', code) := InsertEffect(s, time, a, index, room);
            var accepted := index == s.id && a != 0 && room;
            && (code == 0 <==> index != s.id || (a != 0 && !room))
            && (code == 2 <==> accepted && a in s.addressCache && Occupied(s.occupation, a))
            && (code == 1 <==> index == s.id && (a == 0 || (room && !(a in s.addressCache && Occupied(s.occupation, a)))))
            && s'.ranges == s.ranges && s'.cacheValid == s.cacheValid
            && (!accepted ==> s'.occupation == s.occupation && s'.addressCache == s.addressCache)
            && (accepted ==> s'.occupation != [] && s'.occupation[|s'.occupation| - 1] == Occupation(time, a, 0)
                             && s'.addressCache == s.addressCache + {a}
                             && |s'.occupation| == |s.occupation| + (if code == 2 then 0 else 1))
            && s'.lastTimestamp == (if index != s.id || s.lastTimestamp > time then s.lastTimestamp else time)
  {
    EraseFirstShrinks(s.occupation, a);
  }

  /** The codes of record_access, the entry it leaves at the end, and the flag it drops. */
  lemma RecordIsExact(s: Expander, time: nat, a: nat, index: int, isWrite: bool, room: bool)
    ensures var (s', code) := RecordEffect(s, time, a, index, isWrite, room);
            var accepted := index == s.id && room;
            && code == (if !accepted then 0 else if isWrite then 1 else 2)
            && (!accepted ==> s'.occupation == s.occupation && s'.cacheValid == s.cacheValid)
            && (accepted ==> s'.occupation != []
                             && s'.occupation[|s'.occupation| - 1] == Occupation(time, a, if isWrite then 0 else 1)
                             && s'.addressCache == s.addressCache + {a} && !s'.cacheValid
                             && |s'.occupation| == |s.occupation| + (if Occupied(s.occupation, a) then 0 else 1))
            && s'.ranges == s.ranges
            && s'.lastTimestamp == (if index != s.id || s.lastTimestamp > time then s.lastTimestamp else time)
  {
    EraseFirstShrinks(s.occupation, a);
  }

  lemma {:induction false} EraseFirstShrinks(s: seq<Occupation>, a: nat)
    ensures |EraseFirst(s, a)| == |s| - if Occupied(s, a) then 1 else 0
  {
    if s != [] {
      OccupiedSplit(s, a);
      EraseFirstShrinks(s[1..], a);
    }
  }

  /** Refreshing makes the address set exactly the listed addresses, and leaves list and ranges alone. */
  lemma RefreshIsExact(s: Expander, a: nat)
    ensures var s' := RefreshAddresses(s);
            && s'.occupation == s.occupation && s'.ranges == s.ranges
            && (!s.cacheValid ==> (a in s'.addressCache <==> Occupied(s.occupation, a)))
            && (s.cacheValid ==> s' == s)
  {
    if i :| 0 <= i < |s.occupation| && s.occupation[i].address == a {
      assert s.occupation[i] in s.occupation;
    }
  }

  /** Migration in appends its entry, migration out takes one entry if there is one, back-invalidation takes all. */
  lemma MigrationIsExact(s: Expander, o: Occupation, a: nat)
    ensures Apply(s, MigrateIn(o)).occupation == s.occupation + [o]
    ensures |Apply(s, MigrateOut(a)).occupation| == |s.occupation| - (if Occupied(s.occupation, a) then 1 else 0)
    ensures !Occupied(Apply(s, BackInvalidate(a)).occupation, a)
    ensures |Apply(s, BackInvalidate(a)).occupation| == OthersCount(s.occupation, a, |s.occupation|)
  {
    EraseFirstShrinks(s.occupation, a);
    EraseAllRemoves(s.occupation, a, a);
    EraseAllSize(s.occupation, a);
  }

  // ---------------------------------------------------------------------------------------------
  // Each address at most once
  // ---------------------------------------------------------------------------------------------

  predicate Differ(o: Occupation, p: Occupation) {
    o.address != p.address
  }

  /** No address is listed twice, and every listed address is in the address set. */
  ghost predicate Unique(s: Expander) {
    && Sorting.Pairwise(s.occupation, Differ)
    && forall a: nat :: Occupied(s.occupation, a) ==> a in s.addressCache
  }

  /** A list that adds no address, put behind an entry that differs from all of the old list. */
  lemma ConsDistinct(o: Occupation, s: seq<Occupation>, rest: seq<Occupation>)
    requires Sorting.Pairwise([o] + s, Differ) && Sorting.Pairwise(rest, Differ)
    requires forall a: nat :: Occupied(rest, a) ==> Occupied(s, a)
    ensures Sorting.Pairwise([o] + rest, Differ)
  {
    forall i | 0 <= i < |rest| ensures Differ(o, rest[i]) {
      assert Occupied(rest, rest[i].address);
      var j :| 0 <= j < |s| && s[j].address == rest[i].address;
      assert Differ(([o] + s)[0], ([o] + s)[j + 1]);
    }
  }

  lemma TailDistinct(s: seq<Occupation>)
    requires s != [] && Sorting.Pairwise(s, Differ)
    ensures Sorting.Pairwise(s[1..], Differ) && s == [s[0]] + s[1..]
  {
  }

  lemma {:induction false} EraseAtOfDistinct(s: seq<Occupation>, erased: set<nat>, from: nat)
    requires Sorting.Pairwise(s, Differ)
    ensures Sorting.Pairwise(EraseAt(s, erased, from), Differ)
    decreases |s|
  {
    if s != [] {
      var rest := EraseAt(s[1..], erased, from + 1);
      TailDistinct(s);
      EraseAtOfDistinct(s[1..], erased, from + 1);
      forall a: nat | Occupied(rest, a) ensures Occupied(s[1..], a) {
        EraseAtAddsNothing(s[1..], erased, from + 1, a);
      }
      ConsDistinct(s[0], s[1..], rest);
      assert [] + rest == rest;
    }
  }

  lemma {:induction false} EraseAllOfDistinct(s: seq<Occupation>, a: nat)
    requires Sorting.Pairwise(s, Differ)
    ensures Sorting.Pairwise(EraseAll(s, a), Differ)
  {
    if s != [] {
      var rest := EraseAll(s[1..], a);
      TailDistinct(s);
      EraseAllOfDistinct(s[1..], a);
      forall b: nat | Occupied(rest, b) ensures Occupied(s[1..], b) {
        EraseAllRemoves(s[1..], a, b);
      }
      ConsDistinct(s[0], s[1..], rest);
      assert [] + rest == rest;
    }
  }

  lemma {:induction false} EraseFirstOfDistinct(s: seq<Occupation>, a: nat)
    requires Sorting.Pairwise(s, Differ)
    ensures Sorting.Pairwise(EraseFirst(s, a), Differ) && !Occupied(EraseFirst(s, a), a)
  {
    if s != [] {
      var rest := EraseFirst(s[1..], a);
      TailDistinct(s);
      EraseFirstOfDistinct(s[1..], a);
      if s[0].address == a {
        forall i | 0 <= i < |s[1..]| ensures s[1..][i].address != a {
          assert Differ(s[0], s[i + 1]);
        }
      } else {
        forall b: nat | Occupied(rest, b) ensures Occupied(s[1..], b) {
          EraseFirstKeepsOthers(s[1..], a, b);
        }
        ConsDistinct(s[0], s[1..], rest);
        OccupiedConcat([s[0]], rest, a);
        OccupiedOne(s[0], a);
      }
    }
  }

  lemma AppendDistinct(s: seq<Occupation>, o: Occupation)
    requires Sorting.Pairwise(s, Differ) && !Occupied(s, o.address)
    ensures Sorting.Pairwise(s + [o], Differ)
  {
    forall i | 0 <= i < |s| ensures Differ(s[i], o) {
    }
  }

  lemma RebuildKeepsDistinct(s: Expander)
    requires Sorting.Pairwise(s.occupation, Differ)
    ensures Sorting.Pairwise(Rebuild(s).occupation, Differ)
  {
    Sorting.SortKeepsPairwise(s.occupation, AddressOf, Differ);
  }

  lemma TouchKeepsDistinct(s: seq<Occupation>, a: nat, length: nat, time: nat)
    requires Sorting.Pairwise(s, Differ)
    ensures Sorting.Pairwise(Touch(s, a, length, time), Differ)
  {
    var t := Touch(s, a, length, time);
    forall i, j | 0 <= i < j < |t| ensures Differ(t[i], t[j]) {
      assert Differ(s[i], s[j]);
    }
  }

  lemma AcceptKeepsDistinct(s: Expander, o: Occupation)
    requires Unique(s)
    ensures Sorting.Pairwise(EraseFirst(s.occupation, o.address) + [o], Differ)
    ensures o.address !in s.addressCache || !Occupied(s.occupation, o.address) ==>
              Sorting.Pairwise(s.occupation + [o], Differ)
  {
    EraseFirstOfDistinct(s.occupation, o.address);
    AppendDistinct(EraseFirst(s.occupation, o.address), o);
    if !Occupied(s.occupation, o.address) {
      AppendDistinct(s.occupation, o);
    }
  }

  lemma ApplyKeepsDistinct(s: Expander, op: Op)
    requires Unique(s) && !op.MigrateIn?
    ensures Sorting.Pairwise(Apply(s, op).occupation, Differ)
  {
    match op
    case Insert(time, a, _, _) => AcceptKeepsDistinct(s, Occupation(time, a, 0));
    case Record(time, a, _, isWrite, _) => AcceptKeepsDistinct(s, Occupation(time, a, if isWrite then 0 else 1));
    case Query(_) => RebuildKeepsDistinct(s);
    case UpdateRanges => RebuildKeepsDistinct(s);
    case DeleteEntry(a, length) => TouchKeepsDistinct(s.occupation, a, length, s.lastTimestamp);
    case FreeStats(erased) => EraseAtOfDistinct(s.occupation, erased, 0);
    case MigrateOut(a) => EraseFirstOfDistinct(s.occupation, a);
    case BackInvalidate(a) => EraseAllOfDistinct(s.occupation, a);
    case _ =>
  }

  lemma ApplyKeepsListed(s: Expander, op: Op, a: nat)
    requires Unique(s) && !op.MigrateIn? && Occupied(Apply(s, op).occupation, a)
    ensures a in Apply(s, op).addressCache
  {
    GrowthOf(s, op, a);
    if op == UpdateAddresses && !s.cacheValid {
      var i :| 0 <= i < |s.occupation| && s.occupation[i].address == a;
      assert s.occupation[i] in s.occupation;
    }
  }

  /** After every run without migration into this expander, no address is listed twice and the address set misses none. */
  lemma {:induction false} NoDuplicates(id: int, ops: seq<Op>)
    requires forall i :: 0 <= i < |ops| ==> !ops[i].MigrateIn?
    ensures Unique(Run(Empty(id), ops))
    decreases |ops|
  {
    if ops != [] {
      var n := |ops| - 1;
      var s := Run(Empty(id), ops[..n]);
      NoDuplicates(id, ops[..n]);
      ApplyKeepsDistinct(s, ops[n]);
      forall a: nat | Occupied(Apply(s, ops[n]).occupation, a) ensures a in Apply(s, ops[n]).addressCache {
        ApplyKeepsListed(s, ops[n], a);
      }
    }
  }

  // ---------------------------------------------------------------------------------------------
  // When a query is right, over every run
  // ---------------------------------------------------------------------------------------------

  predicate Rebuilds(s: Expander, op: Op) {
    !s.cacheValid && (op.Query? || op.UpdateRanges?)
  }

  /** How many operations of the run lead up to and include the last rebuild of the ranges; 0 for none. */
  function LastRebuild(id: int, ops: seq<Op>): (n: nat)
    ensures n <= |ops|
  {
    if ops == [] then 0
    else if Rebuilds(Run(Empty(id), ops[..|ops| - 1]), ops[|ops| - 1]) then |ops|
    else LastRebuild(id, ops[..|ops| - 1])
  }

  /** The list as it was when the ranges were last built. */
  function ListAtRebuild(id: int, ops: seq<Op>): seq<Occupation> {
    Run(Empty(id), ops[..LastRebuild(id, ops)]).occupation
  }

  lemma ListAtRebuildStep(id: int, ops: seq<Op>)
    requires ops != []
    ensures var n := |ops| - 1;
            ListAtRebuild(id, ops) ==
            if Rebuilds(Run(Empty(id), ops[..n]), ops[n]) then Run(Empty(id), ops).occupation
            else ListAtRebuild(id, ops[..n])
  {
    var n := |ops| - 1;
    assert ops[..|ops|] == ops;
    if !Rebuilds(Run(Empty(id), ops[..n]), ops[n]) {
      assert ops[..n][..LastRebuild(id, ops[..n])] == ops[..LastRebuild(id, ops[..n])];
    }
  }

  lemma ApplyKeepsBounded(s: Expander, op: Op)
    requires Bounded(s.occupation) && op.Legal()
    ensures Bounded(Apply(s, op).occupation) && Apply(s, op).id == s.id
  {
    BoundedIffOccupied(s.occupation);
    BoundedIffOccupied(Apply(s, op).occupation);
    forall a: nat | Occupied(Apply(s, op).occupation, a) ensures a < UINT64_VALUES {
      GrowthOf(s, op, a);
    }
  }

  /** Nothing but a rebuild changes the ranges. */
  lemma RangesStay(s: Expander, op: Op)
    requires !Rebuilds(s, op)
    ensures Apply(s, op).ranges == s.ranges
  {
  }

  /** After every run the ranges are an exact index of the list as it was at the last rebuild. */
  lemma {:induction false} RunIndexes(id: int, ops: seq<Op>)
    requires AllLegal(ops)
    ensures var s := Run(Empty(id), ops);
            s.id == id && Bounded(s.occupation) && Indexes(s.ranges, ListAtRebuild(id, ops))
    decreases |ops|
  {
    if ops == [] {
      assert ListAtRebuild(id, ops) == [];
    } else {
      var n := |ops| - 1;
      var s := Run(Empty(id), ops[..n]);
      RunIndexes(id, ops[..n]);
      ApplyKeepsBounded(s, ops[n]);
      ListAtRebuildStep(id, ops);
      if Rebuilds(s, ops[n]) {
        RebuildIndexes(s);
      } else {
        RangesStay(s, ops[n]);
      }
    }
  }

  /**
    After every run of the eleven operations, a query is right exactly when it rebuilds the ranges or
    the address is on the list now if and only if it was when the ranges were last built.
   */
  lemma QueryRightIff(id: int, ops: seq<Op>, a: nat)
    requires AllLegal(ops)
    ensures var s := Run(Empty(id), ops);
            (Answer(s, a) <==> Occupied(s.occupation, a)) <==>
            !s.cacheValid || (Occupied(ListAtRebuild(id, ops), a) <==> Occupied(s.occupation, a))
  {
    var s := Run(Empty(id), ops);
    RunIndexes(id, ops);
    if !s.cacheValid {
      RebuildIndexes(s);
    }
  }

  /** The address came onto the list after the last rebuild, and was not on it then. */
  ghost predicate NewSinceRebuild(id: int, ops: seq<Op>, a: nat) {
    && !Occupied(ListAtRebuild(id, ops), a)
    && AddedFrom(id, ops, LastRebuild(id, ops), a)
  }

  /** Operation number `from` or a later one adds the address. */
  ghost predicate AddedFrom(id: int, ops: seq<Op>, from: nat, a: nat) {
    exists i :: from <= i < |ops| && ops[i].Adds(id, a)
  }

  ghost predicate NothingRemoved(ops: seq<Op>) {
    forall i :: 0 <= i < |ops| ==> !ops[i].Removes()
  }

  /** Without removals, the list holds what it held at the last rebuild and what was added since. */
  lemma {:induction false} ListSinceRebuild(id: int, ops: seq<Op>, a: nat)
    requires AllLegal(ops) && NothingRemoved(ops)
    ensures Occupied(Run(Empty(id), ops).occupation, a) <==>
            || Occupied(ListAtRebuild(id, ops), a)
            || AddedFrom(id, ops, LastRebuild(id, ops), a)
    decreases |ops|
  {
    if ops == [] {
      assert ListAtRebuild(id, ops) == [];
    } else {
      var n := |ops| - 1;
      var s := Run(Empty(id), ops[..n]);
      RunIndexes(id, ops[..n]);
      ListSinceRebuild(id, ops[..n], a);
      GrowthOf(s, ops[n], a);
      ListAtRebuildStep(id, ops);
      if !Rebuilds(s, ops[n]) {
        AddedFromStep(id, ops, LastRebuild(id, ops), a);
      }
    }
  }

  lemma AddedFromStep(id: int, ops: seq<Op>, from: nat, a: nat)
    requires from < |ops|
    ensures var n := |ops| - 1;
            AddedFrom(id, ops, from, a) <==> ops[n].Adds(id, a) || AddedFrom(id, ops[..n], from, a)
  {
    var n := |ops| - 1;
    if i :| from <= i < |ops| && ops[i].Adds(id, a) {
      assert i < n ==> ops[..n][i] == ops[i];
    }
    if i :| from <= i < n && ops[..n][i].Adds(id, a) {
      assert ops[i].Adds(id, a);
    }
  }

  /**
    Without removals, a query is wrong exactly when the flag is up and the address was first added
    since the last rebuild; the wrong answer is always "not local".
   */
  lemma GrowingRunRightIff(id: int, ops: seq<Op>, a: nat)
    requires AllLegal(ops) && NothingRemoved(ops)
    ensures var s := Run(Empty(id), ops);
            && ((Answer(s, a) <==> Occupied(s.occupation, a)) <==> !s.cacheValid || !NewSinceRebuild(id, ops, a))
            && (Answer(s, a) ==> Occupied(s.occupation, a))
  {
    QueryRightIff(id, ops, a);
    ListSinceRebuild(id, ops, a);
    RunIndexes(id, ops);
    if !Run(Empty(id), ops).cacheValid {
      RebuildIndexes(Run(Empty(id), ops));
    }
  }

  /** The operations that leave the flag to the ranges alone. */
  predicate Ordinary(op: Op) {
    op.Insert? || op.Record? || op.Query? || op.UpdateRanges? || op.Invalidate? || op.DeleteEntry?
  }

  ghost predicate AllOrdinary(ops: seq<Op>) {
    forall i :: 0 <= i < |ops| ==> Ordinary(ops[i])
  }

  /** While the flag is up, no access has been recorded since the last rebuild. */
  lemma {:induction false} ValidMeansNoRecord(id: int, ops: seq<Op>, a: nat)
    requires AllOrdinary(ops)
    ensures Run(Empty(id), ops).cacheValid ==>
            forall i :: LastRebuild(id, ops) <= i < |ops| && ops[i].Adds(id, a) ==> ops[i].Insert?
    decreases |ops|
  {
    if ops != [] {
      var n := |ops| - 1;
      ValidMeansNoRecord(id, ops[..n], a);
      RunKeepsId(id, ops[..n]);
      if Run(Empty(id), ops).cacheValid && !Rebuilds(Run(Empty(id), ops[..n]), ops[n]) {
        forall i | LastRebuild(id, ops) <= i < |ops| && ops[i].Adds(id, a) ensures ops[i].Insert? {
          assert i < n ==> ops[..n][i] == ops[i];
        }
      }
    }
  }

  lemma ApplyKeepsId(s: Expander, op: Op)
    ensures Apply(s, op).id == s.id
  {
  }

  lemma {:induction false} RunKeepsId(id: int, ops: seq<Op>)
    ensures Run(Empty(id), ops).id == id
    decreases |ops|
  {
    if ops != [] {
      RunKeepsId(id, ops[..|ops| - 1]);
      ApplyKeepsId(Run(Empty(id), ops[..|ops| - 1]), ops[|ops| - 1]);
    }
  }

  /**
    Over every run of inserts, recorded accesses, queries, invalidations and kernel-mode touches: a
    query is right exactly when the flag is down or no `insert` since the last rebuild was the first to
    put the address on the list.
   */
  lemma InsertIsNotIndexed(id: int, ops: seq<Op>, a: nat)
    requires AllLegal(ops) && AllOrdinary(ops)
    ensures var s := Run(Empty(id), ops);
            (Answer(s, a) <==> Occupied(s.occupation, a)) <==>
            || !s.cacheValid
            || Occupied(ListAtRebuild(id, ops), a)
            || forall i :: LastRebuild(id, ops) <= i < |ops| && ops[i].Insert? ==> !ops[i].Adds(id, a)
  {
    GrowingRunRightIff(id, ops, a);
    ValidMeansNoRecord(id, ops, a);
  }

  /** The shortest such run: ask, insert, and the inserted address is not found. */
  lemma InsertedAddressIsMissed(id: int, time: nat, a: nat)
    requires 0 < a < UINT64_VALUES
    ensures var s := Run(Empty(id), [Query(a)] + [Insert(time, a, id, true)]);
            Occupied(s.occupation, a) && !Answer(s, a)
  {
    var s := Rebuild(Empty(id));
    assert Run(Empty(id), [Query(a)]) == s by {
      RunSnoc(Empty(id), [], Query(a));
      assert [] + [Query(a)] == [Query(a)];
    }
    RunSnoc(Empty(id), [Query(a)], Insert(time, a, id, true));
    AppendAddress([], Occupation(time, a, 0), a);
    assert InsertEffect(s, time, a, id, true).0.ranges == [];
  }

  lemma RunSnoc(s: Expander, ops: seq<Op>, op: Op)
    ensures Run(s, ops + [op]) == Apply(Run(s, ops), op)
  {
    assert (ops + [op])[..|ops|] == ops;
  }

  /**
    Refreshing the address set before asking, as calculate_latency does, answers from ranges that were
    not rebuilt: a recorded address the ranges did not hold is not found.
   */
  lemma RecordedAddressIsMissed(id: int, ops: seq<Op>, time: nat, a: nat, isWrite: bool)
    requires AllLegal(ops) && a < UINT64_VALUES
    requires !Occupied(ListAtRebuild(id, ops), a)
    ensures var s := Apply(Apply(Run(Empty(id), ops), Record(time, a, id, isWrite, true)), UpdateAddresses);
            Occupied(s.occupation, a) && !Answer(s, a)
  {
    var s := Run(Empty(id), ops);
    RunIndexes(id, ops);
    var recorded := RecordEffect(s, time, a, id, isWrite, true).0;
    AppendAddress(s.occupation, Occupation(time, a, if isWrite then 0 else 1), a);
    assert recorded.ranges == s.ranges && Occupied(recorded.occupation, a);
    assert RefreshAddresses(recorded).ranges == s.ranges && RefreshAddresses(recorded).cacheValid;
  }

  // ---------------------------------------------------------------------------------------------
  // The expander, updated in place
  // ---------------------------------------------------------------------------------------------

  lemma EraseAllHead(s: seq<Occupation>, a: nat)
    requires s != []
    ensures EraseAll(s, a) == (if s[0].address == a then [] else [s[0]]) + EraseAll(s[1..], a)
  {
  }

  class CxlMemExpander {
    const id: int
    var occupation: seq<Occupation>
    var addressCache: set<nat>
    var addressRanges: seq<AddressRange>
    var cacheValid: bool
    var lastTimestamp: nat

    ghost function Model(): Expander
      reads this
    {
      Expander(id, occupation, addressCache, addressRanges, cacheValid, lastTimestamp)
    }

    /** Kept by every operation; it does not say that the ranges are up to date. */
    ghost predicate Valid()
      reads this
    {
      Bounded(occupation) && Ordered(addressRanges)
    }

    constructor (id: int)
      ensures Valid() && Model() == Empty(id)
    {
      this.id := id;
      occupation, addressCache, addressRanges, cacheValid, lastTimestamp := [], {}, [], false, 0;
    }

    method InvalidateCache()
      modifies this`cacheValid
      ensures Model() == Apply(old(Model()), Invalidate)
    {
      cacheValid := false;
    }

    /** The position of the first entry for the address, or the length of the list. */
    static method FindEntry(list: seq<Occupation>, address: nat) returns (k: nat)
      ensures k <= |list| && (k < |list| ==> list[k].address == address)
      ensures forall i :: 0 <= i < k ==> list[i].address != address
    {
      k := 0;
      while k < |list| && list[k].address != address
        invariant k <= |list|
        invariant forall i :: 0 <= i < k ==> list[i].address != address
      {
        k := k + 1;
      }
    }

    method InsertAddress(timestamp: nat, address: nat, index: int, room: bool) returns (code: nat)
      requires Valid() && address < UINT64_VALUES
      modifies this
      ensures Valid()
      ensures Model() == Apply(old(Model()), Insert(timestamp, address, index, room))
      ensures code == InsertEffect(old(Model()), timestamp, address, index, room).1
    {
      ApplyKeepsBounded(Model(), Insert(timestamp, address, index, room));
      if index != id {
        return 0;
      }
      lastTimestamp := if lastTimestamp > timestamp then lastTimestamp else timestamp;
      if address == 0 {
        return 1;
      }
      if !room {
        return 0;
      }
      if address in addressCache {
        var k := FindEntry(occupation, address);
        EraseFirstAt(occupation, address, k);
        if k < |occupation| {
          occupation := occupation[..k] + occupation[k + 1..];
          occupation := occupation + [Occupation(timestamp, address, 0)];
          return 2;
        }
      }
      occupation := occupation + [Occupation(timestamp, address, 0)];
      addressCache := addressCache + {address};
      return 1;
    }

    method RecordAccess(timestamp: nat, address: nat, index: int, isWrite: bool, room: bool) returns (code: nat)
      requires Valid() && address < UINT64_VALUES
      modifies this
      ensures Valid()
      ensures Model() == Apply(old(Model()), Record(timestamp, address, index, isWrite, room))
      ensures code == RecordEffect(old(Model()), timestamp, address, index, isWrite, room).1
    {
      ApplyKeepsBounded(Model(), Record(timestamp, address, index, isWrite, room));
      if index != id {
        return 0;
      }
      lastTimestamp := if lastTimestamp > timestamp then lastTimestamp else timestamp;
      if !room {
        return 0;
      }
      var k := FindEntry(occupation, address);
      EraseFirstAt(occupation, address, k);
      if k < |occupation| {
        occupation := occupation[..k] + occupation[k + 1..];
      }
      occupation := occupation + [Occupation(timestamp, address, if isWrite then 0 else 1)];
      addressCache := addressCache + {address};
      InvalidateCache();
      return if isWrite then 1 else 2;
    }

    method UpdateAddressCache()
      requires Valid()
      modifies this
      ensures Valid() && Model() == Apply(old(Model()), UpdateAddresses)
    {
      if cacheValid {
        return;
      }
      addressCache := {};
      for i := 0 to |occupation|
        invariant occupation == old(occupation) && addressRanges == old(addressRanges)
        invariant addressCache == set o | o in occupation[..i] :: o.address
        invariant cacheValid == old(cacheValid) && lastTimestamp == old(lastTimestamp)
      {
        assert occupation[..i + 1] == occupation[..i] + [occupation[i]];
        addressCache := addressCache + {occupation[i].address};
      }
      assert occupation[..|occupation|] == occupation;
      cacheValid := true;
    }

    method UpdateRangeCache()
      requires Valid()
      modifies this
      ensures Valid() && cacheValid && Model() == Apply(old(Model()), UpdateRanges)
      ensures !old(cacheValid) ==> Indexes(addressRanges, old(occupation))
    {
      if cacheValid {
        return;
      }
      SortThenBuild(occupation);
      occupation := Sorting.Sort(occupation, AddressOf);
      addressRanges := MergeLoop(occupation);
      cacheValid := true;
    }

    static method MergeLoop(sorted: seq<Occupation>) returns (ranges: seq<AddressRange>)
      ensures ranges == BuildRanges(sorted)
    {
      ranges := [];
      if sorted == [] {
        return;
      }
      var current := AddressRange(sorted[0].address, sorted[0].address);
      for i := 1 to |sorted|
        invariant ranges + Merge(sorted[i..], current) == BuildRanges(sorted)
      {
        assert sorted[i..][1..] == sorted[i + 1..];
        if sorted[i].address == (current.end + 1) % UINT64_VALUES {
          current := AddressRange(current.start, sorted[i].address);
        } else {
          ranges := ranges + [current];
          current := AddressRange(sorted[i].address, sorted[i].address);
        }
      }
      ranges := ranges + [current];
    }

    /** The first range that does not end before the address, by binary search. */
    static method LowerBound(ranges: seq<AddressRange>, addr: nat) returns (k: nat)
      requires Ordered(ranges)
      ensures k <= |ranges| && (k < |ranges| ==> addr <= ranges[k].end)
      ensures forall i :: 0 <= i < k ==> ranges[i].end < addr
    {
      var hi := |ranges|;
      k := 0;
      while k < hi
        invariant 0 <= k <= hi <= |ranges|
        invariant forall i :: 0 <= i < k ==> ranges[i].end < addr
        invariant forall i :: hi <= i < |ranges| ==> addr <= ranges[i].end
      {
        var mid := (k + hi) / 2;
        if ranges[mid].end < addr {
          k := mid + 1;
        } else {
          hi := mid;
        }
      }
    }

    /** From a fresh index when the flag is down, from whatever ranges there are when it is up. */
    method IsAddressLocal(addr: nat) returns (found: bool)
      requires Valid()
      modifies this
      ensures Valid() && Model() == Apply(old(Model()), Query(addr))
      ensures found <==> Answer(old(Model()), addr)
      ensures found <==>
              if old(cacheValid) then InSome(old(addressRanges), addr) else Occupied(old(occupation), addr)
    {
      if !cacheValid {
        UpdateRangeCache();
      }
      var k := LowerBound(addressRanges, addr);
      LowerBoundDecides(addressRanges, addr, k);
      found := k < |addressRanges| && addr >= addressRanges[k].start && addr <= addressRanges[k].end;
    }

    /** Kernel-mode access: two passes over the list, the second skipping what the first one touched. */
    method DeleteEntry(addr: nat, length: nat)
      requires Valid()
      modifies this
      ensures Valid() && Model() == Apply(old(Model()), Op.DeleteEntry(addr, length))
    {
      ApplyKeepsBounded(Model(), Op.DeleteEntry(addr, length));
      var modified, list := false, occupation;
      var last := (addr + length) % UINT64_VALUES;
      for i := 0 to |list|
        invariant |list| == |occupation|
        invariant forall j :: 0 <= j < i && occupation[j].address == addr ==> list[j] == Bumped(occupation[j])
        invariant forall j :: 0 <= j < |list| && (j >= i || occupation[j].address != addr) ==> list[j] == occupation[j]
        invariant modified <==> exists j :: 0 <= j < i && occupation[j].address == addr
      {
        if list[i].address == addr {
          list := list[i := Bumped(list[i])];
          modified := true;
        }
      }
      for i := 0 to |list|
        invariant |list| == |occupation|
        invariant forall j :: 0 <= j < |list| ==>
                    list[j] == if occupation[j].address == addr || (j < i && Touches(occupation[j], addr, length))
                               then Bumped(occupation[j]) else occupation[j]
        invariant modified <==>
                  exists j :: 0 <= j < |list| && (occupation[j].address == addr || (j < i && Touches(occupation[j], addr, length)))
      {
        if list[i].address >= addr && list[i].address <= last {
          if list[i].address != addr {
            list := list[i := Bumped(list[i])];
            modified := true;
          }
        }
      }
      assert list == Touch(occupation, addr, length, lastTimestamp);
      occupation := list;
      if modified {
        InvalidateCache();
      }
    }

    function Bumped(o: Occupation): Occupation
      reads this
    {
      o.(accessCount := o.accessCount + 1, timestamp := lastTimestamp)
    }

    static method KeepEntries(list: seq<Occupation>, erased: set<nat>) returns (kept: seq<Occupation>, modified: bool)
      ensures kept == EraseAt(list, erased, 0)
      ensures modified <==> |kept| != |list|
    {
      kept, modified := [], false;
      for i := 0 to |list|
        invariant kept + EraseAt(list[i..], erased, i) == EraseAt(list, erased, 0)
        invariant |kept| <= i && (modified <==> |kept| < i)
      {
        assert list[i..][1..] == list[i + 1..];
        if i in erased {
          modified := true;
        } else {
          kept := kept + [list[i]];
        }
      }
    }

    method FreeStats(erased: set<nat>)
      requires Valid()
      modifies this
      ensures Valid() && Model() == Apply(old(Model()), Op.FreeStats(erased))
    {
      ApplyKeepsBounded(Model(), Op.FreeStats(erased));
      var kept, modified := KeepEntries(occupation, erased);
      occupation := kept;
      if modified {
        InvalidateCache();
      }
    }

    method MigrateIn(entry: Occupation)
      requires Valid() && entry.address < UINT64_VALUES
      modifies this`occupation
      ensures Valid() && Model() == Apply(old(Model()), Op.MigrateIn(entry))
    {
      occupation := occupation + [entry];
    }

    method MigrateOut(address: nat)
      requires Valid()
      modifies this`occupation
      ensures Valid() && Model() == Apply(old(Model()), Op.MigrateOut(address))
    {
      ApplyKeepsBounded(Model(), Op.MigrateOut(address));
      var k := FindEntry(occupation, address);
      EraseFirstAt(occupation, address, k);
      if k < |occupation| {
        occupation := occupation[..k] + occupation[k + 1..];
      }
    }

    static method DropEntries(list: seq<Occupation>, address: nat) returns (kept: seq<Occupation>)
      ensures kept == EraseAll(list, address)
    {
      var i := 0;
      kept := list;
      while i < |kept|
        invariant 0 <= i <= |kept|
        invariant kept[..i] + EraseAll(kept[i..], address) == EraseAll(list, address)
        decreases |kept| - i
      {
        ghost var before, done := kept, kept[..i];
        EraseAllHead(kept[i..], address);
        if kept[i].address == address {
          kept := kept[..i] + kept[i + 1..];
          assert kept[..i] == done && kept[i..] == before[i..][1..];
        } else {
          i := i + 1;
          assert kept[..i] == done + [before[i - 1]] && kept[i..] == before[i - 1..][1..];
        }
      }
    }

    method BackInvalidate(address: nat)
      requires Valid()
      modifies this`occupation
      ensures Valid() && Model() == Apply(old(Model()), Op.BackInvalidate(address))
    {
      ApplyKeepsBounded(Model(), Op.BackInvalidate(address));
      occupation := DropEntries(occupation, address);
    }
  }
}
