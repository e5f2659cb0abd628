/**
  The dynamic capacity device of src/dcd_gfam.cpp: tagged extents of a byte-addressed device, added at
  a requested base or by first fit, and released again. Addresses and sizes are 64-bit values and the
  arithmetic that can overflow is written out; the request counters are unbounded.
 */
module Dcd {
  import opened Arithmetic
  import opened Common
  import opened Sorting

  const UINT64_MAX: nat := UINT64_VALUES - 1
  const ANY_BASE: nat := UINT64_MAX      // asks for automatic placement

  datatype Status = Ok | OutOfCapacity | Overlap | NotFound | InvalidRequest | AccessDenied

  datatype Extent = Extent(base: nat, size: nat, tag: nat, created: nat, released: nat, active: bool)

  datatype AddResult = AddResult(status: Status, base: nat, size: nat, tag: nat)

  datatype Device = Device(total: nat, granule: nat, nextTag: nat, extents: seq<Extent>,
                           addRequests: nat, releaseRequests: nat, failures: nat)

  // ---------------------------------------------------------------------------------------------
  // Ranges
  // ---------------------------------------------------------------------------------------------

  predicate Covers(base: nat, size: nat, x: nat) {
    base <= x < base + size
  }

  predicate RangesOverlap(aBase: nat, aSize: nat, bBase: nat, bSize: nat) {
    aSize != 0 && bSize != 0 &&
    if aBase <= bBase then bBase - aBase < aSize else aBase - bBase < bSize
  }

  predicate RangeContains(outerBase: nat, outerSize: nat, innerBase: nat, innerSize: nat) {
    innerSize != 0 && innerSize <= outerSize && innerBase >= outerBase &&
    innerBase - outerBase <= outerSize - innerSize
  }

  /** Two ranges overlap exactly when they share a byte. */
  lemma OverlapIffSharedByte(aBase: nat, aSize: nat, bBase: nat, bSize: nat)
    ensures RangesOverlap(aBase, aSize, bBase, bSize)
       <==> exists x :: Covers(aBase, aSize, x) && Covers(bBase, bSize, x)
  {
    if RangesOverlap(aBase, aSize, bBase, bSize) {
      var x := if aBase <= bBase then bBase else aBase;
      assert Covers(aBase, aSize, x) && Covers(bBase, bSize, x);
    }
  }

  /** Containment is containment of every byte, of at least one byte. */
  lemma ContainsIffEveryByte(outerBase: nat, outerSize: nat, innerBase: nat, innerSize: nat)
    ensures RangeContains(outerBase, outerSize, innerBase, innerSize)
       <==> innerSize > 0 && forall x :: Covers(innerBase, innerSize, x) ==> Covers(outerBase, outerSize, x)
  {
    if innerSize > 0 && !RangeContains(outerBase, outerSize, innerBase, innerSize) {
      assert Covers(innerBase, innerSize, innerBase) && Covers(innerBase, innerSize, innerBase + innerSize - 1);
    }
  }

  /** Round up to the granule; 0 when the result would not fit 64 bits. */
  function AlignUp(granule: nat, value: nat): nat
    requires granule >= 1
  {
    var remainder := value % granule;
    if value == 0 then 0
    else if remainder == 0 then value
    else if value > UINT64_MAX - (granule - remainder) then 0
    else value + granule - remainder
  }

  predicate WithinDevice(d: Device, base: nat, size: nat) {
    size > 0 && base < d.total && size <= d.total - base
  }

  // ---------------------------------------------------------------------------------------------
  // The device
  // ---------------------------------------------------------------------------------------------

  predicate OverlapsActive(d: Device, base: nat, size: nat) {
    exists i :: 0 <= i < |d.extents| && d.extents[i].active
             && RangesOverlap(base, size, d.extents[i].base, d.extents[i].size)
  }

  function Active(extents: seq<Extent>): seq<Extent> {
    if extents == [] then []
    else (if extents[0].active then [extents[0]] else []) + Active(extents[1..])
  }

  function BaseOf(e: Extent): int {
    e.base
  }

  function SortedActive(d: Device): seq<Extent> {
    Sort(Active(d.extents), BaseOf)
  }

  /** First fit: walk the gaps between the active extents in address order. */
  function GapWalk(d: Device, active: seq<Extent>, candidate: nat, size: nat): Option<nat>
    requires d.granule >= 1
  {
    if active == [] then
      if WithinDevice(d, candidate, size) then Some(candidate) else None
    else if (candidate + size) % UINT64_VALUES <= active[0].base then
      Some(candidate)
    else if active[0].base > UINT64_MAX - active[0].size then
      None
    else
      GapWalk(d, active[1..], AlignUp(d.granule, active[0].base + active[0].size), size)
  }

  function AlignedSize(d: Device, size: nat): nat
    requires d.granule >= 1
  {
    if size == d.total then size else AlignUp(d.granule, size)
  }

  function Fail(d: Device): Device {
    d.(failures := d.failures + 1)
  }

  function Place(d: Device, base: nat, size: nat, tag: nat, time: nat): (Device, AddResult) {
    if !WithinDevice(d, base, size) then
      (Fail(d), AddResult(OutOfCapacity, base, size, tag))
    else if OverlapsActive(d, base, size) then
      (Fail(d), AddResult(Overlap, base, size, tag))
    else
      var extentTag := if tag == 0 then d.nextTag else tag;
      (d.(nextTag := if tag == 0 then d.nextTag + 1 else d.nextTag,
          extents := d.extents + [Extent(base, size, extentTag, time, 0, true)]),
       AddResult(Ok, base, size, extentTag))
  }

  /** What a request to add capacity does, apart from counting it. */
  function TryAdd(d: Device, requestedBase: nat, size: nat, tag: nat, time: nat): (Device, AddResult)
    requires d.granule >= 1
  {
    var aligned := AlignedSize(d, size);
    if aligned == 0 || aligned > d.total then
      (Fail(d), AddResult(InvalidRequest, 0, 0, tag))
    else if requestedBase == ANY_BASE then
      match GapWalk(d, SortedActive(d), 0, aligned)
      case None => (Fail(d), AddResult(OutOfCapacity, 0, aligned, tag))
      case Some(base) => Place(d, base, aligned, tag, time)
    else if requestedBase % d.granule != 0 then
      (Fail(d), AddResult(InvalidRequest, requestedBase, aligned, tag))
    else
      Place(d, requestedBase, aligned, tag, time)
  }

  function Add(d: Device, requestedBase: nat, size: nat, tag: nat, time: nat): (Device, AddResult)
    requires d.granule >= 1
  {
    var (d', r) := TryAdd(d, requestedBase, size, tag, time);
    (d'.(addRequests := d.addRequests + 1), r)
  }

  predicate Matches(e: Extent, base: nat, size: nat, tag: nat) {
    e.active && (tag == 0 || e.tag == tag) && e.base == base && e.size == size
  }

  /** The first extent that matches, or the number of extents. */
  function FirstMatch(extents: seq<Extent>, base: nat, size: nat, tag: nat): (k: nat)
    ensures k <= |extents|
    ensures k < |extents| ==> Matches(extents[k], base, size, tag)
    ensures forall i :: 0 <= i < k ==> !Matches(extents[i], base, size, tag)
  {
    if extents == [] || Matches(extents[0], base, size, tag) then 0
    else 1 + FirstMatch(extents[1..], base, size, tag)
  }

  function Release(d0: Device, base: nat, size: nat, tag: nat, time: nat): (Device, Status)
    requires d0.granule >= 1
  {
    var d := d0.(releaseRequests := d0.releaseRequests + 1);
    var aligned := AlignedSize(d, size);
    if !WithinDevice(d, base, aligned) then
      (Fail(d), InvalidRequest)
    else
      var k := FirstMatch(d.extents, base, aligned, tag);
      if k == |d.extents| then
        (Fail(d), NotFound)
      else
        (d.(extents := d.extents[k := d.extents[k].(active := false, released := time)]), Ok)
  }

  predicate ExtentContains(e: Extent, addr: nat, size: nat) {
    e.active && RangeContains(e.base, e.size, addr, size)
  }

  predicate IsAllocated(d: Device, addr: nat, size: nat) {
    && size != 0 && addr < d.total && size <= d.total - addr
    && exists i :: 0 <= i < |d.extents| && ExtentContains(d.extents[i], addr, size)
  }

  function NewDevice(total: nat, granule: nat): Device {
    Device(total, if granule == 0 then 1 else granule, 1, [], 0, 0, 0)
  }

  // ---------------------------------------------------------------------------------------------
  // The invariant of every run
  // ---------------------------------------------------------------------------------------------

  /** Inside the device, aligned, and a whole number of granules unless it is the whole device. */
  predicate WellPlaced(d: Device, e: Extent)
    requires d.granule >= 1
  {
    WithinDevice(d, e.base, e.size) && e.base % d.granule == 0 && (e.size % d.granule == 0 || e.size == d.total)
  }

  predicate Apart(e: Extent, f: Extent) {
    e.active && f.active ==> !RangesOverlap(e.base, e.size, f.base, f.size)
  }

  function ReleasedCount(extents: seq<Extent>): nat {
    if extents == [] then 0 else (if extents[0].active then 0 else 1) + ReleasedCount(extents[1..])
  }

  /** Active extents are well placed and disjoint. */
  ghost predicate Packed(d: Device) {
    && 1 <= d.granule <= UINT64_MAX && d.total <= UINT64_MAX
    && (forall i :: 0 <= i < |d.extents| && d.extents[i].active ==> WellPlaced(d, d.extents[i]))
    && Pairwise(d.extents, Apart)
  }

  /** Every request either appended an extent, released one, or failed. */
  ghost predicate Balanced(d: Device) {
    d.addRequests + d.releaseRequests == |d.extents| + ReleasedCount(d.extents) + d.failures
  }

  ghost predicate Valid(d: Device) {
    Packed(d) && Balanced(d)
  }

  lemma AlignUpFacts(granule: nat, value: nat)
    requires 1 <= granule <= UINT64_MAX && value <= UINT64_MAX
    ensures var r := AlignUp(granule, value);
            && r % granule == 0
            && (r != 0 ==> value <= r < value + granule)
            && (value % granule == 0 ==> r == value)
  {
    DivModIdentity(value, granule);
    var q, m := value / granule, value % granule;
    DivModUnique(q + 1, granule, 0);
    assert (q + 1) * granule == q * granule + granule;
  }

  /** Rounding up gives 0 only for 0, or when the next multiple does not fit 64 bits. */
  lemma AlignUpFailsIff(granule: nat, value: nat)
    requires 1 <= granule <= UINT64_MAX && value <= UINT64_MAX
    ensures AlignUp(granule, value) == 0 <==>
            value == 0 || (value % granule != 0 && value - value % granule + granule > UINT64_MAX)
  {
  }

  lemma {:induction false} ReleasedCountOfAppend(extents: seq<Extent>, e: Extent)
    ensures ReleasedCount(extents + [e]) == ReleasedCount(extents) + if e.active then 0 else 1
  {
    if extents != [] {
      assert (extents + [e])[1..] == extents[1..] + [e];
      ReleasedCountOfAppend(extents[1..], e);
    }
  }

  lemma {:induction false} ReleasedCountOfUpdate(extents: seq<Extent>, k: nat, e: Extent)
    requires k < |extents| && extents[k].active && !e.active
    ensures ReleasedCount(extents[k := e]) == ReleasedCount(extents) + 1
  {
    if k > 0 {
      assert extents[k := e][1..] == extents[1..][k - 1 := e];
      ReleasedCountOfUpdate(extents[1..], k - 1, e);
    } else {
      assert extents[0 := e][1..] == extents[1..];
    }
  }

  lemma PlaceKeepsPacked(d: Device, base: nat, size: nat, tag: nat, time: nat)
    requires Packed(d)
    requires base % d.granule == 0 && (size % d.granule == 0 || size == d.total)
    ensures Packed(Place(d, base, size, tag, time).0)
  {
  }

  lemma AlignedSizeFacts(d: Device, size: nat)
    requires 1 <= d.granule <= UINT64_MAX && size <= UINT64_MAX
    ensures AlignedSize(d, size) % d.granule == 0 || AlignedSize(d, size) == d.total
  {
    AlignUpFacts(d.granule, size);
  }

  lemma TryAddKeepsPacked(d: Device, requestedBase: nat, size: nat, tag: nat, time: nat)
    requires Packed(d)
    requires requestedBase <= UINT64_MAX && size <= UINT64_MAX
    ensures Packed(TryAdd(d, requestedBase, size, tag, time).0)
  {
    var aligned := AlignedSize(d, size);
    AlignedSizeFacts(d, size);
    var walk := GapWalk(d, SortedActive(d), 0, aligned);
    if requestedBase == ANY_BASE && walk.Some? {
      GapWalkIsAligned(d, SortedActive(d), 0, aligned);
      PlaceKeepsPacked(d, walk.value, aligned, tag, time);
    } else if requestedBase != ANY_BASE && requestedBase % d.granule == 0 {
      PlaceKeepsPacked(d, requestedBase, aligned, tag, time);
    }
  }

  lemma TryAddCounts(d: Device, requestedBase: nat, size: nat, tag: nat, time: nat)
    requires d.granule >= 1
    ensures var d' := TryAdd(d, requestedBase, size, tag, time).0;
            && |d'.extents| + ReleasedCount(d'.extents) + d'.failures
                 == |d.extents| + ReleasedCount(d.extents) + d.failures + 1
            && d'.addRequests == d.addRequests && d'.releaseRequests == d.releaseRequests
  {
    var d' := TryAdd(d, requestedBase, size, tag, time).0;
    if d'.extents != d.extents {
      ReleasedCountOfAppend(d.extents, d'.extents[|d.extents|]);
    }
  }

  lemma AddKeepsValid(d: Device, requestedBase: nat, size: nat, tag: nat, time: nat)
    requires Valid(d)
    requires requestedBase <= UINT64_MAX && size <= UINT64_MAX
    ensures Valid(Add(d, requestedBase, size, tag, time).0)
  {
    TryAddKeepsPacked(d, requestedBase, size, tag, time);
    TryAddCounts(d, requestedBase, size, tag, time);
  }

  lemma {:induction false} GapWalkIsAligned(d: Device, active: seq<Extent>, candidate: nat, size: nat)
    requires 1 <= d.granule <= UINT64_MAX
    requires candidate % d.granule == 0
    ensures var r := GapWalk(d, active, candidate, size); r.Some? ==> r.value % d.granule == 0
  {
    if active != [] && active[0].base <= UINT64_MAX - active[0].size {
      AlignUpFacts(d.granule, active[0].base + active[0].size);
      GapWalkIsAligned(d, active[1..], AlignUp(d.granule, active[0].base + active[0].size), size);
    }
  }

  lemma ReleaseKeepsValid(d: Device, base: nat, size: nat, tag: nat, time: nat)
    requires Valid(d)
    ensures Valid(Release(d, base, size, tag, time).0)
  {
    var (d', status) := Release(d, base, size, tag, time);
    if status == Ok {
      var k := FirstMatch(d.extents, base, AlignedSize(d, size), tag);
      ReleasedCountOfUpdate(d.extents, k, d'.extents[k]);
    }
  }

  datatype Op =
    | AddOp(requestedBase: nat, size: nat, tag: nat, time: nat)
    | ReleaseOp(base: nat, size: nat, tag: nat, time: nat)

  /** Arguments are 64-bit values. */
  predicate Legal(op: Op) {
    op.size <= UINT64_MAX && (op.AddOp? ==> op.requestedBase <= UINT64_MAX)
  }

  function Apply(d: Device, op: Op): Device
    requires d.granule >= 1
  {
    match op
    case AddOp(base, size, tag, time) => Add(d, base, size, tag, time).0
    case ReleaseOp(base, size, tag, time) => Release(d, base, size, tag, time).0
  }

  function Run(d: Device, ops: seq<Op>): Device
    requires d.granule >= 1
    decreases |ops|
  {
    if ops == [] then d else Run(Apply(d, ops[0]), ops[1..])
  }

  lemma {:induction false} RunKeepsValid(d: Device, ops: seq<Op>)
    requires Valid(d) && forall i :: 0 <= i < |ops| ==> Legal(ops[i])
    ensures Valid(Run(d, ops)) && Run(d, ops).total == d.total && Run(d, ops).granule == d.granule
    decreases |ops|
  {
    if ops != [] {
      match ops[0] {
        case AddOp(base, size, tag, time) => AddKeepsValid(d, base, size, tag, time);
        case ReleaseOp(base, size, tag, time) => ReleaseKeepsValid(d, base, size, tag, time);
      }
      RunKeepsValid(Apply(d, ops[0]), ops[1..]);
    }
  }

  // ---------------------------------------------------------------------------------------------
  // First fit is exact
  // ---------------------------------------------------------------------------------------------

  /** An aligned base whose range is free and inside the device. */
  ghost predicate Fits(d: Device, size: nat, base: nat)
    requires d.granule >= 1
  {
    base % d.granule == 0 && WithinDevice(d, base, size) && !OverlapsActive(d, base, size)
  }

  ghost predicate IsLowestFit(d: Device, size: nat, base: nat)
    requires d.granule >= 1
  {
    Fits(d, size, base) && forall b: nat :: Fits(d, size, b) ==> base <= b
  }

  ghost predicate NothingFits(d: Device, size: nat)
    requires d.granule >= 1
  {
    forall b: nat :: !Fits(d, size, b)
  }

  predicate HoldsWholeDevice(d: Device) {
    exists i :: 0 <= i < |d.extents| && d.extents[i].active && d.extents[i].size == d.total
  }

  /** The end of a full device cannot be rounded up to a granule within 64 bits. */
  predicate EndOverflows(d: Device)
    requires d.granule >= 1
  {
    d.total > 0 && AlignUp(d.granule, d.total) == 0
  }

  lemma {:induction false} ActiveElements(extents: seq<Extent>)
    ensures forall e :: e in Active(extents) <==> e in extents && e.active
    ensures Pairwise(extents, Apart) ==> Pairwise(Active(extents), Apart)
  {
    if extents != [] {
      ActiveElements(extents[1..]);
      assert extents == [extents[0]] + extents[1..];
      assert Pairwise(extents, Apart) ==> Pairwise(extents[1..], Apart);
      if Pairwise(extents, Apart) {
        var rest := Active(extents[1..]);
        forall j | 0 <= j < |rest| ensures Apart(extents[0], rest[j]) {
          assert rest[j] in extents[1..];
        }
      }
    }
  }

  /** A list of exactly the active extents, each ending before the next begins. */
  ghost predicate InOrder(d: Device, s: seq<Extent>)
    requires d.granule >= 1
  {
    && (forall k :: 0 <= k < |s| ==> s[k] in d.extents && s[k].active && WellPlaced(d, s[k]))
    && (forall k, l :: 0 <= k < l < |s| ==> s[k].base + s[k].size <= s[l].base)
    && (forall i :: 0 <= i < |d.extents| && d.extents[i].active ==> d.extents[i] in s)
  }

  lemma SortedActiveElements(d: Device)
    ensures forall e :: e in SortedActive(d) <==> e in d.extents && e.active
  {
    ActiveElements(d.extents);
    SortSorts(Active(d.extents), BaseOf);
    SameElements(SortedActive(d), Active(d.extents));
  }

  lemma SortedActiveApart(d: Device)
    requires Pairwise(d.extents, Apart)
    ensures Pairwise(SortedActive(d), Apart) && SortedBy(SortedActive(d), BaseOf)
  {
    ActiveElements(d.extents);
    SortSorts(Active(d.extents), BaseOf);
    SortKeepsPairwise(Active(d.extents), BaseOf, Apart);
  }

  lemma SortedActiveInOrder(d: Device)
    requires Packed(d)
    ensures InOrder(d, SortedActive(d))
  {
    var s := SortedActive(d);
    SortedActiveElements(d);
    SortedActiveApart(d);
    assert forall k :: 0 <= k < |s| ==> s[k] in s;
    forall k, l | 0 <= k < l < |s| ensures s[k].base + s[k].size <= s[l].base {
      assert s[k] in d.extents && s[l] in d.extents;
      assert BaseOf(s[k]) <= BaseOf(s[l]);
      assert Apart(s[k], s[l]);
    }
  }

  /** What add_capacity passes to the search: a positive multiple of the granule, or the whole device. */
  predicate RequestSize(d: Device, size: nat)
    requires d.granule >= 1
  {
    0 < size <= d.total && (size % d.granule == 0 || size == d.total)
  }

  /** Where the walk stands: everything before position k ends at or below the candidate, nothing below it fits. */
  ghost predicate WalkInv(d: Device, s: seq<Extent>, k: nat, candidate: nat, size: nat)
    requires d.granule >= 1 && k <= |s|
  {
    && candidate % d.granule == 0
    && (forall j :: 0 <= j < k ==> s[j].base + s[j].size <= candidate)
    && (forall b: nat :: b < candidate ==> !Fits(d, size, b))
  }

  lemma CandidateFits(d: Device, s: seq<Extent>, k: nat, candidate: nat, size: nat)
    requires Packed(d) && InOrder(d, s) && k <= |s| && size > 0
    requires WalkInv(d, s, k, candidate, size)
    requires candidate + size <= d.total
    requires k < |s| ==> candidate + size <= s[k].base
    ensures IsLowestFit(d, size, candidate)
  {
  }

  lemma {:induction false} NextAligned(granule: nat, end: nat, b: nat)
    requires 1 <= granule && b % granule == 0 && end <= b
    requires AlignUp(granule, end) != 0
    ensures AlignUp(granule, end) <= b
  {
    if b < AlignUp(granule, end) {
      DivModIdentity(end, granule);
      DivModIdentity(b, granule);
      var q := end / granule;
      assert end % granule != 0;
      if b / granule <= q {
        MulMonotonic(b / granule, q, granule);
      } else {
        MulMonotonic(q + 1, b / granule, granule);
      }
    }
  }

  lemma StepPastExtent(d: Device, s: seq<Extent>, k: nat, candidate: nat, size: nat)
    requires Packed(d) && InOrder(d, s) && k < |s| && size > 0
    requires WalkInv(d, s, k, candidate, size)
    requires candidate + size > s[k].base
    requires AlignUp(d.granule, s[k].base + s[k].size) != 0
    ensures WalkInv(d, s, k + 1, AlignUp(d.granule, s[k].base + s[k].size), size)
  {
    var end := s[k].base + s[k].size;
    var next := AlignUp(d.granule, end);
    AlignUpFacts(d.granule, end);
    forall b: nat | b < next ensures !Fits(d, size, b) {
      if b % d.granule == 0 {
        if end <= b {
          NextAligned(d.granule, end, b);
        } else if candidate <= b {
          OverlapBlocks(d, s[k], size, b);
        }
      }
    }
  }

  lemma OverlapBlocks(d: Device, e: Extent, size: nat, b: nat)
    requires d.granule >= 1 && e in d.extents && e.active && RangesOverlap(b, size, e.base, e.size)
    ensures !Fits(d, size, b)
  {
  }

  /** A base inside the device is the lowest fit; any other answer means that nothing fits. */
  ghost predicate WalkAnswer(d: Device, size: nat, r: Option<nat>)
    requires d.granule >= 1
  {
    if r.Some? && r.value + size <= d.total then IsLowestFit(d, size, r.value) else NothingFits(d, size)
  }

  lemma {:induction false} WalkFromIsExact(d: Device, s: seq<Extent>, k: nat, candidate: nat, size: nat)
    requires Packed(d) && InOrder(d, s) && k <= |s|
    requires RequestSize(d, size) && WalkInv(d, s, k, candidate, size)
    requires !(HoldsWholeDevice(d) && EndOverflows(d))
    ensures var r := GapWalk(d, s[k..], candidate, size);
            WalkAnswer(d, size, r)
    decreases |s| - k
  {
    if k == |s| || candidate + size <= s[k].base {
      WalkStops(d, s, k, candidate, size);
    } else if (candidate + size) % UINT64_VALUES > s[k].base {
      StepOn(d, s, k, candidate, size);
    } else {
      NothingAbove(d, candidate, size);
    }
  }

  lemma NothingAbove(d: Device, candidate: nat, size: nat)
    requires d.granule >= 1 && d.total < candidate + size
    requires forall b: nat :: b < candidate ==> !Fits(d, size, b)
    ensures NothingFits(d, size)
  {
  }

  lemma WalkValue(d: Device, s: seq<Extent>, k: nat, candidate: nat, size: nat)
    requires d.granule >= 1 && d.total <= UINT64_MAX && k <= |s|
    requires k < |s| ==> candidate + size <= s[k].base < d.total
    ensures GapWalk(d, s[k..], candidate, size)
         == if k < |s| || WithinDevice(d, candidate, size) then Some(candidate) else None
  {
  }

  lemma WalkStops(d: Device, s: seq<Extent>, k: nat, candidate: nat, size: nat)
    requires Packed(d) && InOrder(d, s) && k <= |s|
    requires RequestSize(d, size) && WalkInv(d, s, k, candidate, size)
    requires k < |s| ==> candidate + size <= s[k].base
    ensures WalkAnswer(d, size, GapWalk(d, s[k..], candidate, size))
  {
    assert k < |s| ==> WellPlaced(d, s[k]);
    WalkValue(d, s, k, candidate, size);
    if candidate + size <= d.total {
      CandidateFits(d, s, k, candidate, size);
    } else {
      NothingAbove(d, candidate, size);
    }
  }

  lemma {:induction false} StepOn(d: Device, s: seq<Extent>, k: nat, candidate: nat, size: nat)
    requires Packed(d) && InOrder(d, s) && k < |s|
    requires RequestSize(d, size) && WalkInv(d, s, k, candidate, size)
    requires !(HoldsWholeDevice(d) && EndOverflows(d))
    requires s[k].base < candidate + size && (candidate + size) % UINT64_VALUES > s[k].base
    ensures var r := GapWalk(d, s[k..], candidate, size);
            WalkAnswer(d, size, r)
    decreases |s| - k, 0
  {
    var end := s[k].base + s[k].size;
    EndRoundsUp(d, s[k]);
    assert WellPlaced(d, s[k]);
    StepPastExtent(d, s, k, candidate, size);
    WalkFromIsExact(d, s, k + 1, AlignUp(d.granule, end), size);
    WalkAdvances(d, s, k, candidate, size);
  }

  lemma WalkAdvances(d: Device, s: seq<Extent>, k: nat, candidate: nat, size: nat)
    requires d.granule >= 1 && d.total <= UINT64_MAX && k < |s| && WithinDevice(d, s[k].base, s[k].size)
    requires (candidate + size) % UINT64_VALUES > s[k].base
    ensures GapWalk(d, s[k..], candidate, size)
         == GapWalk(d, s[k + 1..], AlignUp(d.granule, s[k].base + s[k].size), size)
  {
    assert s[k..][1..] == s[k + 1..];
  }

  lemma EndRoundsUp(d: Device, e: Extent)
    requires Packed(d) && e in d.extents && e.active
    requires !(HoldsWholeDevice(d) && EndOverflows(d))
    ensures AlignUp(d.granule, e.base + e.size) != 0
  {
    var i :| 0 <= i < |d.extents| && d.extents[i] == e;
    assert WellPlaced(d, e);
    if e.size % d.granule == 0 {
      DivModIdentity(e.base, d.granule);
      DivModIdentity(e.size, d.granule);
      var q, n := e.base / d.granule, e.size / d.granule;
      assert e.base + e.size == (q + n) * d.granule + 0;
      DivModUnique(q + n, d.granule, 0);
    }
  }

  /** A full device whose end cannot be rounded up: the walk offers base 0 although nothing fits. */
  lemma FullDeviceWalk(d: Device, size: nat)
    requires Packed(d) && RequestSize(d, size)
    requires HoldsWholeDevice(d) && EndOverflows(d)
    ensures GapWalk(d, SortedActive(d), 0, size) == Some(0) && NothingFits(d, size)
  {
    var s := SortedActive(d);
    SortedActiveInOrder(d);
    var i :| 0 <= i < |d.extents| && d.extents[i].active && d.extents[i].size == d.total;
    assert WellPlaced(d, d.extents[i]) && d.extents[i].base == 0;
    var k :| 0 <= k < |s| && s[k] == d.extents[i];
    assert s[0].size > 0;
    assert k == 0;
    assert |s| == 1;
    assert GapWalk(d, s[1..], 0, size) == Some(0);
    forall b: nat ensures !Fits(d, size, b) {
      if WithinDevice(d, b, size) {
        assert RangesOverlap(b, size, d.extents[i].base, d.extents[i].size);
      }
    }
  }

  /**
    Automatic placement is right: it succeeds exactly when some aligned base fits, and then at the lowest
    one. When nothing fits a well-formed request it reports OutOfCapacity, except that it reports Overlap
    exactly when one extent holds the whole device and the device's end cannot be rounded up within 64
    bits.
   */
  ghost predicate PlacesExactly(d: Device, size: nat, tag: nat, time: nat)
    requires d.granule >= 1
  {
    var (d', r) := Add(d, ANY_BASE, size, tag, time);
    var aligned := AlignedSize(d, size);
    && (r.status == Ok <==> !NothingFits(d, aligned))
    && (r.status == Ok ==> IsLowestFit(d, aligned, r.base) && r.size == aligned
                           && d'.extents == d.extents + [Extent(r.base, aligned, r.tag, time, 0, true)])
    && (r.status != Ok ==> d'.extents == d.extents)
    && (NothingFits(d, aligned) ==>
          r.status == if aligned == 0 || aligned > d.total then InvalidRequest
                      else if HoldsWholeDevice(d) && EndOverflows(d) then Overlap
                      else OutOfCapacity)
  }

  lemma FirstFitIsExact(d: Device, size: nat, tag: nat, time: nat)
    requires Packed(d) && size <= UINT64_MAX
    ensures PlacesExactly(d, size, tag, time)
  {
    var aligned := AlignedSize(d, size);
    AlignedSizeFacts(d, size);
    if 0 < aligned <= d.total {
      WalkIsExact(d, aligned);
    }
  }

  /**
    An add at a base of the caller's choice: it succeeds exactly when that base is aligned and the rounded
    size fits there, it takes that base and nothing else, and each failure has its own status.
   */
  ghost predicate PlacesAt(d: Device, base: nat, size: nat, tag: nat, time: nat)
    requires d.granule >= 1
  {
    var (d', r) := Add(d, base, size, tag, time);
    var aligned := AlignedSize(d, size);
    var valid := 0 < aligned <= d.total && base % d.granule == 0;
    && (r.status == Ok <==> Fits(d, aligned, base))
    && (r.status == Ok ==> r.base == base && r.size == aligned
                           && d'.extents == d.extents + [Extent(base, aligned, r.tag, time, 0, true)])
    && (r.status != Ok ==> d'.extents == d.extents && d'.nextTag == d.nextTag && r.tag == tag
                           && r.base == (if 0 < aligned <= d.total then base else 0)
                           && r.size == (if 0 < aligned <= d.total then aligned else 0))
    && (r.status == InvalidRequest <==> !valid)
    && (r.status == OutOfCapacity <==> valid && !WithinDevice(d, base, aligned))
    && (r.status == Overlap <==> valid && WithinDevice(d, base, aligned) && OverlapsActive(d, base, aligned))
  }

  lemma AddAtIsExact(d: Device, base: nat, size: nat, tag: nat, time: nat)
    requires d.granule >= 1 && base != ANY_BASE
    ensures PlacesAt(d, base, size, tag, time)
  {
  }

  /** A successful add keeps the caller's tag; for tag 0 it takes the next automatic one. */
  lemma AddTags(d: Device, base: nat, size: nat, tag: nat, time: nat)
    requires d.granule >= 1
    ensures var (d', r) := Add(d, base, size, tag, time);
            && (r.status == Ok ==> r.tag == if tag != 0 then tag else d.nextTag)
            && d'.nextTag == d.nextTag + (if r.status == Ok && tag == 0 then 1 else 0)
  {
  }

  /** The whole device can be asked for even when it is not a number of granules. */
  lemma WholeDeviceFits(total: nat, granule: nat, tag: nat, time: nat)
    requires 0 < total <= UINT64_MAX && granule <= UINT64_MAX
    ensures var r := Add(NewDevice(total, granule), 0, total, tag, time).1;
            r.status == Ok && r.base == 0 && r.size == total
  {
  }

  /**
    A release succeeds exactly when an active extent has that base, the rounded size and the tag, any tag
    matching 0; a range outside the device is invalid, and anything else is not found.
   */
  ghost predicate ReleasesAt(d: Device, base: nat, size: nat, tag: nat, time: nat)
    requires d.granule >= 1
  {
    var (d', status) := Release(d, base, size, tag, time);
    var aligned := AlignedSize(d, size);
    && (status == Ok <==> exists i :: 0 <= i < |d.extents| && Releasable(d.extents[i], base, aligned, tag))
    && (status == InvalidRequest <==> !WithinDevice(d, base, aligned))
    && (status == Ok || status == InvalidRequest || status == NotFound)
    && (status != Ok ==> d'.extents == d.extents)
    && (status == Ok ==> exists i :: 0 <= i < |d.extents| && Releasable(d.extents[i], base, aligned, tag)
                           && d'.extents == d.extents[i := d.extents[i].(active := false, released := time)])
  }

  predicate Releasable(e: Extent, base: nat, size: nat, tag: nat) {
    e.active && e.base == base && e.size == size && (tag == 0 || tag == e.tag)
  }

  lemma ReleaseIsExact(d: Device, base: nat, size: nat, tag: nat, time: nat)
    requires Packed(d)
    ensures ReleasesAt(d, base, size, tag, time)
  {
    var aligned := AlignedSize(d, size);
    var k := FirstMatch(d.extents, base, aligned, tag);
    if k < |d.extents| {
      assert WellPlaced(d, d.extents[k]) && Releasable(d.extents[k], base, aligned, tag);
    }
    if i :| 0 <= i < |d.extents| && Releasable(d.extents[i], base, aligned, tag) {
      assert Matches(d.extents[i], base, aligned, tag);
    }
  }

  /** The exception is real: a full device of 2^64 - 1 bytes with two-byte granules. */
  lemma OverlapIsReachable()
    ensures var d := NewDevice(UINT64_MAX, 2);
            var (d1, r1) := Add(d, 0, UINT64_MAX, 1, 0);
            var (d2, r2) := Add(d1, ANY_BASE, 2, 1, 1);
            r1.status == Ok && r2.status == Overlap
  {
    var d := NewDevice(UINT64_MAX, 2);
    var (d1, r1) := Add(d, 0, UINT64_MAX, 1, 0);
    assert d1.extents == [Extent(0, UINT64_MAX, 1, 0, 0, true)];
    AddKeepsValid(d, 0, UINT64_MAX, 1, 0);
    assert HoldsWholeDevice(d1) by {
      assert d1.extents[0].active && d1.extents[0].size == d1.total;
    }
    assert AlignedSize(d1, 2) == 2;
    FullDeviceWalk(d1, 2);
    FirstFitIsExact(d1, 2, 1, 1);
  }

  lemma WalkIsExact(d: Device, size: nat)
    requires Packed(d) && RequestSize(d, size)
    ensures var r := GapWalk(d, SortedActive(d), 0, size);
            if HoldsWholeDevice(d) && EndOverflows(d) then r == Some(0) && NothingFits(d, size)
            else WalkAnswer(d, size, r)
  {
    if HoldsWholeDevice(d) && EndOverflows(d) {
      FullDeviceWalk(d, size);
    } else {
      var s := SortedActive(d);
      assert s[0..] == s;
      SortedActiveInOrder(d);
      WalkFromIsExact(d, s, 0, 0, size);
    }
  }

  // ---------------------------------------------------------------------------------------------
  // Bytes: conservation of capacity, and release undoing add
  // ---------------------------------------------------------------------------------------------

  ghost function Range(base: nat, size: nat): set<nat> {
    set x | 0 <= x < base + size && Covers(base, size, x)
  }

  lemma {:induction false} RangeSize(base: nat, size: nat)
    ensures |Range(base, size)| == size
  {
    if size > 0 {
      RangeSize(base, size - 1);
      assert Range(base, size) == Range(base, size - 1) + {base + size - 1};
    } else {
      assert Range(base, size) == {};
    }
  }

  /** The tag of the active extent that covers a byte. */
  function TagAt(extents: seq<Extent>, x: nat): Option<nat> {
    if extents == [] then None
    else if extents[0].active && Covers(extents[0].base, extents[0].size, x) then Some(extents[0].tag)
    else TagAt(extents[1..], x)
  }

  predicate Holds(e: Extent, x: nat) {
    e.active && Covers(e.base, e.size, x)
  }

  lemma {:induction false} TagAtOfHolder(extents: seq<Extent>, i: nat, x: nat)
    requires Pairwise(extents, Apart) && i < |extents| && Holds(extents[i], x)
    ensures TagAt(extents, x) == Some(extents[i].tag)
  {
    if i > 0 {
      assert Apart(extents[0], extents[i]);
      OverlapIffSharedByte(extents[0].base, extents[0].size, extents[i].base, extents[i].size);
      TagAtOfHolder(extents[1..], i - 1, x);
    }
  }

  lemma {:induction false} TagAtOfFreeByte(extents: seq<Extent>, x: nat)
    ensures TagAt(extents, x) == None <==> forall i :: 0 <= i < |extents| ==> !Holds(extents[i], x)
  {
    if extents != [] {
      TagAtOfFreeByte(extents[1..], x);
      assert forall i :: 0 < i < |extents| ==> extents[i] == extents[1..][i - 1];
    }
  }

  /** A successful add takes bytes that were free and leaves every other byte with its owner. */
  lemma AddClaimsExactly(d: Device, requestedBase: nat, size: nat, tag: nat, time: nat, x: nat)
    requires Packed(d) && requestedBase <= UINT64_MAX && size <= UINT64_MAX
    ensures var (d', r) := Add(d, requestedBase, size, tag, time);
            && TagAt(d'.extents, x) == (if r.status == Ok && Covers(r.base, r.size, x) then Some(r.tag)
                                        else TagAt(d.extents, x))
            && (r.status == Ok && Covers(r.base, r.size, x) ==> TagAt(d.extents, x) == None)
  {
    var (d', r) := Add(d, requestedBase, size, tag, time);
    if r.status == Ok {
      TryAddKeepsPacked(d, requestedBase, size, tag, time);
      var n := |d.extents|;
      assert d'.extents == d.extents + [d'.extents[n]];
      TagAtOfFreeByte(d.extents, x);
      TagAtOfFreeByte(d'.extents, x);
      if Covers(r.base, r.size, x) {
        TagAtOfHolder(d'.extents, n, x);
        forall i | 0 <= i < n ensures !Holds(d.extents[i], x) {
          assert Apart(d'.extents[i], d'.extents[n]);
          OverlapIffSharedByte(d.extents[i].base, d.extents[i].size, r.base, r.size);
        }
      } else if i :| 0 <= i < n && Holds(d.extents[i], x) {
        TagAtOfHolder(d.extents, i, x);
        TagAtOfHolder(d'.extents, i, x);
      }
    }
  }

  /** A successful release frees exactly the bytes of the range it names. */
  lemma ReleaseFreesExactly(d: Device, base: nat, size: nat, tag: nat, time: nat, x: nat)
    requires Packed(d)
    ensures var (d', status) := Release(d, base, size, tag, time);
            TagAt(d'.extents, x) == if status == Ok && Covers(base, AlignedSize(d, size), x) then None
                                    else TagAt(d.extents, x)
  {
    var (d', status) := Release(d, base, size, tag, time);
    if status == Ok {
      var k := FirstMatch(d.extents, base, AlignedSize(d, size), tag);
      TagAtOfFreeByte(d.extents, x);
      TagAtOfFreeByte(d'.extents, x);
      if Covers(base, AlignedSize(d, size), x) {
        forall i | 0 <= i < |d.extents| && i != k ensures !Holds(d.extents[i], x) {
          assert Apart(d.extents[if i < k then i else k], d.extents[if i < k then k else i]);
          OverlapIffSharedByte(d.extents[i].base, d.extents[i].size, base, AlignedSize(d, size));
          OverlapIffSharedByte(base, AlignedSize(d, size), d.extents[i].base, d.extents[i].size);
        }
      } else if i :| 0 <= i < |d.extents| && Holds(d.extents[i], x) {
        assert i != k && d'.extents[i] == d.extents[i];
        TagAtOfHolder(d.extents, i, x);
        TagAtOfHolder(d'.extents, i, x);
      } else {
        assert forall i :: 0 <= i < |d.extents| && i != k ==> d'.extents[i] == d.extents[i];
      }
    }
  }

  /** Some active extent is exactly this range. */
  predicate HasExtent(d: Device, base: nat, size: nat) {
    exists i :: 0 <= i < |d.extents| && IsExtent(d.extents[i], base, size)
  }

  predicate IsExtent(e: Extent, base: nat, size: nat) {
    e.active && e.base == base && e.size == size
  }

  /** An add makes the range of its result an extent, and no other. */
  lemma AddChangesExtents(d: Device, requestedBase: nat, size: nat, tag: nat, time: nat, b: nat, z: nat)
    requires d.granule >= 1
    ensures var (d', r) := Add(d, requestedBase, size, tag, time);
            HasExtent(d', b, z) <==> HasExtent(d, b, z) || (r.status == Ok && r.base == b && r.size == z)
  {
    var (d', r) := Add(d, requestedBase, size, tag, time);
    var n := |d.extents|;
    if r.status == Ok {
      assert d'.extents == d.extents + [d'.extents[n]];
      assert IsExtent(d'.extents[n], b, z) <==> r.base == b && r.size == z;
      assert forall i :: 0 <= i < n ==> d'.extents[i] == d.extents[i];
    }
  }

  /** A release ends the one extent with its aligned range, and no other. */
  lemma ReleaseChangesExtents(d: Device, base: nat, size: nat, tag: nat, time: nat, b: nat, z: nat)
    requires Packed(d)
    ensures var (d', status) := Release(d, base, size, tag, time);
            HasExtent(d', b, z) <==>
            HasExtent(d, b, z) && !(status == Ok && base == b && AlignedSize(d, size) == z)
  {
    var (d', status) := Release(d, base, size, tag, time);
    if status == Ok {
      var k := FirstMatch(d.extents, base, AlignedSize(d, size), tag);
      assert forall i :: 0 <= i < |d.extents| && i != k ==> d'.extents[i] == d.extents[i];
      if base == b && AlignedSize(d, size) == z {
        forall i | 0 <= i < |d.extents| && i != k ensures !IsExtent(d.extents[i], b, z) {
          assert WellPlaced(d, d.extents[k]);
          assert Apart(d.extents[if i < k then i else k], d.extents[if i < k then k else i]);
        }
      } else if i :| 0 <= i < |d.extents| && IsExtent(d.extents[i], b, z) {
        assert IsExtent(d'.extents[i], b, z);
      }
    }
  }

  /** A range is allocated exactly when some extent contains it. */
  lemma AllocatedIffInExtent(d: Device, addr: nat, size: nat)
    requires Packed(d)
    ensures IsAllocated(d, addr, size) <==> exists b, z :: RangeContains(b, z, addr, size) && HasExtent(d, b, z)
  {
    if IsAllocated(d, addr, size) {
      var i :| 0 <= i < |d.extents| && ExtentContains(d.extents[i], addr, size);
      assert IsExtent(d.extents[i], d.extents[i].base, d.extents[i].size);
      assert HasExtent(d, d.extents[i].base, d.extents[i].size);
    }
    if b, z :| RangeContains(b, z, addr, size) && HasExtent(d, b, z) {
      var i :| 0 <= i < |d.extents| && IsExtent(d.extents[i], b, z);
      assert WellPlaced(d, d.extents[i]) && ExtentContains(d.extents[i], addr, size);
    }
  }

  /** Releasing exactly what an add returned succeeds and gives every byte back to its previous owner. */
  lemma ReleaseUndoesAdd(d: Device, requestedBase: nat, size: nat, tag: nat, t0: nat, t1: nat)
    requires Packed(d) && requestedBase <= UINT64_MAX && size <= UINT64_MAX
    requires Add(d, requestedBase, size, tag, t0).1.status == Ok
    ensures var (d1, r) := Add(d, requestedBase, size, tag, t0);
            var (d2, status) := Release(d1, r.base, r.size, r.tag, t1);
            status == Ok && forall x :: TagAt(d2.extents, x) == TagAt(d.extents, x)
  {
    var (d1, r) := Add(d, requestedBase, size, tag, t0);
    TryAddKeepsPacked(d, requestedBase, size, tag, t0);
    AlignedSizeFacts(d, size);
    AlignUpFacts(d.granule, r.size);
    assert AlignedSize(d1, r.size) == r.size;
    var n := |d.extents|;
    assert d1.extents[n] == Extent(r.base, r.size, r.tag, t0, 0, true);
    assert Matches(d1.extents[n], r.base, r.size, r.tag);
    var d2 := Release(d1, r.base, r.size, r.tag, t1).0;
    forall x ensures TagAt(d2.extents, x) == TagAt(d.extents, x) {
      AddClaimsExactly(d, requestedBase, size, tag, t0, x);
      ReleaseFreesExactly(d1, r.base, r.size, r.tag, t1, x);
    }
  }

  ghost function AllocatedBytes(d: Device): set<nat> {
    set x | 0 <= x < d.total && TagAt(d.extents, x).Some?
  }

  function SumActive(extents: seq<Extent>): nat {
    if extents == [] then 0 else (if extents[0].active then extents[0].size else 0) + SumActive(extents[1..])
  }

  /** The sizes of the active extents add up to the number of bytes they cover. */
  lemma {:induction false} SizesCountBytes(d: Device)
    requires Packed(d)
    ensures SumActive(d.extents) == |AllocatedBytes(d)|
    decreases |d.extents|
  {
    if d.extents == [] {
      assert AllocatedBytes(d) == {};
    } else {
      var e, rest := d.extents[0], d.(extents := d.extents[1..]);
      SizesCountBytes(rest);
      RangeSize(e.base, e.size);
      if e.active {
        assert WellPlaced(d, e);
        forall x | Covers(e.base, e.size, x) ensures x !in AllocatedBytes(rest) {
          TagAtOfFreeByte(rest.extents, x);
          forall i | 0 <= i < |rest.extents| ensures !Holds(rest.extents[i], x) {
            assert Apart(d.extents[0], d.extents[i + 1]);
            OverlapIffSharedByte(e.base, e.size, rest.extents[i].base, rest.extents[i].size);
          }
        }
        assert AllocatedBytes(d) == Range(e.base, e.size) + AllocatedBytes(rest);
      } else {
        assert AllocatedBytes(d) == AllocatedBytes(rest);
      }
    }
  }

  lemma SubsetSize(a: set<nat>, b: set<nat>)
    requires a <= b
    ensures |a| <= |b|
  {
    assert b == a + (b - a);
  }

  /** Packing: the active extents never add up to more than the device. */
  lemma CapacityIsConserved(d: Device)
    requires Packed(d)
    ensures SumActive(d.extents) == |AllocatedBytes(d)| <= d.total
  {
    SizesCountBytes(d);
    RangeSize(0, d.total);
    SubsetSize(AllocatedBytes(d), Range(0, d.total));
  }

  /** First fit is exact in every state that adds and releases can reach. */
  lemma EveryRunPlacesExactly(total: nat, granule: nat, ops: seq<Op>, size: nat, tag: nat, time: nat)
    requires total <= UINT64_MAX && granule <= UINT64_MAX && size <= UINT64_MAX
    requires forall i :: 0 <= i < |ops| ==> Legal(ops[i])
    ensures var d := Run(NewDevice(total, granule), ops);
            d.granule >= 1 && PlacesExactly(d, size, tag, time)
  {
    RunKeepsValid(NewDevice(total, granule), ops);
    FirstFitIsExact(Run(NewDevice(total, granule), ops), size, tag, time);
  }

  /** So are an add at a given base and a release. */
  lemma EveryRunAnswersExactly(total: nat, granule: nat, ops: seq<Op>, base: nat, size: nat, tag: nat, time: nat)
    requires total <= UINT64_MAX && granule <= UINT64_MAX && base != ANY_BASE
    requires forall i :: 0 <= i < |ops| ==> Legal(ops[i])
    ensures var d := Run(NewDevice(total, granule), ops);
            d.granule >= 1 && PlacesAt(d, base, size, tag, time) && ReleasesAt(d, base, size, tag, time)
  {
    RunKeepsValid(NewDevice(total, granule), ops);
    AddAtIsExact(Run(NewDevice(total, granule), ops), base, size, tag, time);
    ReleaseIsExact(Run(NewDevice(total, granule), ops), base, size, tag, time);
  }

  /** The automatic tags a run has given out. */
  function AutomaticAdds(d: Device, ops: seq<Op>): nat
    requires d.granule >= 1
    decreases |ops|
  {
    if ops == [] then 0
    else
      (if ops[0].AddOp? && ops[0].tag == 0
          && Add(d, ops[0].requestedBase, ops[0].size, 0, ops[0].time).1.status == Ok then 1 else 0)
      + AutomaticAdds(Apply(d, ops[0]), ops[1..])
  }

  /** Automatic tags count up from 1, one for each successful add that asked for one. */
  lemma {:induction false} AutomaticTagsCount(d: Device, ops: seq<Op>)
    requires d.granule >= 1
    ensures Run(d, ops).nextTag == d.nextTag + AutomaticAdds(d, ops)
    decreases |ops|
  {
    if ops != [] {
      if ops[0].AddOp? {
        AddTags(d, ops[0].requestedBase, ops[0].size, ops[0].tag, ops[0].time);
      }
      AutomaticTagsCount(Apply(d, ops[0]), ops[1..]);
    }
  }

  /** On a new device they start at 1, and a granule of 0 counts as single bytes. */
  lemma NewDeviceIsExact(total: nat, granule: nat, ops: seq<Op>, size: nat)
    requires total <= UINT64_MAX && granule <= UINT64_MAX
    ensures var d := NewDevice(total, granule);
            && d.granule >= 1 && Run(d, ops).nextTag == 1 + AutomaticAdds(d, ops)
            && (granule == 0 ==> AlignedSize(d, size) == size)
            && !HasExtent(d, 0, size)
  {
    AutomaticTagsCount(NewDevice(total, granule), ops);
  }

  /** The same after every run of adds and releases from a new device, with the request counters balanced. */
  lemma EveryRunConserves(total: nat, granule: nat, ops: seq<Op>)
    requires total <= UINT64_MAX && granule <= UINT64_MAX
    requires forall i :: 0 <= i < |ops| ==> Legal(ops[i])
    ensures var d := Run(NewDevice(total, granule), ops);
            Valid(d) && SumActive(d.extents) == |AllocatedBytes(d)| <= d.total == total
  {
    RunKeepsValid(NewDevice(total, granule), ops);
    CapacityIsConserved(Run(NewDevice(total, granule), ops));
  }

  // ---------------------------------------------------------------------------------------------
  // The device, updated in place
  // ---------------------------------------------------------------------------------------------

  datatype Stats = Stats(total: nat, used: nat, free: nat, activeExtents: nat,
                         addRequests: nat, releaseRequests: nat, failures: nat)

  class DynamicCapacityDevice {
    const total: nat
    const granule: nat
    var nextTag: nat
    var extents: seq<Extent>
    var addRequests: nat
    var releaseRequests: nat
    var failures: nat

    ghost function Model(): Device
      reads this
    {
      Device(total, granule, nextTag, extents, addRequests, releaseRequests, failures)
    }

    constructor (total: nat, granule: nat)
      requires total <= UINT64_MAX && granule <= UINT64_MAX
      ensures Model() == NewDevice(total, granule) && Valid(Model())
    {
      this.total := total;
      this.granule := if granule == 0 then 1 else granule;
      nextTag, extents, addRequests, releaseRequests, failures := 1, [], 0, 0, 0;
    }

    method CollectActive() returns (active: seq<Extent>)
      ensures active == Active(extents)
    {
      active := [];
      for i := 0 to |extents|
        invariant active + Active(extents[i..]) == Active(extents)
      {
        assert extents[i..][1..] == extents[i + 1..];
        if extents[i].active {
          active := active + [extents[i]];
        }
      }
    }

    method RangeOverlapsActive(base: nat, size: nat) returns (overlaps: bool)
      ensures overlaps <==> OverlapsActive(Model(), base, size)
    {
      for i := 0 to |extents|
        invariant forall j :: 0 <= j < i ==>
          !(extents[j].active && RangesOverlap(base, size, extents[j].base, extents[j].size))
      {
        if extents[i].active && RangesOverlap(base, size, extents[i].base, extents[i].size) {
          return true;
        }
      }
      return false;
    }

    method FindFreeBase(size: nat) returns (r: Option<nat>)
      requires granule >= 1
      ensures r == GapWalk(Model(), SortedActive(Model()), 0, size)
      ensures Packed(Model()) && RequestSize(Model(), size) && !(HoldsWholeDevice(Model()) && EndOverflows(Model()))
          ==> WalkAnswer(Model(), size, r)
    {
      if Packed(Model()) && RequestSize(Model(), size) {
        WalkIsExact(Model(), size);
      }
      var active := CollectActive();
      active := Sort(active, BaseOf);
      var candidate: nat := 0;
      for i := 0 to |active|
        invariant GapWalk(Model(), active[i..], candidate, size) == GapWalk(Model(), active, 0, size)
      {
        if (candidate + size) % UINT64_VALUES <= active[i].base {
          return Some(candidate);
        }
        if active[i].base > UINT64_MAX - active[i].size {
          return None;
        }
        assert active[i..][1..] == active[i + 1..];
        candidate := AlignUp(granule, active[i].base + active[i].size);
      }
      if candidate < total && 0 < size <= total - candidate {
        return Some(candidate);
      }
      return None;
    }

    method PlaceAt(base: nat, size: nat, tag: nat, time: nat) returns (r: AddResult)
      modifies this`nextTag, this`extents, this`failures
      ensures (Model(), r) == Place(old(Model()), base, size, tag, time)
    {
      if !WithinDevice(Device(total, granule, 0, [], 0, 0, 0), base, size) {
        failures := failures + 1;
        return AddResult(OutOfCapacity, base, size, tag);
      }
      var overlaps := RangeOverlapsActive(base, size);
      if overlaps {
        failures := failures + 1;
        return AddResult(Overlap, base, size, tag);
      }
      var extentTag := tag;
      if tag == 0 {
        extentTag := nextTag;
        nextTag := nextTag + 1;
      }
      extents := extents + [Extent(base, size, extentTag, time, 0, true)];
      return AddResult(Ok, base, size, extentTag);
    }

    method AddCapacity(requestedBase: nat, size: nat, tag: nat, time: nat) returns (r: AddResult)
      requires Valid(Model())
      requires requestedBase <= UINT64_MAX && size <= UINT64_MAX
      modifies this
      ensures (Model(), r) == Add(old(Model()), requestedBase, size, tag, time)
      ensures Valid(Model())
    {
      AddKeepsValid(Model(), requestedBase, size, tag, time);
      var aligned := if size == total then size else AlignUp(granule, size);
      if aligned == 0 || aligned > total {
        failures, r := failures + 1, AddResult(InvalidRequest, 0, 0, tag);
      } else if requestedBase == ANY_BASE {
        var free := FindFreeBase(aligned);
        match free
        case None =>
          failures, r := failures + 1, AddResult(OutOfCapacity, 0, aligned, tag);
        case Some(base) =>
          r := PlaceAt(base, aligned, tag, time);
      } else if requestedBase % granule != 0 {
        failures, r := failures + 1, AddResult(InvalidRequest, requestedBase, aligned, tag);
      } else {
        r := PlaceAt(requestedBase, aligned, tag, time);
      }
      addRequests := addRequests + 1;
    }

    method ReleaseCapacity(base: nat, size: nat, tag: nat, time: nat) returns (status: Status)
      requires Valid(Model())
      modifies this
      ensures (Model(), status) == Release(old(Model()), base, size, tag, time)
      ensures Valid(Model())
    {
      ReleaseKeepsValid(Model(), base, size, tag, time);
      releaseRequests := releaseRequests + 1;
      var aligned := if size == total then size else AlignUp(granule, size);
      if !(aligned > 0 && base < total && aligned <= total - base) {
        failures := failures + 1;
        return InvalidRequest;
      }
      ghost var k := FirstMatch(extents, base, aligned, tag);
      for i := 0 to |extents|
        invariant extents == old(extents) && failures == old(failures)
        invariant forall j :: 0 <= j < i ==> !Matches(extents[j], base, aligned, tag)
      {
        var tagMatches := tag == 0 || extents[i].tag == tag;
        if extents[i].active && tagMatches && extents[i].base == base && extents[i].size == aligned {
          assert i == k;
          extents := extents[i := extents[i].(active := false, released := time)];
          return Ok;
        }
      }
      failures := failures + 1;
      return NotFound;
    }

    method FindExtent(addr: nat, size: nat) returns (r: Option<Extent>)
      ensures r.Some? <==> IsAllocated(Model(), addr, size)
      ensures r.Some? ==> r.value in extents && ExtentContains(r.value, addr, size)
    {
      if size == 0 || addr >= total || size > total - addr {
        return None;
      }
      for i := 0 to |extents|
        invariant forall j :: 0 <= j < i ==> !ExtentContains(extents[j], addr, size)
      {
        if extents[i].active && RangeContains(extents[i].base, extents[i].size, addr, size) {
          return Some(extents[i]);
        }
      }
      return None;
    }

    method ActiveExtents() returns (active: seq<Extent>)
      requires Valid(Model())
      ensures InOrder(Model(), active)
    {
      SortedActiveInOrder(Model());
      active := CollectActive();
      active := Sort(active, BaseOf);
    }

    /** The clamp on free capacity never applies: allocated and free add up to the device. */
    method GetStats() returns (s: Stats)
      requires Valid(Model())
      ensures s.total == total && s.used + s.free == total
      ensures s.used == |AllocatedBytes(Model())|
      ensures s.activeExtents == |Active(extents)|
      ensures s.addRequests == addRequests && s.releaseRequests == releaseRequests && s.failures == failures
      ensures s.addRequests + s.releaseRequests == |extents| + ReleasedCount(extents) + s.failures
    {
      CapacityIsConserved(Model());
      var used, active := 0, 0;
      for i := 0 to |extents|
        invariant used + SumActive(extents[i..]) == SumActive(extents)
        invariant active + |Active(extents[i..])| == |Active(extents)|
      {
        assert extents[i..][1..] == extents[i + 1..];
        if extents[i].active {
          used := used + extents[i].size;
          active := active + 1;
        }
      }
      s := Stats(total, used, if total >= used then total - used else 0, active,
                 addRequests, releaseRequests, failures);
    }
  }
}
