/**
  The host-managed device memory decoder of src/hdm_decoder.cpp: address ranges looked up by a linear
  scan or, once sorted, by binary search; an interleave set; and a hybrid of the two. Addresses and
  sizes are 64-bit values, and the end of a range is computed modulo 2^64 as the source does.
 */
module Hdm {
  import opened Arithmetic
  import opened Common
  import opened Sorting

  const NO_TARGET: nat := 0xFFFF_FFFF      // UINT32_MAX: not decoded

  datatype Range = Range(base: nat, size: nat, target: nat, isRemote: bool)

  datatype Granularity = Cacheline64 | Cacheline256 | Page4K | Page2M | Page1G {
    function Bytes(): (g: nat)
      ensures g > 0
    {
      match this
      case Cacheline64 => 64
      case Cacheline256 => 256
      case Page4K => 4096
      case Page2M => 2097152
      case Page1G => 1073741824
    }
  }

  datatype Interleave = Interleave(granularity: Granularity, targets: seq<nat>, base: nat, size: nat)

  datatype Mode = Interleaved | RangeBased | Hybrid

  datatype Result = Result(target: nat, offset: nat, isRemote: bool, hops: nat)

  const MISS := Result(NO_TARGET, 0, false, 0)

  // ---------------------------------------------------------------------------------------------
  // Ranges
  // ---------------------------------------------------------------------------------------------

  /** The address is in the range, with the end wrapped to 64 bits: a range that wraps holds nothing. */
  predicate Hits(r: Range, addr: nat) {
    r.base <= addr < End(r)
  }

  function End(r: Range): nat {
    (r.base + r.size) % UINT64_VALUES
  }

  /** A range holds exactly the addresses it names, unless its end does not fit 64 bits: then it holds none. */
  lemma RangeIsExact(r: Range, addr: nat)
    requires r.base < UINT64_VALUES && r.size < UINT64_VALUES
    ensures Hits(r, addr) <==> r.base + r.size < UINT64_VALUES && r.base <= addr < r.base + r.size
  {
  }

  function Answer(r: Range, addr: nat): Result
    requires r.base <= addr
  {
    Result(r.target, addr - r.base, r.isRemote, if r.isRemote then 1 else 0)
  }

  /** The first range that holds the address. */
  function LinearScan(ranges: seq<Range>, addr: nat): Result {
    if ranges == [] then MISS
    else if Hits(ranges[0], addr) then Answer(ranges[0], addr)
    else LinearScan(ranges[1..], addr)
  }

  /** Binary search among the ranges lo..hi, both included. */
  function BinarySearch(ranges: seq<Range>, addr: nat, lo: int, hi: int): Result
    requires 0 <= lo && hi < |ranges|
    decreases hi - lo + 1
  {
    if lo > hi then MISS
    else
      var mid := lo + (hi - lo) / 2;
      if addr < ranges[mid].base then BinarySearch(ranges, addr, lo, mid - 1)
      else if addr >= End(ranges[mid]) then BinarySearch(ranges, addr, mid + 1, hi)
      else Answer(ranges[mid], addr)
  }

  function BaseOf(r: Range): int {
    r.base
  }

  /** Neither range holds the other's base: they are disjoint, and an empty one is not inside the other. */
  predicate Compatible(r: Range, q: Range) {
    !Hits(r, q.base) && !Hits(q, r.base)
  }

  predicate FirstHit(ranges: seq<Range>, addr: nat, i: nat)
    requires i < |ranges|
  {
    Hits(ranges[i], addr) && forall j :: 0 <= j < i ==> !Hits(ranges[j], addr)
  }

  lemma {:induction false} LinearScanFinds(ranges: seq<Range>, addr: nat, i: nat)
    requires i < |ranges| && FirstHit(ranges, addr, i)
    ensures LinearScan(ranges, addr) == Answer(ranges[i], addr)
  {
    if i > 0 {
      assert !Hits(ranges[0], addr);
      assert forall j :: 0 <= j < i - 1 ==> ranges[1..][j] == ranges[j + 1];
      LinearScanFinds(ranges[1..], addr, i - 1);
    }
  }

  lemma {:induction false} LinearScanMisses(ranges: seq<Range>, addr: nat)
    requires forall i :: 0 <= i < |ranges| ==> !Hits(ranges[i], addr)
    ensures LinearScan(ranges, addr) == MISS
  {
    if ranges != [] {
      LinearScanMisses(ranges[1..], addr);
    }
  }

  /** Among compatible ranges at most one holds an address. */
  lemma OnlyHit(ranges: seq<Range>, addr: nat, i: nat)
    requires Pairwise(ranges, Compatible) && i < |ranges| && Hits(ranges[i], addr)
    ensures FirstHit(ranges, addr, i)
  {
  }

  /** Each range starts no earlier than those before it start and end. */
  ghost predicate InOrder(ranges: seq<Range>) {
    forall i, j :: 0 <= i < j < |ranges| ==> ranges[i].base <= ranges[j].base && End(ranges[i]) <= ranges[j].base
  }

  lemma SortedCompatibleInOrder(ranges: seq<Range>)
    requires SortedBy(ranges, BaseOf) && Pairwise(ranges, Compatible)
    ensures InOrder(ranges)
  {
  }

  /** Everything outside lo..hi has been excluded. */
  lemma {:induction false} BinarySearchFrom(ranges: seq<Range>, addr: nat, lo: int, hi: int)
    requires InOrder(ranges)
    requires 0 <= lo <= hi + 1 <= |ranges|
    requires forall i :: 0 <= i < |ranges| && (i < lo || hi < i) ==> !Hits(ranges[i], addr)
    ensures BinarySearch(ranges, addr, lo, hi) == LinearScan(ranges, addr)
    decreases hi - lo + 1
  {
    if lo > hi {
      LinearScanMisses(ranges, addr);
    } else {
      var mid := lo + (hi - lo) / 2;
      if addr < ranges[mid].base {
        BinarySearchFrom(ranges, addr, lo, mid - 1);
      } else {
        assert forall i :: 0 <= i < mid ==> !Hits(ranges[i], addr) by {
          assert forall i :: 0 <= i < mid ==> End(ranges[i]) <= ranges[mid].base;
        }
        if addr >= End(ranges[mid]) {
          BinarySearchFrom(ranges, addr, mid + 1, hi);
        } else {
          LinearScanFinds(ranges, addr, mid);
        }
      }
    }
  }

  /** On sorted, compatible ranges both lookups agree for every address. */
  lemma BinaryRefinesLinear(ranges: seq<Range>, addr: nat)
    requires SortedBy(ranges, BaseOf) && Pairwise(ranges, Compatible)
    ensures BinarySearch(ranges, addr, 0, |ranges| - 1) == LinearScan(ranges, addr)
  {
    SortedCompatibleInOrder(ranges);
    BinarySearchFrom(ranges, addr, 0, |ranges| - 1);
  }

  /** The order of compatible ranges does not matter to the scan. */
  lemma ScanIgnoresOrder(ranges: seq<Range>, s: seq<Range>, addr: nat)
    requires Pairwise(ranges, Compatible) && Pairwise(s, Compatible)
    requires forall r :: r in ranges <==> r in s
    ensures LinearScan(ranges, addr) == LinearScan(s, addr)
  {
    if i :| 0 <= i < |ranges| && Hits(ranges[i], addr) {
      assert ranges[i] in s;
      var j :| 0 <= j < |s| && s[j] == ranges[i];
      OnlyHit(ranges, addr, i);
      OnlyHit(s, addr, j);
      LinearScanFinds(ranges, addr, i);
      LinearScanFinds(s, addr, j);
    } else {
      LinearScanMisses(ranges, addr);
      forall j | 0 <= j < |s| ensures !Hits(s[j], addr) {
        assert s[j] in ranges;
      }
      LinearScanMisses(s, addr);
    }
  }

  /** Sorting compatible ranges changes no answer, although lookups then use binary search. */
  lemma SortingKeepsAnswers(ranges: seq<Range>, s: seq<Range>, addr: nat)
    requires Pairwise(ranges, Compatible)
    requires s == Sort(ranges, BaseOf)
    ensures SortedBy(s, BaseOf) && Pairwise(s, Compatible)
    ensures BinarySearch(s, addr, 0, |s| - 1) == LinearScan(ranges, addr)
  {
    SortSorts(ranges, BaseOf);
    SortKeepsPairwise(ranges, BaseOf, Compatible);
    SameElements(ranges, s);
    BinaryRefinesLinear(s, addr);
    ScanIgnoresOrder(ranges, s, addr);
  }

  /** Compatibility matters: binary search misses an address of the first range behind a nested one. */
  lemma NestedRangeHidesAddress(base: nat, target: nat)
    requires base + 100 < UINT64_VALUES && target != NO_TARGET
    ensures var ranges := [Range(base, 100, target, false), Range(base + 10, 10, 0, false), Range(base + 30, 10, 0, false)];
            && SortedBy(ranges, BaseOf)
            && LinearScan(ranges, base + 25).target == target
            && BinarySearch(ranges, base + 25, 0, 2) == MISS
  {
  }

  /** The range that binary search stops at. */
  function FoundIndex(ranges: seq<Range>, addr: nat, lo: int, hi: int): (k: Option<nat>)
    requires 0 <= lo && hi < |ranges|
    ensures k.Some? ==> lo <= k.value <= hi && Hits(ranges[k.value], addr)
    decreases hi - lo + 1
  {
    if lo > hi then None
    else
      var mid := lo + (hi - lo) / 2;
      if addr < ranges[mid].base then FoundIndex(ranges, addr, lo, mid - 1)
      else if addr >= End(ranges[mid]) then FoundIndex(ranges, addr, mid + 1, hi)
      else Some(mid)
  }

  lemma {:induction false} SearchAnswersFound(ranges: seq<Range>, addr: nat, lo: int, hi: int)
    requires 0 <= lo && hi < |ranges|
    ensures var k := FoundIndex(ranges, addr, lo, hi);
            BinarySearch(ranges, addr, lo, hi) == if k.Some? then Answer(ranges[k.value], addr) else MISS
    decreases hi - lo + 1
  {
    if lo <= hi {
      var mid := lo + (hi - lo) / 2;
      SearchAnswersFound(ranges, addr, lo, mid - 1);
      SearchAnswersFound(ranges, addr, mid + 1, hi);
    }
  }

  /** Every midpoint right of position `i` that the search for `i` meets starts above the address. */
  predicate Reaches(ranges: seq<Range>, addr: nat, i: int, lo: int, hi: int)
    requires 0 <= lo <= i <= hi < |ranges|
    decreases hi - lo
  {
    var mid := lo + (hi - lo) / 2;
    if i < mid then addr < ranges[mid].base && Reaches(ranges, addr, i, lo, mid - 1)
    else i == mid || Reaches(ranges, addr, i, mid + 1, hi)
  }

  /** On sorted ranges, overlapping or not, binary search stops at the first hit exactly when it reaches it. */
  lemma {:induction false} FoundIffReached(ranges: seq<Range>, addr: nat, i: int, lo: int, hi: int)
    requires SortedBy(ranges, BaseOf)
    requires 0 <= lo <= i <= hi < |ranges| && FirstHit(ranges, addr, i)
    ensures FoundIndex(ranges, addr, lo, hi) == Some(i) <==> Reaches(ranges, addr, i, lo, hi)
    decreases hi - lo
  {
    var mid := lo + (hi - lo) / 2;
    if i < mid {
      if addr < ranges[mid].base {
        FoundIffReached(ranges, addr, i, lo, mid - 1);
      }
    } else if i > mid {
      assert BaseOf(ranges[mid]) <= BaseOf(ranges[i]) && !Hits(ranges[mid], addr);
      FoundIffReached(ranges, addr, i, mid + 1, hi);
    }
  }

  /** A range whose only byte would be answered like a miss: one byte, local, and no target. */
  predicate LooksLikeMiss(r: Range) {
    r.target == NO_TARGET && !r.isRemote && End(r) == r.base + 1
  }

  /** Answers tell the ranges apart, and the last byte of a range from a miss. */
  ghost predicate Distinguishable(ranges: seq<Range>) {
    && (forall i :: 0 <= i < |ranges| ==> !LooksLikeMiss(ranges[i]))
    && (forall i, j :: 0 <= i < j < |ranges| ==> ranges[i].(size := 0) != ranges[j].(size := 0))
  }

  lemma AnswersDiffer(ranges: seq<Range>, addr: nat, i: nat, k: nat)
    requires Distinguishable(ranges) && i < |ranges| && k < |ranges| && i != k
    requires Hits(ranges[i], addr) && Hits(ranges[k], addr)
    ensures Answer(ranges[i], addr) != Answer(ranges[k], addr)
  {
    var lo, hi := if i < k then i else k, if i < k then k else i;
    assert ranges[lo].(size := 0) != ranges[hi].(size := 0);
  }

  lemma SearchAgreesIfReached(ranges: seq<Range>, addr: nat, i: int, lo: int, hi: int)
    requires SortedBy(ranges, BaseOf) && 0 <= lo <= i <= hi < |ranges| && FirstHit(ranges, addr, i)
    requires Reaches(ranges, addr, i, lo, hi)
    ensures BinarySearch(ranges, addr, lo, hi) == LinearScan(ranges, addr)
  {
    LinearScanFinds(ranges, addr, i);
    SearchAnswersFound(ranges, addr, lo, hi);
    FoundIffReached(ranges, addr, i, lo, hi);
  }

  lemma SearchDiffersIfNotReached(ranges: seq<Range>, addr: nat, i: int, lo: int, hi: int)
    requires SortedBy(ranges, BaseOf) && Distinguishable(ranges)
    requires 0 <= lo <= i <= hi < |ranges| && FirstHit(ranges, addr, i) && addr == End(ranges[i]) - 1
    requires !Reaches(ranges, addr, i, lo, hi)
    ensures BinarySearch(ranges, addr, lo, hi) != LinearScan(ranges, addr)
  {
    LinearScanFinds(ranges, addr, i);
    SearchAnswersFound(ranges, addr, lo, hi);
    FoundIffReached(ranges, addr, i, lo, hi);
    var k := FoundIndex(ranges, addr, lo, hi);
    if k.Some? {
      AnswersDiffer(ranges, addr, i, k.value);
    }
  }

  lemma SearchAgreesAtMiss(ranges: seq<Range>, addr: nat)
    requires forall i :: 0 <= i < |ranges| ==> !Hits(ranges[i], addr)
    ensures BinarySearch(ranges, addr, 0, |ranges| - 1) == LinearScan(ranges, addr)
  {
    LinearScanMisses(ranges, addr);
    SearchAnswersFound(ranges, addr, 0, |ranges| - 1);
  }

  /** A lower address of the range is reached more easily. */
  lemma {:induction false} ReachesBelow(ranges: seq<Range>, addr: nat, above: nat, i: int, lo: int, hi: int)
    requires 0 <= lo <= i <= hi < |ranges| && addr <= above && Reaches(ranges, above, i, lo, hi)
    ensures Reaches(ranges, addr, i, lo, hi)
    decreases hi - lo
  {
    var mid := lo + (hi - lo) / 2;
    if i < mid {
      ReachesBelow(ranges, addr, above, i, lo, mid - 1);
    } else if i > mid {
      ReachesBelow(ranges, addr, above, i, mid + 1, hi);
    }
  }

  /** The range is not empty and ends beyond all ranges before it. */
  predicate EndsBeyond(ranges: seq<Range>, i: nat)
    requires i < |ranges|
  {
    ranges[i].base < End(ranges[i]) && forall j :: 0 <= j < i ==> End(ranges[j]) < End(ranges[i])
  }

  /** On sorted ranges such a range is the first hit of its own last byte. */
  lemma LastByteIsFirstHit(ranges: seq<Range>, i: nat)
    requires SortedBy(ranges, BaseOf) && i < |ranges| && EndsBeyond(ranges, i)
    ensures FirstHit(ranges, End(ranges[i]) - 1, i)
  {
  }

  lemma FirstHitEndsBeyond(ranges: seq<Range>, addr: nat, i: nat)
    requires SortedBy(ranges, BaseOf) && i < |ranges| && FirstHit(ranges, addr, i)
    ensures EndsBeyond(ranges, i)
  {
    forall j | 0 <= j < i ensures End(ranges[j]) < End(ranges[i]) {
      assert BaseOf(ranges[j]) <= BaseOf(ranges[i]) && !Hits(ranges[j], addr);
    }
  }

  predicate LastByteReached(ranges: seq<Range>, i: nat)
    requires i < |ranges| && EndsBeyond(ranges, i)
  {
    Reaches(ranges, End(ranges[i]) - 1, i, 0, |ranges| - 1)
  }

  /** Every range that ends beyond those before it is reached at its last byte: a condition on bases and ends. */
  predicate AllReached(ranges: seq<Range>) {
    forall i :: 0 <= i < |ranges| && EndsBeyond(ranges, i) ==> LastByteReached(ranges, i)
  }

  predicate Agrees(ranges: seq<Range>, addr: nat) {
    BinarySearch(ranges, addr, 0, |ranges| - 1) == LinearScan(ranges, addr)
  }

  ghost predicate SearchIsScan(ranges: seq<Range>) {
    forall addr: nat :: Agrees(ranges, addr)
  }

  lemma ReachedSearchIsScan(ranges: seq<Range>, addr: nat)
    requires SortedBy(ranges, BaseOf) && AllReached(ranges)
    ensures Agrees(ranges, addr)
  {
    if k :| 0 <= k < |ranges| && Hits(ranges[k], addr) {
      var i := FirstHitBefore(ranges, addr, k);
      FirstHitEndsBeyond(ranges, addr, i);
      assert LastByteReached(ranges, i);
      ReachesBelow(ranges, addr, End(ranges[i]) - 1, i, 0, |ranges| - 1);
      SearchAgreesIfReached(ranges, addr, i, 0, |ranges| - 1);
    } else {
      SearchAgreesAtMiss(ranges, addr);
    }
  }

  lemma UnreachedLastByteDiffers(ranges: seq<Range>, i: nat)
    requires SortedBy(ranges, BaseOf) && Distinguishable(ranges)
    requires i < |ranges| && EndsBeyond(ranges, i) && !LastByteReached(ranges, i)
    ensures !Agrees(ranges, End(ranges[i]) - 1)
  {
    LastByteIsFirstHit(ranges, i);
    SearchDiffersIfNotReached(ranges, End(ranges[i]) - 1, i, 0, |ranges| - 1);
  }

  /** Overlap allowed: binary search and the scan agree on every address exactly when every range is reached. */
  lemma SearchIsScanIff(ranges: seq<Range>)
    requires SortedBy(ranges, BaseOf)
    ensures AllReached(ranges) ==> SearchIsScan(ranges)
    ensures Distinguishable(ranges) && SearchIsScan(ranges) ==> AllReached(ranges)
  {
    if AllReached(ranges) {
      forall addr: nat ensures Agrees(ranges, addr) {
        ReachedSearchIsScan(ranges, addr);
      }
    } else if Distinguishable(ranges) {
      var i :| 0 <= i < |ranges| && EndsBeyond(ranges, i) && !LastByteReached(ranges, i);
      UnreachedLastByteDiffers(ranges, i);
    }
  }

  lemma {:induction false} FirstHitBefore(ranges: seq<Range>, addr: nat, k: nat) returns (i: nat)
    requires k < |ranges| && Hits(ranges[k], addr)
    ensures i <= k && FirstHit(ranges, addr, i)
  {
    i := k;
    if j :| 0 <= j < k && Hits(ranges[j], addr) {
      i := FirstHitBefore(ranges, addr, j);
    }
  }

  /** The range lookup reports "not decoded" exactly when every first hit, if there is one, has no target. */
  lemma {:induction false} RangeMissIff(ranges: seq<Range>, addr: nat)
    ensures LinearScan(ranges, addr).target == NO_TARGET
       <==> forall i :: 0 <= i < |ranges| && FirstHit(ranges, addr, i) ==> ranges[i].target == NO_TARGET
  {
    if ranges != [] && Hits(ranges[0], addr) {
      assert FirstHit(ranges, addr, 0);
    } else if ranges != [] {
      var rest := ranges[1..];
      RangeMissIff(rest, addr);
      forall i | 0 <= i < |rest| ensures FirstHit(rest, addr, i) <==> FirstHit(ranges, addr, i + 1) {
        assert forall j :: 0 < j <= i ==> ranges[j] == rest[j - 1];
        assert forall j :: 0 <= j < i ==> rest[j] == ranges[j + 1];
      }
      forall i | 0 < i < |ranges| ensures ranges[i] == rest[i - 1] && (FirstHit(ranges, addr, i) ==> FirstHit(rest, addr, i - 1)) {
        assert FirstHit(rest, addr, i - 1) <==> FirstHit(ranges, addr, (i - 1) + 1);
      }
    }
  }

  // ---------------------------------------------------------------------------------------------
  // Interleaving
  // ---------------------------------------------------------------------------------------------

  predicate InRegion(c: Interleave, addr: nat) {
    c.targets != [] && c.base <= addr < (c.base + c.size) % UINT64_VALUES
  }

  /** A region whose end does not fit 64 bits decodes nothing; otherwise it is what it says. */
  lemma RegionIsExact(c: Interleave, addr: nat)
    requires c.base < UINT64_VALUES && c.size < UINT64_VALUES && c.targets != []
    ensures InRegion(c, addr) <==> c.base + c.size < UINT64_VALUES && c.base <= addr < c.base + c.size
  {
  }

  /** Position in the target list, and offset within that target. */
  function Slot(c: Interleave, addr: nat): (nat, nat)
    requires InRegion(c, addr)
  {
    var g, n := c.granularity.Bytes(), |c.targets|;
    var relative := addr - c.base;
    var block := relative / g;
    (block % n, (block / n) * g + relative % g)
  }

  /** The remote flag of a target is that of the first range with the same target. */
  function RemoteFlag(ranges: seq<Range>, target: nat): bool {
    if ranges == [] then false
    else if ranges[0].target == target then ranges[0].isRemote
    else RemoteFlag(ranges[1..], target)
  }

  function DecodeInterleaved(c: Interleave, ranges: seq<Range>, addr: nat): Result {
    if !InRegion(c, addr) then MISS
    else
      var (index, offset) := Slot(c, addr);
      var target := c.targets[index];
      var remote := RemoteFlag(ranges, target);
      Result(target, offset, remote, if remote then 1 else 0)
  }

  /** The address at an offset of the target at a position: the inverse of decoding. */
  function Encode(c: Interleave, index: nat, offset: nat): nat
    requires c.targets != []
  {
    var g, n := c.granularity.Bytes(), |c.targets|;
    c.base + ((offset / g) * n + index) * g + offset % g
  }

  lemma StripeSplit(g: nat, n: nat, q: nat, index: nat, r: nat)
    requires r < g && index < n
    ensures (q * n + index) * g + r == q * (g * n) + (index * g + r) && index * g + r < g * n
  {
    assert (q * n + index) * g == q * (g * n) + index * g;
    MulMonotonic(index + 1, n, g);
    assert (index + 1) * g == index * g + g;
  }

  lemma StripeArithmetic(x: nat, g: nat, n: nat)
    requires g > 0 && n > 0
    ensures g * n > 0 && (x / g) / n == x / (g * n) && x % (g * n) == ((x / g) % n) * g + x % g
  {
    DivModIdentity(x, g);
    DivModIdentity(x / g, n);
    var q, i, r := (x / g) / n, (x / g) % n, x % g;
    StripeSplit(g, n, q, i, r);
    DivModUnique(q, g * n, i * g + r);
  }

  /** The offset is the whole stripes before the address, one granule each, plus the offset in the granule. */
  lemma OffsetFormula(c: Interleave, addr: nat)
    requires InRegion(c, addr)
    ensures var g, n, relative := c.granularity.Bytes(), |c.targets|, addr - c.base;
            g * n > 0 && Slot(c, addr).1 == (relative / (g * n)) * g + relative % g
  {
    StripeArithmetic(addr - c.base, c.granularity.Bytes(), |c.targets|);
  }

  lemma EncodeInvertsDecode(c: Interleave, addr: nat)
    requires InRegion(c, addr)
    ensures var (index, offset) := Slot(c, addr);
            index < |c.targets| && Encode(c, index, offset) == addr
  {
    var g, n := c.granularity.Bytes(), |c.targets|;
    var relative := addr - c.base;
    var block := relative / g;
    DivModIdentity(relative, g);
    DivModIdentity(block, n);
    DivModUnique(block / n, g, relative % g);
  }

  lemma DecodeInvertsEncode(c: Interleave, index: nat, offset: nat)
    requires c.targets != [] && index < |c.targets|
    requires InRegion(c, Encode(c, index, offset))
    ensures Slot(c, Encode(c, index, offset)) == (index, offset)
  {
    var g, n := c.granularity.Bytes(), |c.targets|;
    var block := (offset / g) * n + index;
    DivModIdentity(offset, g);
    DivModUnique(block, g, offset % g);
    DivModUnique(offset / g, n, index);
  }

  /** The answer names a target of the list, at an offset from which the address can be computed back. */
  lemma InterleavedIsExact(c: Interleave, ranges: seq<Range>, addr: nat) returns (i: nat)
    requires InRegion(c, addr)
    ensures var result := DecodeInterleaved(c, ranges, addr);
            var g, n, relative := c.granularity.Bytes(), |c.targets|, addr - c.base;
            && i < n && result.target == c.targets[i] && Encode(c, i, result.offset) == addr
            && g * n > 0 && result.offset == (relative / (g * n)) * g + relative % g
            && i == (relative / g) % n
  {
    i := Slot(c, addr).0;
    EncodeInvertsDecode(c, addr);
    OffsetFormula(c, addr);
  }

  /** The address of a position and offset, when inside the region, is answered with exactly these. */
  lemma EncodedIsDecoded(c: Interleave, ranges: seq<Range>, index: nat, offset: nat)
    requires index < |c.targets| && InRegion(c, Encode(c, index, offset))
    ensures var result := DecodeInterleaved(c, ranges, Encode(c, index, offset));
            result.target == c.targets[index] && result.offset == offset
  {
    DecodeInvertsEncode(c, index, offset);
  }

  /** The first target gets the first 64, 256, 4K, 2M or 1G bytes of the region, the second one the next. */
  lemma BlocksAreGranules(c: Interleave, ranges: seq<Range>, addr: nat)
    requires InRegion(c, addr) && |c.targets| >= 2
    ensures var bytes := match c.granularity
                         case Cacheline64 => 0x40
                         case Cacheline256 => 0x100
                         case Page4K => 0x1000
                         case Page2M => 0x20_0000
                         case Page1G => 0x4000_0000;
            var result := DecodeInterleaved(c, ranges, addr);
            && (addr < c.base + bytes ==> result.target == c.targets[0] && result.offset == addr - c.base)
            && (c.base + bytes <= addr < c.base + 2 * bytes ==>
                  result.target == c.targets[1] && result.offset == addr - c.base - bytes)
  {
    var g, n, relative := c.granularity.Bytes(), |c.targets|, addr - c.base;
    if relative < g {
      DivModUnique(0, g, relative);
      DivModUnique(0, n, 0);
    } else if relative < 2 * g {
      DivModUnique(1, g, relative - g);
      DivModUnique(0, n, 1);
    }
  }

  /** The decoder answers both addresses with one target and offset. */
  predicate SameAnswer(c: Interleave, ranges: seq<Range>, a: nat, b: nat) {
    var r, q := DecodeInterleaved(c, ranges, a), DecodeInterleaved(c, ranges, b);
    r.target == q.target && r.offset == q.offset
  }

  /** Two different addresses of the region are never answered with the same target and offset. */
  ghost predicate Injective(c: Interleave, ranges: seq<Range>) {
    forall a, b :: InRegion(c, a) && InRegion(c, b) && SameAnswer(c, ranges, a, b) ==> a == b
  }

  /** The targets that receive any address at all are distinct. */
  ghost predicate UsedTargetsDistinct(c: Interleave) {
    forall i, j :: 0 <= i < j < |c.targets| && InRegion(c, c.base + j * c.granularity.Bytes())
      ==> c.targets[i] != c.targets[j]
  }

  lemma BlockStart(c: Interleave, index: nat)
    requires index < |c.targets| && InRegion(c, c.base + index * c.granularity.Bytes())
    ensures Slot(c, c.base + index * c.granularity.Bytes()) == (index, 0)
  {
    var g := c.granularity.Bytes();
    DivModUnique(0, g, 0);
    assert Encode(c, index, 0) == c.base + index * g;
    DecodeInvertsEncode(c, index, 0);
  }

  lemma UsedFromStart(c: Interleave, addr: nat)
    requires InRegion(c, addr)
    ensures var (index, offset) := Slot(c, addr);
            index < |c.targets| && InRegion(c, c.base + index * c.granularity.Bytes())
  {
    EncodeInvertsDecode(c, addr);
    var g, n := c.granularity.Bytes(), |c.targets|;
    var (index, offset) := Slot(c, addr);
    MulMonotonic(index, (offset / g) * n + index, g);
  }

  lemma SameAnswerSameAddress(c: Interleave, ranges: seq<Range>, a: nat, b: nat)
    requires UsedTargetsDistinct(c) && InRegion(c, a) && InRegion(c, b)
    requires SameAnswer(c, ranges, a, b)
    ensures a == b
  {
    UsedFromStart(c, a);
    UsedFromStart(c, b);
    EncodeInvertsDecode(c, a);
    EncodeInvertsDecode(c, b);
  }

  lemma CollidingTargets(c: Interleave, ranges: seq<Range>, i: nat, j: nat)
    requires i < j < |c.targets| && InRegion(c, c.base + j * c.granularity.Bytes()) && c.targets[i] == c.targets[j]
    ensures !Injective(c, ranges)
  {
    var g := c.granularity.Bytes();
    MulMonotonic(i, j, g);
    var a, b := c.base + i * g, c.base + j * g;
    BlockStart(c, i);
    BlockStart(c, j);
    assert a != b by {
      MulMonotonic(i + 1, j, g);
      assert (i + 1) * g == i * g + g;
    }
    assert SameAnswer(c, ranges, a, b);
  }

  /** Decoding is injective on the whole region exactly when the targets in use are distinct. */
  lemma InjectiveIffUsedTargetsDistinct(c: Interleave, ranges: seq<Range>)
    ensures Injective(c, ranges) <==> UsedTargetsDistinct(c)
  {
    if UsedTargetsDistinct(c) {
      forall a, b | InRegion(c, a) && InRegion(c, b) && SameAnswer(c, ranges, a, b) ensures a == b {
        SameAnswerSameAddress(c, ranges, a, b);
      }
    } else {
      var i, j :| 0 <= i < j < |c.targets| && InRegion(c, c.base + j * c.granularity.Bytes())
                  && c.targets[i] == c.targets[j];
      CollidingTargets(c, ranges, i, j);
    }
  }

  lemma BelowMultiple(w: nat, k: nat, q: nat, x: nat)
    requires x < w
    ensures q * w + x < k * w <==> q < k
  {
    if q < k {
      MulMonotonic(q + 1, k, w);
      assert (q + 1) * w == q * w + w;
    } else {
      MulMonotonic(k, q, w);
    }
  }

  /** K whole stripes hold exactly K granules of every target. */
  lemma StripeBound(g: nat, n: nat, stripes: nat, index: nat, offset: nat)
    requires g > 0 && index < n
    ensures ((offset / g) * n + index) * g + offset % g < stripes * (g * n) <==> offset < stripes * g
  {
    DivModIdentity(offset, g);
    StripeSplit(g, n, offset / g, index, offset % g);
    BelowMultiple(g * n, stripes, offset / g, index * g + offset % g);
    BelowMultiple(g, stripes, offset / g, offset % g);
  }

  lemma EncodeWithin(c: Interleave, stripes: nat, index: nat, offset: nat)
    requires index < |c.targets|
    requires c.size == stripes * (c.granularity.Bytes() * |c.targets|)
    ensures Encode(c, index, offset) < c.base + c.size <==> offset < stripes * c.granularity.Bytes()
    ensures c.size / |c.targets| == stripes * c.granularity.Bytes()
  {
    var g, n := c.granularity.Bytes(), |c.targets|;
    StripeBound(g, n, stripes, index, offset);
    assert stripes * (g * n) == (stripes * g) * n + 0;
    DivModUnique(stripes * g, n, 0);
  }

  /**
    When the region is a whole number of stripes, every target is answered at exactly the offsets below
    size / n, each of them for the one address Encode gives.
   */
  lemma WholeStripesCover(c: Interleave, ranges: seq<Range>, stripes: nat, index: nat, offset: nat)
    requires index < |c.targets|
    requires c.size == stripes * (c.granularity.Bytes() * |c.targets|)
    requires c.base + c.size < UINT64_VALUES
    ensures var a := Encode(c, index, offset);
            var result := DecodeInterleaved(c, ranges, a);
            && (InRegion(c, a) <==> offset < c.size / |c.targets|)
            && (InRegion(c, a) ==> result.target == c.targets[index] && result.offset == offset)
  {
    var a := Encode(c, index, offset);
    assert a >= c.base;
    EncodeWithin(c, stripes, index, offset);
    RegionIsExact(c, a);
    if InRegion(c, a) {
      EncodedIsDecoded(c, ranges, index, offset);
    }
  }

  /** And no address of the region is answered with an offset beyond that. */
  lemma WholeStripesBound(c: Interleave, ranges: seq<Range>, stripes: nat, addr: nat)
    requires InRegion(c, addr)
    requires c.size == stripes * (c.granularity.Bytes() * |c.targets|)
    requires c.base + c.size < UINT64_VALUES
    ensures DecodeInterleaved(c, ranges, addr).offset < c.size / |c.targets|
  {
    var index := InterleavedIsExact(c, ranges, addr);
    WholeStripesCover(c, ranges, stripes, index, DecodeInterleaved(c, ranges, addr).offset);
  }

  // ---------------------------------------------------------------------------------------------
  // The decoder
  // ---------------------------------------------------------------------------------------------

  datatype Decoder = Decoder(mode: Mode, ranges: seq<Range>, interleave: Interleave, sorted: bool)

  function DecodeRange(d: Decoder, addr: nat): Result {
    if d.sorted then BinarySearch(d.ranges, addr, 0, |d.ranges| - 1) else LinearScan(d.ranges, addr)
  }

  function Decode(d: Decoder, addr: nat): Result {
    match d.mode
    case RangeBased => DecodeRange(d, addr)
    case Interleaved => DecodeInterleaved(d.interleave, d.ranges, addr)
    case Hybrid =>
      var r := DecodeRange(d, addr);
      if r.target != NO_TARGET then r else DecodeInterleaved(d.interleave, d.ranges, addr)
  }

  /** A decoder marked sorted has sorted, compatible ranges. */
  ghost predicate Usable(d: Decoder) {
    d.sorted ==> SortedBy(d.ranges, BaseOf) && Pairwise(d.ranges, Compatible)
  }

  lemma DecodeRangeIsScan(d: Decoder, addr: nat)
    requires Usable(d)
    ensures DecodeRange(d, addr) == LinearScan(d.ranges, addr)
  {
    if d.sorted {
      BinaryRefinesLinear(d.ranges, addr);
    }
  }

  /** What a lookup that finds nothing answers. */
  predicate NotDecoded(r: Result) {
    r.target == 0xFFFF_FFFF && r.offset == 0 && !r.isRemote && r.hops == 0
  }

  /** The answer for an address of this range: its target, the distance from its base, and one hop if remote. */
  predicate AnswersFor(r: Result, range: Range, addr: nat) {
    && r.target == range.target && range.base + r.offset == addr
    && r.isRemote == range.isRemote && r.hops == (if range.isRemote then 1 else 0)
  }

  /** Range mode: the first range that holds the address answers, and nothing does when there is none. */
  lemma RangeModeIsExact(d: Decoder, addr: nat)
    requires d.mode == RangeBased && Usable(d)
    ensures forall i :: 0 <= i < |d.ranges| && FirstHit(d.ranges, addr, i) ==> AnswersFor(Decode(d, addr), d.ranges[i], addr)
    ensures (forall i :: 0 <= i < |d.ranges| ==> !Hits(d.ranges[i], addr)) ==> NotDecoded(Decode(d, addr))
  {
    DecodeRangeIsScan(d, addr);
    forall i | 0 <= i < |d.ranges| && FirstHit(d.ranges, addr, i) ensures AnswersFor(Decode(d, addr), d.ranges[i], addr) {
      LinearScanFinds(d.ranges, addr, i);
    }
    if forall i :: 0 <= i < |d.ranges| ==> !Hits(d.ranges[i], addr) {
      LinearScanMisses(d.ranges, addr);
    }
  }

  /**
    Interleave mode: inside the region the answer is the target at some position i and an offset from
    which the address can be computed back; outside nothing answers.
   */
  lemma InterleaveModeIsExact(d: Decoder, addr: nat)
    requires d.mode == Interleaved
    ensures var c, result := d.interleave, Decode(d, addr);
            && (!InRegion(c, addr) ==> NotDecoded(result))
            && (InRegion(c, addr) ==>
                  && (exists i :: 0 <= i < |c.targets| && result.target == c.targets[i]
                                  && Encode(c, i, result.offset) == addr)
                  && result.hops == (if result.isRemote then 1 else 0))
  {
    if InRegion(d.interleave, addr) {
      var i := InterleavedIsExact(d.interleave, d.ranges, addr);
    }
  }

  /** A target is remote exactly when the first range that names it says so. */
  lemma RemoteAsFirstRangeSays(d: Decoder, addr: nat)
    requires InRegion(d.interleave, addr)
    ensures var result := DecodeInterleaved(d.interleave, d.ranges, addr);
            result.isRemote <==>
            exists i :: 0 <= i < |d.ranges| && d.ranges[i].target == result.target && d.ranges[i].isRemote
                        && forall j :: 0 <= j < i ==> d.ranges[j].target != result.target
  {
    FirstRangeDecides(d.ranges, DecodeInterleaved(d.interleave, d.ranges, addr).target);
  }

  lemma {:induction false} FirstRangeDecides(ranges: seq<Range>, target: nat)
    ensures RemoteFlag(ranges, target) <==>
            exists i :: 0 <= i < |ranges| && ranges[i].target == target && ranges[i].isRemote
                        && forall j :: 0 <= j < i ==> ranges[j].target != target
  {
    if ranges != [] && ranges[0].target != target {
      var rest := ranges[1..];
      FirstRangeDecides(rest, target);
      if i :| 0 <= i < |rest| && rest[i].target == target && rest[i].isRemote
              && forall j :: 0 <= j < i ==> rest[j].target != target {
        assert ranges[i + 1] == rest[i];
        assert forall j :: 0 < j < i + 1 ==> ranges[j] == rest[j - 1];
      }
      if i :| 0 <= i < |ranges| && ranges[i].target == target && ranges[i].isRemote
              && forall j :: 0 <= j < i ==> ranges[j].target != target {
        assert rest[i - 1] == ranges[i];
        assert forall j :: 0 <= j < i - 1 ==> rest[j] == ranges[j + 1];
      }
    }
  }

  /** Hybrid mode: the first range that holds the address decides if it names a target; otherwise interleaving does. */
  lemma HybridPriority(d: Decoder, addr: nat)
    requires d.mode == Hybrid && Usable(d)
    ensures forall i :: 0 <= i < |d.ranges| && FirstHit(d.ranges, addr, i) && d.ranges[i].target != NO_TARGET
              ==> Decode(d, addr) == Answer(d.ranges[i], addr)
    ensures (forall i :: 0 <= i < |d.ranges| && FirstHit(d.ranges, addr, i) ==> d.ranges[i].target == NO_TARGET)
              ==> Decode(d, addr) == DecodeInterleaved(d.interleave, d.ranges, addr)
  {
    DecodeRangeIsScan(d, addr);
    RangeMissIff(d.ranges, addr);
    forall i | 0 <= i < |d.ranges| && FirstHit(d.ranges, addr, i)
      ensures LinearScan(d.ranges, addr) == Answer(d.ranges[i], addr)
    {
      LinearScanFinds(d.ranges, addr, i);
    }
  }

  /** Ranges of one target agree on whether it is remote. */
  ghost predicate Consistent(ranges: seq<Range>) {
    forall i, j :: 0 <= i < |ranges| && 0 <= j < |ranges| && ranges[i].target == ranges[j].target
      ==> ranges[i].isRemote == ranges[j].isRemote
  }

  lemma {:induction false} RemoteFlagIs(ranges: seq<Range>, target: nat)
    requires Consistent(ranges)
    ensures RemoteFlag(ranges, target) <==> exists i :: 0 <= i < |ranges| && ranges[i].target == target && ranges[i].isRemote
  {
    if ranges != [] {
      RemoteFlagIs(ranges[1..], target);
      assert forall i :: 0 < i < |ranges| ==> ranges[i] == ranges[1..][i - 1];
      if ranges[0].target == target {
        assert forall i :: 0 <= i < |ranges| && ranges[i].target == target ==> ranges[i].isRemote == ranges[0].isRemote;
      } else if i :| 0 <= i < |ranges[1..]| && ranges[1..][i].target == target && ranges[1..][i].isRemote {
        assert ranges[i + 1].target == target;
      }
    }
  }

  lemma RemoteFlagIgnoresOrder(ranges: seq<Range>, s: seq<Range>, target: nat)
    requires Consistent(ranges) && Consistent(s) && forall r :: r in ranges <==> r in s
    ensures RemoteFlag(ranges, target) == RemoteFlag(s, target)
  {
    RemoteFlagIs(ranges, target);
    RemoteFlagIs(s, target);
    if i :| 0 <= i < |ranges| && ranges[i].target == target && ranges[i].isRemote {
      assert ranges[i] in s;
      var j :| 0 <= j < |s| && s[j] == ranges[i];
    }
    if j :| 0 <= j < |s| && s[j].target == target && s[j].isRemote {
      assert s[j] in ranges;
      var i :| 0 <= i < |ranges| && ranges[i] == s[j];
    }
  }

  lemma SortKeepsConsistent(ranges: seq<Range>, s: seq<Range>)
    requires Consistent(ranges) && forall r :: r in ranges <==> r in s
    ensures Consistent(s)
  {
    forall i, j | 0 <= i < |s| && 0 <= j < |s| && s[i].target == s[j].target ensures s[i].isRemote == s[j].isRemote {
      assert s[i] in ranges && s[j] in ranges;
      var k :| 0 <= k < |ranges| && ranges[k] == s[i];
      var l :| 0 <= l < |ranges| && ranges[l] == s[j];
    }
  }

  /** In every mode, sorting compatible and consistent ranges leaves every address decoded as before. */
  lemma SortingKeepsDecode(d: Decoder, addr: nat)
    requires !d.sorted && Pairwise(d.ranges, Compatible) && Consistent(d.ranges)
    ensures var d' := d.(ranges := Sort(d.ranges, BaseOf), sorted := true);
            Usable(d') && Decode(d', addr) == Decode(d, addr)
  {
    var s := Sort(d.ranges, BaseOf);
    SortingKeepsAnswers(d.ranges, s, addr);
    assert DecodeInterleaved(d.interleave, d.ranges, addr) == DecodeInterleaved(d.interleave, s, addr) by {
      SortSorts(d.ranges, BaseOf);
      SameElements(d.ranges, s);
      InterleaveIgnoresOrder(d.interleave, d.ranges, s, addr);
    }
  }

  lemma InterleaveIgnoresOrder(c: Interleave, ranges: seq<Range>, s: seq<Range>, addr: nat)
    requires Consistent(ranges) && forall r :: r in ranges <==> r in s
    ensures DecodeInterleaved(c, ranges, addr) == DecodeInterleaved(c, s, addr)
  {
    SortKeepsConsistent(ranges, s);
    if InRegion(c, addr) {
      RemoteFlagIgnoresOrder(ranges, s, c.targets[Slot(c, addr).0]);
    }
  }

  class HdmDecoder {
    const mode: Mode
    var ranges: seq<Range>
    var interleave: Interleave
    var rangesSorted: bool

    ghost function Model(): Decoder
      reads this
    {
      Decoder(mode, ranges, interleave, rangesSorted)
    }

    constructor (mode: Mode)
      ensures Model() == Decoder(mode, [], Interleave(Cacheline256, [], 0, 0), false)
    {
      this.mode := mode;
      ranges, interleave, rangesSorted := [], Interleave(Cacheline256, [], 0, 0), false;
    }

    method AddRange(base: nat, size: nat, target: nat, isRemote: bool)
      modifies this
      ensures Model() == old(Model()).(ranges := old(ranges) + [Range(base, size, target, isRemote)], sorted := false)
    {
      ranges := ranges + [Range(base, size, target, isRemote)];
      rangesSorted := false;
    }

    method ConfigureInterleave(granularity: Granularity, targets: seq<nat>, base: nat, size: nat)
      modifies this
      ensures Model() == old(Model()).(interleave := Interleave(granularity, targets, base, size))
    {
      interleave := Interleave(granularity, targets, base, size);
    }

    method SortRanges()
      modifies this
      ensures Model() == old(Model()).(ranges := Sort(old(ranges), BaseOf), sorted := true)
      ensures SortedBy(ranges, BaseOf) && multiset(ranges) == multiset(old(ranges))
      ensures Pairwise(old(ranges), Compatible) ==> Pairwise(ranges, Compatible)
    {
      SortSorts(ranges, BaseOf);
      if Pairwise(ranges, Compatible) {
        SortKeepsPairwise(ranges, BaseOf, Compatible);
      }
      ranges := Sort(ranges, BaseOf);
      rangesSorted := true;
    }

    method ScanRanges(addr: nat) returns (r: Result)
      ensures r == LinearScan(ranges, addr)
    {
      for i := 0 to |ranges|
        invariant LinearScan(ranges[i..], addr) == LinearScan(ranges, addr)
      {
        assert ranges[i..][1..] == ranges[i + 1..];
        if addr >= ranges[i].base && addr < End(ranges[i]) {
          return Answer(ranges[i], addr);
        }
      }
      return MISS;
    }

    method SearchRanges(addr: nat) returns (r: Result)
      ensures r == BinarySearch(ranges, addr, 0, |ranges| - 1)
    {
      var lo, hi := 0, |ranges| - 1;
      while lo <= hi
        invariant 0 <= lo <= hi + 1 <= |ranges|
        invariant BinarySearch(ranges, addr, lo, hi) == BinarySearch(ranges, addr, 0, |ranges| - 1)
        decreases hi - lo + 1
      {
        var mid := lo + (hi - lo) / 2;
        if addr < ranges[mid].base {
          hi := mid - 1;
        } else if addr >= End(ranges[mid]) {
          lo := mid + 1;
        } else {
          return Answer(ranges[mid], addr);
        }
      }
      return MISS;
    }

    method FindRange(addr: nat) returns (r: Result)
      ensures r == DecodeRange(Model(), addr)
      ensures Usable(Model()) ==> r == LinearScan(ranges, addr)
    {
      if Usable(Model()) {
        DecodeRangeIsScan(Model(), addr);
      }
      if ranges == [] {
        return MISS;
      }
      if rangesSorted {
        r := SearchRanges(addr);
      } else {
        r := ScanRanges(addr);
      }
    }

    method FindRemoteFlag(target: nat) returns (remote: bool)
      ensures remote == RemoteFlag(ranges, target)
    {
      for i := 0 to |ranges|
        invariant RemoteFlag(ranges[i..], target) == RemoteFlag(ranges, target)
      {
        assert ranges[i..][1..] == ranges[i + 1..];
        if ranges[i].target == target {
          return ranges[i].isRemote;
        }
      }
      return false;
    }

    method FindInterleaved(addr: nat) returns (r: Result)
      ensures r == DecodeInterleaved(interleave, ranges, addr)
    {
      if interleave.targets == [] {
        return MISS;
      }
      if addr < interleave.base || addr >= (interleave.base + interleave.size) % UINT64_VALUES {
        return MISS;
      }
      var g := interleave.granularity.Bytes();
      var relative := addr - interleave.base;
      var block := relative / g;
      var n := |interleave.targets|;
      var index := block % n;
      var offset := (block / n) * g + relative % g;
      assert (index, offset) == Slot(interleave, addr);
      var target := interleave.targets[index];
      var remote := FindRemoteFlag(target);
      return Result(target, offset, remote, if remote then 1 else 0);
    }

    method DecodeAddress(addr: nat) returns (r: Result)
      ensures r == Decode(Model(), addr)
    {
      match mode
      case RangeBased =>
        r := FindRange(addr);
      case Interleaved =>
        r := FindInterleaved(addr);
      case Hybrid =>
        r := FindRange(addr);
        if r.target == NO_TARGET {
          r := FindInterleaved(addr);
        }
    }
  }
}
