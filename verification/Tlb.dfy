/**
  The page-table-walk model of HugePagePolicy in include/policy.h: three LRU translation buffers, one
  per page size, in front of a table of known translations. Latencies are whole nanoseconds cut off from
  real numbers, without floating-point rounding.
 */
module Tlb {
  import opened History
  import opened Recency

  // ---------------------------------------------------------------------------------------------
  // One translation buffer
  // ---------------------------------------------------------------------------------------------

  /** A lookup, followed by an insert when it misses. */
  function Touch(entries: seq<nat>, capacity: nat, page: nat): seq<nat> {
    if page in entries then [page] + Without(entries, page)
    else if |entries| >= capacity && entries != [] then [page] + entries[..|entries| - 1]
    else [page] + entries
  }

  /** The insert on its own: the page leaves its old place, the last page goes when there is no room. */
  function InsertInto(entries: seq<nat>, capacity: nat, page: nat): seq<nat> {
    var others := Without(entries, page);
    [page] + if |others| >= capacity && others != [] then others[..|others| - 1] else others
  }

  /** The buffer after a history of accesses, most recent page first. */
  function After(history: seq<nat>, capacity: nat): seq<nat>
    decreases |history|
  {
    if history == [] then []
    else var n := |history| - 1; Touch(After(history[..n], capacity), capacity, history[n])
  }

  /** The distinct pages of a history, most recent first. */
  function RecencyOf(history: seq<nat>): seq<nat>
    decreases |history|
  {
    if history == [] then []
    else var n := |history| - 1; [history[n]] + Without(RecencyOf(history[..n]), history[n])
  }

  lemma {:induction false} RecencyFacts(history: seq<nat>)
    ensures Distinct(RecencyOf(history)) && Elements(RecencyOf(history)) == Elements(history)
    decreases |history|
  {
    if history != [] {
      var n := |history| - 1;
      var r := RecencyOf(history[..n]);
      RecencyFacts(history[..n]);
      WithoutFacts(r, history[n]);
      assert history == history[..n] + [history[n]];
      forall x ensures x in RecencyOf(history) <==> x in history {
        assert x in r <==> x in Elements(history[..n]);
      }
    }
  }

  function Take(s: seq<nat>, n: nat): seq<nat> {
    if n < |s| then s[..n] else s
  }

  lemma TakeCut(r: seq<nat>, capacity: nat, i: nat, x: nat)
    requires i < |r| && i < capacity
    ensures var e := Take(r, capacity);
            Take([x] + (r[..i] + r[i + 1..]), capacity) == [x] + (e[..i] + e[i + 1..])
  {
  }

  lemma TakeKeeps(r: seq<nat>, capacity: nat, i: nat, x: nat)
    requires 1 <= capacity <= i < |r|
    ensures Take([x] + (r[..i] + r[i + 1..]), capacity) == [x] + r[..capacity - 1]
  {
  }

  lemma TouchTakesNear(r: seq<nat>, capacity: nat, i: nat)
    requires Distinct(r) && i < |r| && i < capacity
    ensures Touch(Take(r, capacity), capacity, r[i]) == Take([r[i]] + Without(r, r[i]), capacity)
  {
    var e, page := Take(r, capacity), r[i];
    assert e[i] == page;
    assert Touch(e, capacity, page) == [page] + (e[..i] + e[i + 1..]) by { WithoutAt(e, i); }
    WithoutAt(r, i);
    TakeCut(r, capacity, i, page);
  }

  lemma TouchTakesFar(r: seq<nat>, capacity: nat, i: nat)
    requires Distinct(r) && 1 <= capacity <= i < |r|
    ensures Touch(Take(r, capacity), capacity, r[i]) == Take([r[i]] + Without(r, r[i]), capacity)
  {
    var e, page := Take(r, capacity), r[i];
    assert page !in e;
    assert e[..|e| - 1] == r[..capacity - 1];
    WithoutAt(r, i);
    TakeKeeps(r, capacity, i, page);
  }

  lemma TouchTakesNew(r: seq<nat>, capacity: nat, page: nat)
    requires page !in r && capacity >= 1
    ensures Touch(Take(r, capacity), capacity, page) == Take([page] + r, capacity)
  {
    var e := Take(r, capacity);
    assert page !in e;
    if |r| >= capacity {
      assert e == r[..capacity] && e[..capacity - 1] == r[..capacity - 1];
      assert ([page] + r)[..capacity] == [page] + r[..capacity - 1];
    }
  }

  lemma TouchTakes(r: seq<nat>, capacity: nat, page: nat)
    requires Distinct(r) && capacity >= 1
    ensures Touch(Take(r, capacity), capacity, page) == Take([page] + Without(r, page), capacity)
  {
    if i :| 0 <= i < |r| && r[i] == page {
      if i < capacity {
        TouchTakesNear(r, capacity, i);
      } else {
        TouchTakesFar(r, capacity, i);
      }
    } else {
      WithoutFacts(r, page);
      TouchTakesNew(r, capacity, page);
    }
  }

  /** The buffer is the most recent part of the recency order. */
  lemma {:induction false} BufferIsRecencyPrefix(history: seq<nat>, capacity: nat)
    requires capacity >= 1
    ensures After(history, capacity) == Take(RecencyOf(history), capacity)
    decreases |history|
  {
    if history != [] {
      var n := |history| - 1;
      BufferIsRecencyPrefix(history[..n], capacity);
      RecencyFacts(history[..n]);
      TouchTakes(RecencyOf(history[..n]), capacity, history[n]);
    }
  }

  /** The position of the last access to a page. */
  function LastTouch(history: seq<nat>, page: nat): (k: nat)
    requires page in history
    ensures k < |history| && history[k] == page && page !in history[k + 1..]
    decreases |history|
  {
    var n := |history| - 1;
    if history[n] == page then n else LastTouch(history[..n], page)
  }

  /** The distinct other pages accessed since the last access to a page: its stack distance is their number. */
  ghost function OthersSince(history: seq<nat>, page: nat): (s: set<nat>)
    requires page in history
    ensures page !in s
  {
    Elements(history[LastTouch(history, page) + 1..])
  }

  /** The pages before a page in the recency order are exactly those accessed since its last access. */
  lemma {:induction false} PagesAhead(history: seq<nat>, page: nat, i: nat)
    requires page in history && i < |RecencyOf(history)| && RecencyOf(history)[i] == page
    ensures Elements(RecencyOf(history)[..i]) == OthersSince(history, page)
    decreases |history|
  {
    RecencyFacts(history);
    var n := |history| - 1;
    var g, p := history[..n], history[n];
    var r := RecencyOf(g);
    assert history == g + [p];
    if p == page {
      assert RecencyOf(history)[0] == page;
      assert RecencyOf(history)[..0] == [] && history[n + 1..] == [];
    } else {
      RecencyFacts(g);
      assert page in g && page in Elements(r);
      var j :| 0 <= j < |r| && r[j] == page;
      PagesAhead(g, page, j);
      WithoutPrefix(r, p, j);
      var w := Without(r, p);
      var k :| 0 <= k < |w| && w[k] == page && Elements(w[..k]) == Elements(r[..j]) - {p};
      assert RecencyOf(history) == [p] + w;
      assert ([p] + w)[k + 1] == page;
      assert i == k + 1;
      assert ([p] + w)[..i] == [p] + w[..k];
      assert Elements([p] + w[..k]) == {p} + Elements(w[..k]);
      SinceGrows(g, p, page);
    }
  }

  lemma SinceGrows(g: seq<nat>, p: nat, page: nat)
    requires page in g && p != page
    ensures page in g + [p] && OthersSince(g + [p], page) == OthersSince(g, page) + {p}
  {
  }

  /** Removing p keeps the position of r[j], one earlier if p came before it, and only p leaves the part ahead of it. */
  lemma WithoutPrefix(r: seq<nat>, p: nat, j: nat)
    requires Distinct(r) && j < |r| && r[j] != p
    ensures exists k :: 0 <= k < |Without(r, p)| && Without(r, p)[k] == r[j]
                     && Elements(Without(r, p)[..k]) == Elements(r[..j]) - {p}
  {
    WithoutFacts(r, p);
    if q :| 0 <= q < |r| && r[q] == p {
      WithoutAt(r, q);
      var w := Without(r, p);
      if q < j {
        assert w[j - 1] == r[j];
        assert w[..j - 1] == r[..q] + r[q + 1..j];
        assert r[..j] == r[..q] + [p] + r[q + 1..j];
        assert Elements(w[..j - 1]) == Elements(r[..j]) - {p};
      } else {
        assert w[j] == r[j] && w[..j] == r[..j];
        assert p !in r[..j];
        assert Elements(w[..j]) == Elements(r[..j]) - {p};
      }
    } else {
      assert p !in r[..j];
      assert Elements(r[..j]) == Elements(r[..j]) - {p};
    }
  }

  /** A page hits exactly when it was accessed before and fewer than `capacity` distinct other pages were since. */
  lemma HitIffStackDistance(history: seq<nat>, capacity: nat, page: nat)
    requires capacity >= 1
    ensures page in After(history, capacity) <==> page in history && |OthersSince(history, page)| < capacity
  {
    BufferIsRecencyPrefix(history, capacity);
    RecencyFacts(history);
    var r := RecencyOf(history);
    assert page in history <==> page in Elements(r);
    if i :| 0 <= i < |r| && r[i] == page {
      PagesAhead(history, page, i);
      DistinctSize(r[..i]);
      assert page in Take(r, capacity) <==> i < capacity;
    }
  }

  // ---------------------------------------------------------------------------------------------
  // Page table walks
  // ---------------------------------------------------------------------------------------------

  datatype PageType = Cacheline | Page | HugePage2M | HugePage1G

  datatype PageSize = Size4K | Size2M | Size1G

  datatype Walk = Walk(virt: nat, phys: nat, pageType: PageType) {
    function Size(): PageSize {
      match pageType
      case Cacheline => Size4K
      case Page => Size4K
      case HugePage2M => Size2M
      case HugePage1G => Size1G
    }

    /** The address with its offset within the page cleared. */
    function PageAddr(): nat {
      virt - virt % Bytes(Size())
    }
  }

  function Bytes(size: PageSize): nat {
    match size
    case Size4K => 0x1000
    case Size2M => 0x20_0000
    case Size1G => 0x4000_0000
  }

  function Capacity(size: PageSize): nat {
    match size
    case Size4K => 64
    case Size2M => 32
    case Size1G => 4
  }

  datatype Outcome = TlbHit | KnownTranslation | FullWalk

  /** Walks for larger pages have fewer levels. */
  function Reduction(size: PageSize): real {
    match size
    case Size4K => 1.0
    case Size2M => 0.75
    case Size1G => 0.5
  }

  function WalkLatency(outcome: Outcome, size: PageSize, base: nat): nat {
    match outcome
    case TlbHit => 0
    case KnownTranslation => (base as real * 0.2 * Reduction(size)).Floor
    case FullWalk => (base as real * Reduction(size)).Floor
  }

  datatype Level = Level(entries: seq<nat>, hits: nat, misses: nat)

  datatype Policy = Policy(level4k: Level, level2m: Level, level1g: Level, vaPa: map<nat, nat>, ptwCount: nat) {
    function At(size: PageSize): Level {
      match size
      case Size4K => level4k
      case Size2M => level2m
      case Size1G => level1g
    }

    function With(size: PageSize, l: Level): Policy {
      match size
      case Size4K => this.(level4k := l)
      case Size2M => this.(level2m := l)
      case Size1G => this.(level1g := l)
    }
  }

  function TouchLevel(l: Level, capacity: nat, page: nat): Level {
    var hit := page in l.entries;
    Level(Touch(l.entries, capacity, page), l.hits + if hit then 1 else 0, l.misses + if hit then 0 else 1)
  }

  function CheckWalk(p: Policy, w: Walk): (Policy, Outcome) {
    var size, page := w.Size(), w.PageAddr();
    var p' := p.With(size, TouchLevel(p.At(size), Capacity(size), page));
    if page in p.At(size).entries then (p', TlbHit)
    else if w.virt in p.vaPa then (p', KnownTranslation)
    else (p'.(vaPa := p.vaPa[w.virt := w.phys], ptwCount := p.ptwCount + 1), FullWalk)
  }

  function NewPolicy(): Policy {
    var l := Level([], 0, 0);
    Policy(l, l, l, map[], 0)
  }

  /** The policy after a history of walks. */
  function AfterWalks(walks: seq<Walk>): Policy
    decreases |walks|
  {
    if walks == [] then NewPolicy()
    else var n := |walks| - 1; CheckWalk(AfterWalks(walks[..n]), walks[n]).0
  }

  /** The pages a history of walks accesses in one of the buffers. */
  function PagesOf(walks: seq<Walk>, size: PageSize): seq<nat>
    decreases |walks|
  {
    if walks == [] then []
    else var n := |walks| - 1;
         PagesOf(walks[..n], size) + if walks[n].Size() == size then [walks[n].PageAddr()] else []
  }

  lemma WalkTouchesOneLevel(p: Policy, w: Walk, size: PageSize)
    ensures CheckWalk(p, w).0.At(size)
         == if w.Size() == size then TouchLevel(p.At(size), Capacity(size), w.PageAddr()) else p.At(size)
    ensures p.ptwCount == |p.vaPa| ==> CheckWalk(p, w).0.ptwCount == |CheckWalk(p, w).0.vaPa|
  {
  }

  /** Each buffer sees only its own pages, and every walk is a hit or a miss of its buffer. */
  lemma {:induction false} LevelsFollowHistory(walks: seq<Walk>, size: PageSize)
    ensures var p := AfterWalks(walks);
            && p.At(size).entries == After(PagesOf(walks, size), Capacity(size))
            && p.At(size).hits + p.At(size).misses == |PagesOf(walks, size)|
            && p.ptwCount == |p.vaPa|
    decreases |walks|
  {
    if walks != [] {
      var n := |walks| - 1;
      LevelsFollowHistory(walks[..n], size);
      WalkTouchesOneLevel(AfterWalks(walks[..n]), walks[n], size);
      var before, pages := PagesOf(walks[..n], size), PagesOf(walks, size);
      if walks[n].Size() == size {
        assert pages[..|pages| - 1] == before;
      } else {
        assert pages == before;
      }
    }
  }

  /**
    After any history, a walk hits its buffer exactly when its page was accessed there before and fewer
    than that buffer's capacity of distinct other pages were accessed there since; and the count of
    full walks is the number of translations known.
   */
  lemma WalkHitsIffStackDistance(walks: seq<Walk>, w: Walk)
    ensures var p := AfterWalks(walks);
            var pages := PagesOf(walks, w.Size());
            && (CheckWalk(p, w).1 == TlbHit <==>
                  w.PageAddr() in pages && |OthersSince(pages, w.PageAddr())| < Capacity(w.Size()))
            && p.ptwCount == |p.vaPa|
  {
    LevelsFollowHistory(walks, w.Size());
    HitIffStackDistance(PagesOf(walks, w.Size()), Capacity(w.Size()), w.PageAddr());
  }

  function OutcomeAt(walks: seq<Walk>, i: nat): Outcome
    requires i < |walks|
  {
    CheckWalk(AfterWalks(walks[..i]), walks[i]).1
  }

  lemma WalkRecordsMiss(p: Policy, w: Walk, virt: nat)
    ensures virt in CheckWalk(p, w).0.vaPa <==> virt in p.vaPa || (w.virt == virt && CheckWalk(p, w).1 != TlbHit)
  {
  }

  ghost function MissTimes(walks: seq<Walk>, virt: nat): nat -> bool {
    (i: nat) => i < |walks| && walks[i].virt == virt && OutcomeAt(walks, i) != TlbHit
  }

  /** Some walk of this very address, before number `n`, missed its buffer. */
  ghost predicate MissedBefore(walks: seq<Walk>, virt: nat, n: nat) {
    Since(MissTimes(walks, virt), Never(), n)
  }

  ghost function KnownTimes(walks: seq<Walk>, virt: nat): nat -> bool {
    (n: nat) => n <= |walks| && virt in AfterWalks(walks[..n]).vaPa
  }

  lemma KnownStep(walks: seq<Walk>, virt: nat, n: nat)
    requires n < |walks|
    ensures KnownTimes(walks, virt)(n + 1) <==> KnownTimes(walks, virt)(n) || MissTimes(walks, virt)(n)
  {
    assert walks[..n + 1][..n] == walks[..n];
    WalkRecordsMiss(AfterWalks(walks[..n]), walks[n], virt);
  }

  /** A translation is known exactly when an earlier walk of that very address missed its buffer. */
  lemma KnownIffMissedBefore(walks: seq<Walk>, virt: nat, n: nat)
    requires n <= |walks|
    ensures virt in AfterWalks(walks[..n]).vaPa <==> MissedBefore(walks, virt, n)
  {
    var known, missed := KnownTimes(walks, virt), MissTimes(walks, virt);
    forall k: nat | k < n ensures known(k + 1) <==> missed(k) || (known(k) && !Never()(k)) {
      KnownStep(walks, virt, k);
    }
    FollowsSince(known, missed, Never(), n);
  }

  /** No virtual address is ever walked in full twice. */
  lemma FullWalkAtMostOnce(walks: seq<Walk>, i: nat, j: nat)
    requires i < j < |walks| && walks[i].virt == walks[j].virt && OutcomeAt(walks, i) == FullWalk
    ensures OutcomeAt(walks, j) != FullWalk
  {
    assert MissTimes(walks, walks[j].virt)(i) && QuietBetween(Never(), i, j);
    KnownIffMissedBefore(walks, walks[j].virt, j);
  }

  /** The page is among the last distinct ones, as many as fit, of its own buffer. */
  ghost predicate RecentPage(walks: seq<Walk>, w: Walk) {
    var pages := PagesOf(walks, w.Size());
    w.PageAddr() in pages && |OthersSince(pages, w.PageAddr())| < Capacity(w.Size())
  }

  /**
    What a walk comes to after any history: a hit when its page is recent, a known translation when this
    very address missed before, and a full walk otherwise.
   */
  lemma WalkOutcome(walks: seq<Walk>, w: Walk)
    ensures CheckWalk(AfterWalks(walks), w).1
         == if RecentPage(walks, w) then TlbHit
            else if MissedBefore(walks, w.virt, |walks|) then KnownTranslation
            else FullWalk
  {
    WalkHitsIffStackDistance(walks, w);
    KnownIffMissedBefore(walks, w.virt, |walks|);
    assert walks[..|walks|] == walks;
  }

  lemma LatencyOf(outcome: Outcome, size: PageSize, base: nat, recent: bool, missed: bool)
    requires outcome == if recent then TlbHit else if missed then KnownTranslation else FullWalk
    ensures WalkLatency(outcome, size, base)
         == if recent then 0
            else if missed then (base as real * 0.2 * Reduction(size)).Floor
            else (base as real * Reduction(size)).Floor
  {
  }

  /** And what it costs: nothing, a fifth of the reduced base latency, or all of it. */
  lemma WalkCost(walks: seq<Walk>, w: Walk, base: nat)
    ensures WalkLatency(CheckWalk(AfterWalks(walks), w).1, w.Size(), base)
         == if RecentPage(walks, w) then 0
            else if MissedBefore(walks, w.virt, |walks|) then (base as real * 0.2 * Reduction(w.Size())).Floor
            else (base as real * Reduction(w.Size())).Floor
  {
    WalkOutcome(walks, w);
    LatencyOf(CheckWalk(AfterWalks(walks), w).1, w.Size(), base,
              RecentPage(walks, w), MissedBefore(walks, w.virt, |walks|));
  }

  // ---------------------------------------------------------------------------------------------
  // Page sizes, counters and translations in figures
  // ---------------------------------------------------------------------------------------------

  predicate IsSmall(t: PageType) {
    t == Cacheline || t == Page
  }

  /** Cache lines and pages share the first buffer; 2M and 1G pages have their own. */
  lemma SameBufferIff(v: Walk, w: Walk)
    ensures v.Size() == w.Size() <==> v.pageType == w.pageType || (IsSmall(v.pageType) && IsSmall(w.pageType))
  {
  }

  /** Within a buffer two walks are of one page exactly when their addresses agree above 12, 21 or 30 bits. */
  lemma SamePageIff(v: Walk, w: Walk)
    ensures IsSmall(v.pageType) && IsSmall(w.pageType) ==>
              (v.PageAddr() == w.PageAddr() <==> v.virt / 0x1000 == w.virt / 0x1000)
    ensures v.pageType == HugePage2M && w.pageType == HugePage2M ==>
              (v.PageAddr() == w.PageAddr() <==> v.virt / 0x20_0000 == w.virt / 0x20_0000)
    ensures v.pageType == HugePage1G && w.pageType == HugePage1G ==>
              (v.PageAddr() == w.PageAddr() <==> v.virt / 0x4000_0000 == w.virt / 0x4000_0000)
  {
    assert v.PageAddr() == Bytes(v.Size()) * (v.virt / Bytes(v.Size()));
    assert w.PageAddr() == Bytes(w.Size()) * (w.virt / Bytes(w.Size()));
  }

  /** The buffers hold 64 small pages, 32 of 2M and 4 of 1G, the most recent ones. */
  lemma BufferSizes(walks: seq<Walk>, w: Walk)
    ensures var pages := PagesOf(walks, w.Size());
            var slots := match w.pageType
                         case Cacheline => 64
                         case Page => 64
                         case HugePage2M => 32
                         case HugePage1G => 4;
            CheckWalk(AfterWalks(walks), w).1 == TlbHit <==>
            w.PageAddr() in pages && |OthersSince(pages, w.PageAddr())| < slots
  {
    WalkHitsIffStackDistance(walks, w);
  }

  lemma FloorIs(q: int, x: real)
    requires q as real <= x < q as real + 1.0
    ensures x.Floor == q
  {
  }

  /** Latencies in whole nanoseconds: all, three quarters or half of the base, and a fifth of that when known. */
  lemma LatencyIsExact(w: Walk, base: nat)
    ensures WalkLatency(TlbHit, w.Size(), base) == 0
    ensures WalkLatency(FullWalk, w.Size(), base) == match w.pageType
                                                     case Cacheline => base
                                                     case Page => base
                                                     case HugePage2M => 3 * base / 4
                                                     case HugePage1G => base / 2
    ensures WalkLatency(KnownTranslation, w.Size(), base) == match w.pageType
                                                             case Cacheline => base / 5
                                                             case Page => base / 5
                                                             case HugePage2M => 3 * base / 20
                                                             case HugePage1G => base / 10
  {
    match w.Size()
    case Size4K =>
      FloorIs(base, base as real * 1.0);
      FloorIs(base / 5, base as real * 0.2 * 1.0);
    case Size2M =>
      FloorIs(3 * base / 4, base as real * 0.75);
      FloorIs(3 * base / 20, base as real * 0.2 * 0.75);
    case Size1G =>
      FloorIs(base / 2, base as real * 0.5);
      FloorIs(base / 10, base as real * 0.2 * 0.5);
  }

  /** The walks of one buffer that hit it. */
  function HitCount(walks: seq<Walk>, size: PageSize): nat
    decreases |walks|
  {
    if walks == [] then 0
    else
      var n := |walks| - 1;
      HitCount(walks[..n], size)
      + if walks[n].Size() == size && CheckWalk(AfterWalks(walks[..n]), walks[n]).1 == TlbHit then 1 else 0
  }

  lemma WalkCountsHit(p: Policy, w: Walk, size: PageSize)
    ensures CheckWalk(p, w).0.At(size).hits
         == p.At(size).hits + (if w.Size() == size && CheckWalk(p, w).1 == TlbHit then 1 else 0)
  {
    WalkTouchesOneLevel(p, w, size);
  }

  /** Each buffer counts its hits as hits and its other walks as misses. */
  lemma {:induction false} HitsAreCounted(walks: seq<Walk>, size: PageSize)
    ensures AfterWalks(walks).At(size).hits == HitCount(walks, size)
    ensures AfterWalks(walks).At(size).misses == |PagesOf(walks, size)| - HitCount(walks, size)
    decreases |walks|
  {
    LevelsFollowHistory(walks, size);
    if walks != [] {
      var n := |walks| - 1;
      HitsAreCounted(walks[..n], size);
      WalkCountsHit(AfterWalks(walks[..n]), walks[n], size);
    }
  }

  ghost function FullWalkTimes(walks: seq<Walk>, virt: nat, phys: nat): nat -> bool {
    (i: nat) => i < |walks| && walks[i].virt == virt && walks[i].phys == phys && OutcomeAt(walks, i) == FullWalk
  }

  ghost function TranslationTimes(walks: seq<Walk>, virt: nat, phys: nat): nat -> bool {
    (n: nat) => n <= |walks| && Translates(AfterWalks(walks[..n]), virt, phys)
  }

  predicate Translates(p: Policy, virt: nat, phys: nat) {
    virt in p.vaPa && p.vaPa[virt] == phys
  }

  lemma TranslationStep(walks: seq<Walk>, virt: nat, phys: nat, n: nat)
    requires n < |walks| && TranslationTimes(walks, virt, phys)(n + 1)
    ensures FullWalkTimes(walks, virt, phys)(n) || TranslationTimes(walks, virt, phys)(n)
  {
    assert walks[..n + 1][..n] == walks[..n];
  }

  /** The translation kept for an address is the one of its full walk. */
  lemma TranslationIsOfFullWalk(walks: seq<Walk>, virt: nat, phys: nat, n: nat)
    requires n <= |walks|
    ensures Translates(AfterWalks(walks[..n]), virt, phys) ==> Since(FullWalkTimes(walks, virt, phys), Never(), n)
  {
    var kept, full := TranslationTimes(walks, virt, phys), FullWalkTimes(walks, virt, phys);
    forall k: nat | k < n && kept(k + 1) ensures full(k) || (kept(k) && !Never()(k)) {
      TranslationStep(walks, virt, phys, k);
    }
    ImpliesSince(kept, full, Never(), n);
  }

  // ---------------------------------------------------------------------------------------------
  // The buffers and the policy, updated in place
  // ---------------------------------------------------------------------------------------------

  /** One buffer, together with the hit and miss counters the source keeps for its page size. */
  class TlbCache {
    const capacity: nat
    var entries: seq<Node>
    var index: map<nat, nat>
    var nextId: nat               // identity of the next list node
    var hits: nat
    var misses: nat

    ghost predicate Valid()
      reads this
    {
      Linked(entries, index, nextId) && capacity >= 1
    }

    ghost function View(): Level
      reads this
    {
      Level(Keys(entries), hits, misses)
    }

    constructor (size: nat)
      requires size >= 1
      ensures Valid() && View() == Level([], 0, 0) && capacity == size
    {
      capacity := size;
      entries, index, nextId := [], map[], 0;
      hits, misses := 0, 0;
    }

    method Lookup(page: nat) returns (hit: bool)
      requires Valid()
      modifies this`entries, this`index, this`nextId
      ensures Valid()
      ensures hit <==> page in old(Keys(entries))
      ensures Keys(entries) == if hit then [page] + Without(old(Keys(entries)), page) else old(Keys(entries))
    {
      LinkedKeys(entries, index, nextId);
      if page in index {
        RefreshLinks(entries, index, nextId, page);
        entries := Erase(entries, index[page]);
        entries := [Node(nextId, page)] + entries;
        index := index[page := nextId];
        nextId := nextId + 1;
        return true;
      }
      return false;
    }

    method EvictLast()
      requires Valid() && entries != []
      modifies this`entries, this`index
      ensures Valid() && Keys(entries) == old(Keys(entries))[..|old(entries)| - 1]
      ensures index == old(index) - {old(Keys(entries))[|old(entries)| - 1]}
    {
      PopUnlinks(entries, index, nextId);
      var victim := entries[|entries| - 1].key;
      entries := entries[..|entries| - 1];
      index := index - {victim};
    }

    method PushFront(page: nat)
      requires Valid() && page !in index
      modifies this`entries, this`index, this`nextId
      ensures Valid() && Keys(entries) == [page] + old(Keys(entries))
    {
      PushLinks(entries, index, nextId, page);
      entries := [Node(nextId, page)] + entries;
      index := index[page := nextId];
      nextId := nextId + 1;
    }

    method EraseIfPresent(page: nat)
      requires Valid()
      modifies this`entries, this`index
      ensures Valid() && Keys(entries) == Without(old(Keys(entries)), page) && page !in index
    {
      if page in index {
        EraseUnlinks(entries, index, nextId, page);
        entries := Erase(entries, index[page]);
        index := index - {page};
      } else {
        LinkedKeys(entries, index, nextId);
        WithoutFacts(Keys(entries), page);
      }
    }

    /** The source's insert: drop an old node of the page, make room, push the page. */
    method InsertPage(page: nat)
      requires Valid()
      modifies this`entries, this`index, this`nextId
      ensures Valid()
      ensures Keys(entries) == InsertInto(old(Keys(entries)), capacity, page)
    {
      EraseIfPresent(page);
      if |entries| >= capacity {
        EvictLast();
      }
      PushFront(page);
    }

    method LookupAndCount(page: nat) returns (hit: bool)
      requires Valid()
      modifies this
      ensures Valid()
      ensures hit <==> page in old(View()).entries
      ensures View() == if hit then TouchLevel(old(View()), capacity, page)
                        else old(View()).(misses := old(misses) + 1)
    {
      hit := Lookup(page);
      if hit {
        hits := hits + 1;
      } else {
        misses := misses + 1;
      }
    }

    method InsertMissed(page: nat)
      requires Valid() && page !in View().entries
      modifies this
      ensures Valid()
      ensures View() == old(View()).(entries := Touch(old(View()).entries, capacity, page))
    {
      WithoutFacts(Keys(entries), page);
      InsertPage(page);
    }
  }

  class HugePagePolicy {
    const tlb4k: TlbCache
    const tlb2m: TlbCache
    const tlb1g: TlbCache
    const localLatency: nat
    const remoteLatency: nat
    var vaPa: map<nat, nat>
    var ptwCount: nat

    function Buffer(size: PageSize): TlbCache {
      match size
      case Size4K => tlb4k
      case Size2M => tlb2m
      case Size1G => tlb1g
    }

    ghost predicate Valid()
      reads this, tlb4k, tlb2m, tlb1g
    {
      && tlb4k != tlb2m && tlb2m != tlb1g && tlb4k != tlb1g
      && (forall size :: Buffer(size).Valid() && Buffer(size).capacity == Capacity(size))
    }

    ghost function Model(): Policy
      reads this, tlb4k, tlb2m, tlb1g
    {
      Policy(tlb4k.View(), tlb2m.View(), tlb1g.View(), vaPa, ptwCount)
    }

    constructor (localLatency: nat, remoteLatency: nat)
      ensures Valid() && Model() == NewPolicy()
      ensures this.localLatency == localLatency && this.remoteLatency == remoteLatency
      ensures fresh(tlb4k) && fresh(tlb2m) && fresh(tlb1g)
    {
      tlb4k := new TlbCache(Capacity(Size4K));
      tlb2m := new TlbCache(Capacity(Size2M));
      tlb1g := new TlbCache(Capacity(Size1G));
      vaPa, ptwCount := map[], 0;
      this.localLatency, this.remoteLatency := localLatency, remoteLatency;
    }

    method LookupIn(size: PageSize, page: nat) returns (hit: bool)
      requires Valid()
      modifies Buffer(size)
      ensures Valid()
      ensures var l := old(Model()).At(size);
              && (hit <==> page in l.entries)
              && Model() == old(Model()).With(size,
                   if hit then TouchLevel(l, Capacity(size), page) else l.(misses := l.misses + 1))
    {
      var tlb := Buffer(size);
      hit := tlb.LookupAndCount(page);
    }

    method InsertIn(size: PageSize, page: nat)
      requires Valid() && page !in Model().At(size).entries
      modifies Buffer(size)
      ensures Valid()
      ensures var l := old(Model()).At(size);
              Model() == old(Model()).With(size, l.(entries := Touch(l.entries, Capacity(size), page)))
    {
      var tlb := Buffer(size);
      tlb.InsertMissed(page);
    }

    method RecordTranslation(virt: nat, phys: nat)
      requires Valid()
      modifies this
      ensures Valid()
      ensures Model() == old(Model()).(vaPa := old(vaPa)[virt := phys], ptwCount := old(ptwCount) + 1)
    {
      ptwCount := ptwCount + 1;
      vaPa := vaPa[virt := phys];
    }

    method Translate(w: Walk) returns (r: Outcome)
      requires Valid()
      modifies this, tlb4k, tlb2m, tlb1g
      ensures Valid() && (Model(), r) == CheckWalk(old(Model()), w)
    {
      var size, page := w.Size(), w.PageAddr();
      var hit := LookupIn(size, page);
      if hit {
        return TlbHit;
      }
      if w.virt in vaPa {
        InsertIn(size, page);
        return KnownTranslation;
      }
      RecordTranslation(w.virt, w.phys);
      InsertIn(size, page);
      return FullWalk;
    }

    method CheckPageTableWalk(w: Walk, isRemote: bool) returns (latency: nat)
      requires Valid()
      modifies this, tlb4k, tlb2m, tlb1g
      ensures Valid() && Model() == CheckWalk(old(Model()), w).0
      ensures latency == WalkLatency(CheckWalk(old(Model()), w).1, w.Size(),
                                     if isRemote then remoteLatency else localLatency)
    {
      var base := if isRemote then remoteLatency else localLatency;
      var outcome := Translate(w);
      return WalkLatency(outcome, w.Size(), base);
    }
  }
}
