# CXLMemSim: a verified model

CXLMemSim simulates memory systems built on Compute Express Link. This project models the parts of it
that carry an algorithm or a protocol, and proves what they are for. Each module stands for one
component; where the source updates an object in place the module holds a class with those fields, and
the class's methods are proved equal to functions on values, about which the theorems are stated.

| module | component |
|---|---|
| `Bakery` | the two-host bakery lock and the benchmark loop that checks it |
| `Coherency` | the MOESI directory engine |
| `Dcd` | the dynamic capacity device: tagged extents and first fit (section 9.13.3 of CXL 3.0) |
| `Gfam` | access control of fabric-attached memory on top of that device |
| `Lru`, `Tlb` | the two LRU structures: the controller's cache and the translation buffers |
| `Hdm` | the address decoder: ranges, interleaving and their hybrid |
| `RangeIndex`, `Expander` | the merged address ranges, and the memory expander that keeps them beside its occupation list |
| `LogP`, `Chase` | send pacing, the pointer-chase builder |
| `Recency`, `History`, `Sorting`, `Arithmetic`, `Common` | shared lists, what holds since some moment of a run, sorting, division facts and widths |

## Results in brief

- **Bakery.** A run is a schedule, so every theorem ranges over all interleavings. Tickets are 32-bit and
  wrap. Mutual exclusion holds on every schedule, and the benchmark's own check never fires, exactly when
  `2 * iters < 2^32`; beyond that a run in which both hosts are inside is constructed by letting them
  leapfrog. Below the bound the lock serves first come first, lets a waiting host be overtaken at most
  once, never deadlocks, and every schedule that keeps giving both hosts a step ends with the counter at
  `2 * iters`.
- **Directory.** All six operations keep single writer on every run. Following the data, every node that
  may read holds the last write in all states of a run exactly when no read miss on a line follows a
  remote invalidate of that line, held OWNED here, before the next write to it. The invalidate alone does
  not hurt a reader: it leaves the last write out of memory, and memory keeps up whenever no node owns the
  line exactly when no such invalidate occurs. The nodes with a copy are those the directory lets read, in
  all states of a run, exactly when nobody writes a line that is INVALID with another node still listed as
  a sharer: that node is not told and keeps an older write. Every counter is exact per operation, and
  invalidations and messages are paid for in advance by reads and writes.
- **Capacity.** First fit returns the lowest aligned base that fits and fails only when none does. With
  64-bit arithmetic written out there is one exception, stated exactly: a full device whose end cannot be
  rounded up to a granule answers OVERLAP instead of OUT_OF_CAPACITY. An add at a given base and a release
  have an exact status for every outcome. Extents never overlap, sizes count
  bytes, release undoes add, and released bytes cannot be accessed until they are added again.
- **Access control.** After every run an access is allowed exactly when the range of some add contains it
  that has not been released since, and some grant covers it that nothing has taken away since. Its latency
  is a function of the number of active hosts. In bits: a read needs 1, a write 2, an atomic 1, 2 and 4 in
  one grant.
- **Expander.** The address ranges are an exact index of the occupation list as it was when they were last
  built. `insert`, migration and back-invalidation change the list without dropping the ranges, and
  refreshing the address set marks them valid without building them, so a query can be wrong: it is right
  exactly when it rebuilds the ranges, or the address is on the list now if and only if it was at the last
  rebuild. Concrete runs that go wrong are given.
- **Caches.** A cache returns the value of the last put of a key; a larger cache includes a smaller one fed
  the same calls; eviction takes the key whose last use is oldest; a page walk hits its buffer exactly when
  its stack distance is below the capacity.
- **Decoder.** Binary search agrees with the linear scan on compatible ranges. On overlapping ones it does
  exactly when, for every range that ends beyond those before it, the midpoints the search meets to its
  right start at or after its end.
  Interleaving is injective exactly when the targets in use are distinct, and with whole stripes it is a
  bijection.
- **Pacing.** The gap is kept for all timestamps exactly when `g == 0` or `o_s >= 1`.
- **Pointer chase.** The builder makes exactly the single cycles, through bounded hardware retries and the
  reduction of every random number to an index.

## Assumptions

- Lock: a store with its publish, and a pull with its load, are one step on device memory, word by word;
  `choosing` and `ticket` share a cache line (microbench/cxl_switch_lock_bench.c:154-159), and interference
  between them through that line is not modelled. The lock and the counter are initialised.
- Directory: node ids differ from `UINT32_MAX`, which means "no owner". The engine has no data; `MoveData`
  says where a line's value goes, following the messages the engine sends and the write-backs it counts.
- Objects are used by one caller at a time; locks and threads of the C++ classes are not modelled.
- Statistics counters and tag numbers are unbounded. Addresses, sizes, tickets, versions and the shared
  counter have the source's width.
- `std::sort` appears as a stable sort; where it could matter the theorems hold for any order of equal keys
  (`Hdm.ScanIgnoresOrder`, `RangeIndex.OccupiedIgnoresOrder`).
- Floating-point numbers are reals: latencies and shares are exact, and only the conversions to whole
  nanoseconds cut off a fraction.
- Expander: whether the request queue has room, the coins of `free_stats` and the moved entries are inputs.
- An iterator of `std::list` is the identity of its node (`Recency.Node`).
- The protocol is described without a width for tickets (microbench/cxl_switch_lock_bench.c:313-333); the
  code stores them in 32 bits, and the model follows the code.
- The hit and miss counters of a page size, which the source keeps in one event object, are fields of that
  size's translation buffer.
- `sort_ranges` is private and has no caller in the source, so the binary search is modelled as it is
  written although the public calls leave the ranges unsorted.

## Model

| member | source | states |
|---|---|---|
| Bakery.StepKeepsInv | microbench/cxl_switch_lock_bench.c:335-377 | one step of either host keeps the inductive invariant: flags follow the program counter, tickets stay below the number taken, a host past the `choosing` check is before any host still taking a ticket |
| Bakery.BakeryIsSafe | microbench/cxl_switch_lock_bench.c:1127-1156 | on every schedule with 2*iters < 2^32 the hosts are never both in the critical section, no violation is counted, and a finished run has counter 2*iters |
| Bakery.Leapfrog | microbench/cxl_switch_lock_bench.c:342-346 | for every k some interleaving has host A inside with ticket 2k+1: tickets grow without bound while neither host is idle |
| Bakery.CollideInside | microbench/cxl_switch_lock_bench.c:1132-1140 | two hosts inside together can go on until the first one's check of the counter fires |
| Bakery.TicketWrapBreaksExclusion | microbench/cxl_switch_lock_bench.c:342-372 | with 2*iters >= 2^32 some schedule reaches both hosts inside, and one where host A has counted a violation |
| Bakery.ExclusionIffTicketsFit | microbench/cxl_switch_lock_bench.c:335-377 | exclusion on all schedules, and no violation on all schedules, each hold if and only if 2*iters < 2^32 |
| Bakery.FirstComeFirstServed | microbench/cxl_switch_lock_bench.c:335-372 | if a host finished its doorway while the other was outside its own, the other is inside only after the first has been |
| Bakery.BoundedWaiting | microbench/cxl_switch_lock_bench.c:335-377 | from every reachable state in which a host is past its doorway, however the schedule goes on, the other host visits the critical section at most once before that host enters, counting a visit under way |
| Bakery.NeverBothStuck | microbench/cxl_switch_lock_bench.c:352-371 | under the invariant, unless both are finished, some host's step changes the state |
| Bakery.NoReachableDeadlock | microbench/cxl_switch_lock_bench.c:352-371 | the same for every state of every run |
| Bakery.FairRunsComplete | microbench/cxl_switch_lock_bench.c:1127-1156 | every schedule made of at least 20*iters turns that each include both hosts finishes, with counter 2*iters and no violation |
| Bakery.SharedRegion.Advance | microbench/cxl_switch_lock_bench.c:335-377 | one step of a host on the shared words and its locals, in place, is the step function |
| Bakery.SharedRegion.AdvanceOutside | microbench/cxl_switch_lock_bench.c:335-372 | the doorway and the two spin loops, in place, are the step function |
| Bakery.SharedRegion.AdvanceInside | microbench/cxl_switch_lock_bench.c:1132-1142 | the critical section and the unlock, in place, are the step function |
| Bakery.SharedRegion.Run | microbench/cxl_switch_lock_bench.c:1127-1156 | a whole run in place is the run of the schedule; below the bound no violation, and counter 2*iters when finished |
| Coherency.EffectKeepsEntryInv | src/coherency_engine.cpp:95-468 | each of the six operations keeps an entry well formed: never EXCLUSIVE, INVALID exactly without owner, MODIFIED alone and dirty, OWNED dirty with its owner outside the sharers, SHARED with its owner among them |
| Coherency.EveryRunKeepsEntries | src/coherency_engine.cpp:95-468 | that shape holds of every line after every run of the six operations |
| Coherency.SingleWriter | src/coherency_engine.cpp:197-291 | after every run, when one node may write without asking no other node may read |
| Coherency.ResponseMatchesDirectory | src/coherency_engine.cpp:95-291 | after a request the requester may read, and the state in the response is exactly its standing in the directory |
| Coherency.StepLatestIff | src/coherency_engine.cpp:95-468 | from a line whose readers hold the last write, a step leaves a reader with an older one if and only if it is a read miss on a lost line, one dropped while OWNED here and not written since |
| Coherency.LostStep | src/coherency_engine.cpp:397-423 | a line is lost after a step if and only if the step dropped it OWNED, or it was lost before and the step did not write it |
| Coherency.FirstStaleMiss | src/coherency_engine.cpp:123-149 | a run with a read miss on a lost line has a state in which some node may read an older write |
| Coherency.EveryRunLatestIff | src/coherency_engine.cpp:95-468 | every node that may read any line holds the last write in all states of a run if and only if no read miss on a line follows a drop of that line held OWNED here before the next write to it |
| Coherency.StepTrackedIff | src/coherency_engine.cpp:197-279 | from a line on which only nodes that may read have a copy, a step leaves another copy behind if and only if it writes an INVALID line with a sharer other than the writer |
| Coherency.UntoldCopyIsStale | src/coherency_engine.cpp:231-277 | in every run such a write leaves every other leftover sharer with an older write that the directory no longer lets it read |
| Coherency.EveryRunTrackedIff | src/coherency_engine.cpp:95-468 | only nodes that may read have a copy, on every line in all states of a run, if and only if the run has no such write |
| Coherency.WritebackLeavesSharer | src/coherency_engine.cpp:448-468 | three operations lead to such a write: this node writes, another reads, this node writes back |
| Coherency.StepCoherentIff | src/coherency_engine.cpp:95-468 | with memory included: from a line whose readers hold the last write and whose memory does exactly when no node owns it, a step keeps both if and only if it is not a remote invalidate of a line held OWNED here |
| Coherency.EveryRunCoherentIff | src/coherency_engine.cpp:95-468 | readers and memory keep that in all states of a run if and only if no step drops an OWNED line |
| Coherency.DropHandsOutStaleData | src/coherency_engine.cpp:397-423 | after such a drop the next new reader is let in with an older write than the last |
| Coherency.OwnedAfterWriteAndRead | src/coherency_engine.cpp:156-167 | two requests lead there: this node writes, another reads, and the line is OWNED here |
| Coherency.ReadDeliversLatest | src/coherency_engine.cpp:95-192 | a read leaves the requester with the last write; on a miss in MODIFIED or OWNED the response names the owner before the step, who is another node and holds that write |
| Coherency.RequestNamesSource | src/coherency_engine.cpp:95-291 | a request that must take the line from another node holding it MODIFIED or OWNED names that node, which holds the last write; every other request names this node |
| Coherency.WriteIsExclusive | src/coherency_engine.cpp:197-304 | after a write or atomic exactly the writer may read, and it holds the new write |
| Coherency.SameLineIff | src/coherency_engine.cpp:30-48 | addresses share an entry if and only if they are in the same 64-byte block |
| Coherency.WriteCountsExactly | src/coherency_engine.cpp:197-335 | a write sends one message to each other node that must drop its copy, the owner of an OWNED line not counted; sharers count as invalidated; one write-back exactly when another node owns the line MODIFIED or OWNED |
| Coherency.ReadCountsExactly | src/coherency_engine.cpp:95-192 | a read sends one message exactly when it misses on a line another node holds MODIFIED or OWNED, and counts nothing else |
| Coherency.HandlerCountsExactly | src/coherency_engine.cpp:397-468 | a handler counts its own message, and a write-back when it gives up a MODIFIED line |
| Coherency.HandlersMoveRights | src/coherency_engine.cpp:397-468 | an invalidate takes the right to read from this node alone, an owner's write-back from that owner alone, a downgrade from nobody but it ends MODIFIED here |
| Coherency.ReadAddsReader | src/coherency_engine.cpp:95-192 | a read adds its requester to those who may read, and removes nobody |
| Coherency.RunCountsRequests | src/coherency_engine.cpp:181-304 | over every run each request is counted once, and once as remote when it comes from another node |
| Coherency.BookkeepingIsExact | src/coherency_engine.cpp:95-468 | which operations give the line to the requester and its head, which leave it without owner, what they do to the dirty bit and the access time |
| Coherency.DirtySinceWritten | src/coherency_engine.cpp:197-468 | after every run a line is dirty if and only if it was written and its owner has not written it back since |
| Coherency.PairsAfterUpdate | src/coherency_engine.cpp:310-335 | replacing one entry changes the total number of sharers by that entry's change |
| Coherency.EffectCost | src/coherency_engine.cpp:123-180 | per operation: invalidations and messages sent, against the sharers gained or given up |
| Coherency.RunTraffic | src/coherency_engine.cpp:95-468 | over any run from any well-formed directory the same inequalities add up |
| Coherency.TrafficIsAmortised | src/coherency_engine.cpp:123-335 | from an empty directory invalidations + sharers <= reads + remote invalidates, and messages + sharers <= 2*reads + writes |
| Coherency.CoherencyEngine.GetOrCreateEntry | src/coherency_engine.cpp:30-48 | returns the line's entry, new if missing, and changes no other line |
| Coherency.CoherencyEngine.InvalidateSharers | src/coherency_engine.cpp:310-335 | one message and one invalidation per sharer but the excepted node, and no sharers left |
| Coherency.CoherencyEngine.DowngradeOwner | src/coherency_engine.cpp:337-356 | an owner other than the requester: EXCLUSIVE becomes a sharer without owner, MODIFIED becomes OWNED and dirty, other states stay, one message and one downgrade; otherwise nothing changes |
| Coherency.CoherencyEngine.ProcessRead | src/coherency_engine.cpp:95-192 | the new directory, counters and response of a read |
| Coherency.CoherencyEngine.TakeOver | src/coherency_engine.cpp:229-279 | the write miss on one entry: sharers or owner notified and counted, the writer MODIFIED and alone |
| Coherency.CoherencyEngine.AcquireModified | src/coherency_engine.cpp:205-279 | the write state machine on one entry, with its counters and data source |
| Coherency.CoherencyEngine.ProcessWrite | src/coherency_engine.cpp:197-291 | the new directory, counters and response of a write |
| Coherency.CoherencyEngine.ProcessAtomic | src/coherency_engine.cpp:293-304 | an atomic changes the directory as a write does |
| Coherency.CoherencyEngine.HandleRemoteInvalidate | src/coherency_engine.cpp:397-423 | the new directory and counters; a line not known is left alone |
| Coherency.CoherencyEngine.HandleRemoteDowngrade | src/coherency_engine.cpp:425-446 | the new directory and counters; a line not known is left alone |
| Coherency.CoherencyEngine.HandleRemoteWriteback | src/coherency_engine.cpp:448-468 | the new directory and counters; only the owner's write-back clears the entry |
| Dcd.OverlapIffSharedByte | src/dcd_gfam.cpp:16-24 | two ranges overlap if and only if some byte is in both |
| Dcd.ContainsIffEveryByte | src/dcd_gfam.cpp:26-31 | containment holds if and only if the inner range is not empty and all its bytes are in the outer |
| Dcd.AlignUpFacts | src/dcd_gfam.cpp:38-50 | rounding up gives the next multiple of the granule, or 0 when it does not fit 64 bits |
| Dcd.AlignUpFailsIff | src/dcd_gfam.cpp:38-50 | rounding up gives 0 if and only if the value is 0 or the next multiple does not fit 64 bits |
| Dcd.AddKeepsValid | src/dcd_gfam.cpp:90-126 | an add keeps extents aligned, inside the device and disjoint, and the request counters balanced |
| Dcd.ReleaseKeepsValid | src/dcd_gfam.cpp:128-149 | a release keeps the same |
| Dcd.RunKeepsValid | src/dcd_gfam.cpp:90-149 | every run of adds and releases keeps the same |
| Dcd.SortedActiveInOrder | src/dcd_gfam.cpp:62-71 | the sorted list is exactly the active extents, each ending before the next begins |
| Dcd.WalkIsExact | src/dcd_gfam.cpp:62-88 | the gap walk's answer, when inside the device, is the lowest fit; any other answer means nothing fits; the full device with an end that overflows is told apart |
| Dcd.FirstFitIsExact | src/dcd_gfam.cpp:90-126 | automatic placement succeeds if and only if an aligned free range exists, at the lowest such base; otherwise the exact status, OVERLAP only in the overflow case |
| Dcd.EveryRunPlacesExactly | src/dcd_gfam.cpp:90-149 | the same in every state that adds and releases can reach |
| Dcd.AddAtIsExact | src/dcd_gfam.cpp:90-126 | an add at a given base succeeds if and only if the base is aligned and the rounded size is inside and free there; it takes that base and appends exactly that extent; INVALID_REQUEST, OUT_OF_CAPACITY and OVERLAP each have their exact case, and then nothing is added |
| Dcd.AddTags | src/dcd_gfam.cpp:117-125 | a successful add keeps the caller's tag, or takes the next automatic one |
| Dcd.AutomaticTagsCount | src/dcd_gfam.cpp:117-125 | over every run automatic tags count up, one for each successful add that asked for one |
| Dcd.NewDeviceIsExact | src/dcd_gfam.cpp:35-36 | automatic tags start at 1, and a granule of 0 counts as single bytes |
| Dcd.WholeDeviceFits | src/dcd_gfam.cpp:90-126 | an empty device can be taken whole even when it is not a number of granules |
| Dcd.ReleaseIsExact | src/dcd_gfam.cpp:128-149 | a release succeeds if and only if an active extent has that base, the rounded size and the tag, 0 matching any; it ends one such extent at the given time; outside the device it is invalid, otherwise not found, and then nothing changes |
| Dcd.EveryRunAnswersExactly | src/dcd_gfam.cpp:90-149 | both hold in every state that adds and releases can reach |
| Dcd.OverlapIsReachable | src/dcd_gfam.cpp:38-88 | a concrete device on which automatic placement answers OVERLAP |
| Dcd.AddClaimsExactly | src/dcd_gfam.cpp:90-126 | an add gives the bytes of its result, free before, its tag and leaves every other byte with its owner |
| Dcd.ReleaseFreesExactly | src/dcd_gfam.cpp:128-149 | a release frees exactly the bytes of its aligned range |
| Dcd.AddChangesExtents | src/dcd_gfam.cpp:90-126 | an add makes exactly the range of its result an active extent |
| Dcd.ReleaseChangesExtents | src/dcd_gfam.cpp:128-149 | a release ends exactly the active extent with its aligned range |
| Dcd.AllocatedIffInExtent | src/dcd_gfam.cpp:151-167 | a range is allocated if and only if some active extent contains it |
| Dcd.ReleaseUndoesAdd | src/dcd_gfam.cpp:90-149 | releasing what an add returned succeeds and restores the owner of every byte |
| Dcd.CapacityIsConserved | src/dcd_gfam.cpp:182-200 | active sizes add up to the number of allocated bytes, at most the device |
| Dcd.EveryRunConserves | src/dcd_gfam.cpp:90-200 | after every run: disjoint extents, balanced counters, and sizes that count bytes within the total |
| Dcd.DynamicCapacityDevice.FindFreeBase | src/dcd_gfam.cpp:62-88 | the loop is the gap walk, and outside the overflow case its answer is the lowest fit or means nothing fits |
| Dcd.DynamicCapacityDevice.RangeOverlapsActive | src/dcd_gfam.cpp:56-60 | true if and only if some active extent overlaps |
| Dcd.DynamicCapacityDevice.AddCapacity | src/dcd_gfam.cpp:90-126 | the new device and the result, with the invariant kept |
| Dcd.DynamicCapacityDevice.ReleaseCapacity | src/dcd_gfam.cpp:128-149 | the new device and the status, with the invariant kept |
| Dcd.DynamicCapacityDevice.FindExtent | src/dcd_gfam.cpp:151-167 | an active extent containing the range, found if and only if there is one |
| Dcd.DynamicCapacityDevice.ActiveExtents | src/dcd_gfam.cpp:169-180 | exactly the active extents, each ending before the next begins |
| Dcd.DynamicCapacityDevice.GetStats | src/dcd_gfam.cpp:182-200 | allocated counts the allocated bytes, allocated + free is the total without the clamp, and the request counters balance |
| Gfam.StepKeepsInv | src/dcd_gfam.cpp:205-408 | every operation keeps: mappings have active hosts, own keys and some permission; allowed accesses equal the hosts' counts; active hosts share the bandwidth evenly and the others have none |
| Gfam.EveryRunBalances | src/dcd_gfam.cpp:90-408 | after every run: calls = allowed + denied, allowed = the sum over all hosts, each host's count of each kind = the accesses check_access would have allowed, the total latency is that of those accesses, and the device's counters balance |
| Gfam.AccessIffLiveGrant | src/dcd_gfam.cpp:90-304 | after every run an access is allowed if and only if the range of some add contains it and was not released since, and some grant covers it with the needed permissions and was not revoked by key or range, replaced, or dropped with its host since |
| Gfam.AllowsByBits | src/dcd_gfam.cpp:274-299 | a mapping allows an access if and only if it is the host's, covers it and has bit 1 for a read, bit 2 for a write, bits 1, 2 and 4 for an atomic |
| Gfam.MayAccessByBits | src/dcd_gfam.cpp:285-304 | check_access: allocated, host active, and one mapping with those bits |
| Gfam.AccessByBits | src/dcd_gfam.cpp:90-304 | after every run an access is allowed if and only if it is backed and one live grant of the host covers it with those bits |
| Gfam.GrantStatus | src/dcd_gfam.cpp:226-246 | after every run a grant succeeds if and only if its range is backed, it grants something and its host is registered; each failure has its exact status and changes nothing |
| Gfam.NothingWithoutDevice | src/dcd_gfam.cpp:226-304 | without a device nothing can be granted or accessed |
| Gfam.RecordIsExact | src/dcd_gfam.cpp:319-363 | status and latency of both outcomes, and that only the counts of the host or the denials move |
| Gfam.RegisterIsExact | src/dcd_gfam.cpp:205-212 | the host gets its id and label and keeps its counts; other hosts change only in their share |
| Gfam.CostWithoutShare | src/dcd_gfam.cpp:306-317 | a host without a share is charged as if it were alone |
| Gfam.ExtentsAreLiveAdds | src/dcd_gfam.cpp:90-149 | after every run the active extents are exactly the added ranges not released since |
| Gfam.MappingsAreLiveGrants | src/dcd_gfam.cpp:214-272 | after every run the table holds exactly the grants that nothing has taken away since |
| Gfam.StepChangesMappings | src/dcd_gfam.cpp:205-363 | what one operation adds to and takes from the set of mappings |
| Gfam.ActiveIffRegistered | src/dcd_gfam.cpp:205-224 | after every run a host is active if and only if it was registered and not unregistered since |
| Gfam.AccessCost | src/dcd_gfam.cpp:306-317 | after every run an active host's access of s bytes among n active hosts costs fabric*(1 + (n-1)/4) + 8*s*n/bandwidth |
| Gfam.RebalanceIsEven | src/dcd_gfam.cpp:394-408 | rebalancing gives every active host 1/n and the others nothing, and changes no count |
| Gfam.RunCounts | src/dcd_gfam.cpp:319-363 | per host and kind, the count grows by exactly the accesses allowed at the moment they are made |
| Gfam.AllowedAccessIsBacked | src/dcd_gfam.cpp:285-304 | every byte of an allowed access belongs to an active extent |
| Gfam.ReleasedIsUnreachable | src/dcd_gfam.cpp:128-304 | after a release, and any further operations, an access touching a released byte is refused until a later add covers it |
| Gfam.SumByPicks | src/dcd_gfam.cpp:365-380 | the sum over hosts does not depend on the order in which they are visited |
| Gfam.KeepElements | src/dcd_gfam.cpp:219-221 | erase-remove keeps exactly the other mappings, in order, and its length tells whether any went |
| Gfam.SharedCountIs | src/dcd_gfam.cpp:382-387 | the shared mappings are those with bit 8 |
| Gfam.GfamDevice.RebalanceBandwidth | src/dcd_gfam.cpp:394-408 | the counting and the assigning loop together are the rebalanced table |
| Gfam.GfamDevice.RegisterHost | src/dcd_gfam.cpp:205-212 | the host becomes active and keeps its counts, and the shares are even again |
| Gfam.GfamDevice.UnregisterHost | src/dcd_gfam.cpp:214-224 | the host becomes inactive, keeps its counts and loses its mappings, and the shares are even again |
| Gfam.GfamDevice.GrantAccess | src/dcd_gfam.cpp:226-246 | the new table and status, keys staying unique |
| Gfam.GfamDevice.RevokeAccess | src/dcd_gfam.cpp:248-262 | exactly the mappings with that key go; OK if and only if there was one |
| Gfam.GfamDevice.RevokeAll | src/dcd_gfam.cpp:264-272 | exactly the mappings with that base and size go |
| Gfam.GfamDevice.CheckAccess | src/dcd_gfam.cpp:285-304 | true if and only if the range is allocated, the host active, and one mapping covers it with all required permissions |
| Gfam.GfamDevice.CalculateAccessLatency | src/dcd_gfam.cpp:306-317 | the latency at the host's share, all the bandwidth for a host without one |
| Gfam.GfamDevice.RecordAccess | src/dcd_gfam.cpp:319-363 | decides as check_access does in the same state, counts the decision, and returns and adds up the latency |
| Gfam.GfamDevice.GetStats | src/dcd_gfam.cpp:365-392 | the sums over all hosts, reads + writes + atomics = allowed accesses, and the average latency |
| Recency.EraseUnlinks | include/cxlcontroller.h:142 | erasing through the iterator map removes exactly that key from the order and keeps the rest linked |
| Lru.EvictsLeastRecentlyUsed | include/cxlcontroller.h:149-165 | after any calls the list is in order of last use, and what a full cache evicts was used longest ago |
| Lru.ReturnsLastPut | include/cxlcontroller.h:128-207 | after any calls, what get returns and peek shows is the value of the last put of that key, with no remove of it and no clear since |
| Lru.StampIsLastUse | include/cxlcontroller.h:145-163 | after any calls, the timestamp of a cached key is the time of its last get or put |
| Lru.PutIsExact | include/cxlcontroller.h:149-164 | a put stores value and time for its key, keeps every other entry, and drops the last key only for a new one in a full cache |
| Lru.GetIsExact | include/cxlcontroller.h:128-147 | a get returns what peek shows, changes no value, and stamps only its own key |
| Lru.RemoveIsExact | include/cxlcontroller.h:181-192 | a remove takes exactly its key and says whether it was there |
| Lru.NegativeCapacityIsHuge | include/cxlcontroller.h:154 | a negative capacity allows more than 2^63 entries |
| Lru.LargerCacheIncludesSmaller | include/cxlcontroller.h:128-192 | fed the same calls, the smaller cache's order is a subsequence of the larger's and its hits are hits there with the same value |
| Lru.EvictBothKeepsWithin | include/cxlcontroller.h:154-159 | evicting from both caches keeps the inclusion |
| Lru.PutKeepsIncluded | include/cxlcontroller.h:149-165 | a put keeps the inclusion, whether the key is in both, one or neither |
| Lru.LruCache.GetEntry | include/cxlcontroller.h:128-147 | a hit becomes the most recent key with the new timestamp; a miss changes nothing |
| Lru.LruCache.PutEntry | include/cxlcontroller.h:149-165 | the new order and entries, with list, iterator map and entry map still agreeing |
| Lru.LruCache.RemoveEntry | include/cxlcontroller.h:181-192 | the key leaves all three structures, or false |
| Lru.LruCache.Clear | include/cxlcontroller.h:170-175 | an empty cache of the same capacity |
| Lru.LruCache.PeekEntry | include/cxlcontroller.h:200-207 | the value without touching the order; present exactly when listed |
| Tlb.BufferIsRecencyPrefix | include/policy.h:93-129 | after any accesses the buffer is the most recent part of the recency order |
| Tlb.PagesAhead | include/policy.h:100-129 | the pages ahead of a page in that order are exactly those accessed since its last access |
| Tlb.HitIffStackDistance | include/policy.h:93-129 | a page hits if and only if it was accessed before and fewer than `capacity` distinct other pages were since |
| Tlb.LevelsFollowHistory | include/policy.h:142-226 | each buffer depends only on the walks of its page size, hits + misses count them, and ptw_count is the number of known translations |
| Tlb.WalkHitsIffStackDistance | include/policy.h:142-226 | after any walks, a walk hits if and only if its stack distance in its own buffer is below that capacity |
| Tlb.FullWalkAtMostOnce | include/policy.h:207-225 | no virtual address is walked in full twice |
| Tlb.KnownIffMissedBefore | include/policy.h:212-225 | a translation is known if and only if an earlier walk of that very address missed its buffer |
| Tlb.WalkOutcome | include/policy.h:142-226 | after any walks, a walk is a hit when its stack distance is below the capacity, a known translation when its address missed before, a full walk otherwise |
| Tlb.WalkCost | include/policy.h:142-226 | after any walks, a walk costs nothing when its stack distance is below the capacity, a fifth of the base latency when its address missed before, all of it otherwise, each reduced by page size |
| Tlb.SameBufferIff | include/policy.h:150-178 | cache lines and pages share a buffer, 2M and 1G pages have their own |
| Tlb.SamePageIff | include/policy.h:154-168 | within a buffer two walks are of one page if and only if their addresses agree above 12, 21 or 30 bits |
| Tlb.BufferSizes | include/policy.h:136-226 | the stack-distance theorem with the capacities 64, 32 and 4 |
| Tlb.LatencyIsExact | include/policy.h:144-225 | a full walk costs all, three quarters or half of the base by page size, a known one a fifth of that, a hit nothing |
| Tlb.HitsAreCounted | include/policy.h:183-203 | each buffer's hit counter is the number of its walks that hit, its miss counter the rest |
| Tlb.TranslationIsOfFullWalk | include/policy.h:212-225 | the translation kept for an address is the one of its full walk |
| Tlb.TlbCache.Lookup | include/policy.h:100-110 | a hit becomes the most recent page; a miss changes nothing |
| Tlb.TlbCache.InsertPage | include/policy.h:112-128 | after a miss, the new page first and the last one dropped when full |
| Tlb.HugePagePolicy.Translate | include/policy.h:180-225 | the new buffers, translations and counters, and which of the three outcomes the walk has |
| Tlb.HugePagePolicy.CheckPageTableWalk | include/policy.h:142-226 | the same new state, and the latency of the outcome with the local or remote base |
| Hdm.RangeIsExact | src/hdm_decoder.cpp:57-60 | a range holds exactly the addresses it names if its end fits 64 bits, and none otherwise |
| Hdm.BinaryRefinesLinear | src/hdm_decoder.cpp:56-84 | on sorted, compatible ranges both lookups agree for every address, wrapped and empty ranges included |
| Hdm.ScanIgnoresOrder | src/hdm_decoder.cpp:57-66 | the linear scan of compatible ranges does not depend on their order |
| Hdm.SortingKeepsAnswers | src/hdm_decoder.cpp:26-30 | sorting compatible ranges changes no answer although lookups then use binary search |
| Hdm.NestedRangeHidesAddress | src/hdm_decoder.cpp:68-84 | a nested range makes the binary search miss an address the scan finds |
| Hdm.FoundIffReached | src/hdm_decoder.cpp:68-84 | on sorted ranges, overlapping or not, binary search stops at the scan's range if and only if every midpoint it meets to the right of that range starts above the address |
| Hdm.ReachedSearchIsScan | src/hdm_decoder.cpp:50-85 | on sorted ranges both lookups agree on every address when every range that ends beyond those before it is reached at its last byte |
| Hdm.SearchIsScanIff | src/hdm_decoder.cpp:50-85 | that condition, on bases and ends alone, is also necessary when answers tell the ranges apart |
| Hdm.RangeMissIff | src/hdm_decoder.cpp:50-66 | a lookup says "not decoded" if and only if the first range holding the address, if any, targets UINT32_MAX |
| Hdm.RangeModeIsExact | src/hdm_decoder.cpp:32-85 | in range mode the first range holding the address gives target, distance from its base, remoteness and one hop if remote; without one the answer is UINT32_MAX, 0, local, 0 hops |
| Hdm.InterleaveModeIsExact | src/hdm_decoder.cpp:32-120 | in interleave mode an address of the region is answered with the target at some position and an offset from which the address can be computed back; outside the answer is UINT32_MAX, 0, local, 0 hops |
| Hdm.RemoteAsFirstRangeSays | src/hdm_decoder.cpp:109-119 | an interleaved target is remote if and only if the first range naming it says so |
| Hdm.HybridPriority | src/hdm_decoder.cpp:38-45 | in hybrid mode the first range holding the address decides if it names a target; interleaving decides when there is none or it targets UINT32_MAX |
| Hdm.SortingKeepsDecode | src/hdm_decoder.cpp:26-48 | in every mode sorting compatible ranges that agree on remoteness leaves every address decoded as before |
| Hdm.RegionIsExact | src/hdm_decoder.cpp:93-95 | the interleave region is [base, base+size) if that fits 64 bits, and empty otherwise |
| Hdm.OffsetFormula | src/hdm_decoder.cpp:97-107 | the offset is (rel / (g*n))*g + rel % g |
| Hdm.EncodeInvertsDecode | src/hdm_decoder.cpp:97-107 | position and offset give back the address |
| Hdm.DecodeInvertsEncode | src/hdm_decoder.cpp:97-107 | every address so built decodes to that position and offset |
| Hdm.InterleavedIsExact | src/hdm_decoder.cpp:97-119 | the answer's target and offset: position (rel / g) % n of the list, offset (rel / (g*n))*g + rel % g, and back to the address |
| Hdm.EncodedIsDecoded | src/hdm_decoder.cpp:97-119 | the address of a position and offset is answered with exactly these |
| Hdm.BlocksAreGranules | src/hdm_decoder.cpp:97-107 | the first target gets the first 64, 256, 4K, 2M or 1G bytes of the region, the second one the next |
| Hdm.InjectiveIffUsedTargetsDistinct | src/hdm_decoder.cpp:87-120 | two addresses of the region are never answered with the same target and offset if and only if the targets in use are distinct |
| Hdm.WholeStripesCover | src/hdm_decoder.cpp:87-120 | with whole stripes every target is answered at exactly the offsets below size/n, each for one address |
| Hdm.WholeStripesBound | src/hdm_decoder.cpp:87-120 | and no address is answered with an offset beyond that |
| Hdm.HdmDecoder.AddRange | src/hdm_decoder.cpp:13-16 | the range is appended and the ranges count as unsorted |
| Hdm.HdmDecoder.ConfigureInterleave | src/hdm_decoder.cpp:18-24 | the interleave set is replaced, the ranges stay |
| Hdm.HdmDecoder.SortRanges | src/hdm_decoder.cpp:26-30 | sorted by base, a permutation, compatibility kept |
| Hdm.HdmDecoder.SearchRanges | src/hdm_decoder.cpp:68-84 | the loop is the binary search |
| Hdm.HdmDecoder.FindRange | src/hdm_decoder.cpp:50-85 | both paths; the scan's answer whenever the ranges are usable |
| Hdm.HdmDecoder.FindInterleaved | src/hdm_decoder.cpp:87-120 | the interleaved answer, remoteness from the first range with that target |
| Hdm.HdmDecoder.DecodeAddress | src/hdm_decoder.cpp:32-48 | the answer of the decoder's mode |
| LogP.PacedIff | include/cxlendpoint.h:163-173 | for g, o_s >= 0, any two sends to one destination begin at least g apart in every history if and only if g = 0 or o_s >= 1 |
| LogP.SendsArePaced | include/cxlendpoint.h:163-173 | the positive half, for any timestamps |
| LogP.ShortOverheadBreaksPacing | include/cxlendpoint.h:168-171 | two sends at time 0 with o_s < 1 begin together |
| LogP.DestinationsIndependent | include/cxlendpoint.h:163-173 | a destination's queue depends only on the sends to it |
| LogP.BurstDelay | include/cxlendpoint.h:163-173 | with whole parameters the k-th of a simultaneous first burst is delayed k*o_s + (k-1)*g |
| LogP.SendIsExact | include/cxlendpoint.h:163-173 | a first send, or one after the gap has passed, begins at once; any other begins exactly at last + g; the delay reaches to the end of the overhead, whose whole nanoseconds are stored |
| LogP.LogPModel.SendDelay | include/cxlendpoint.h:163-173 | the delay returned and the one queue changed |
| RangeIndex.MergeCovers | include/cxlendpoint.h:478-488 | merging runs covers exactly the addresses of the current range and the rest |
| RangeIndex.BuildIndexes | include/cxlendpoint.h:467-490 | the ranges are ordered, never touch, and hold exactly the occupied addresses, duplicates included |
| RangeIndex.MergeIsMaximal | include/cxlendpoint.h:478-488 | neighbouring ranges never touch |
| RangeIndex.LowerBoundDecides | include/cxlendpoint.h:492-501 | the first range not ending before an address decides membership |
| Expander.GrowthOf | src/cxlendpoint.cpp:222-394 | every operation but the three removals leaves occupied what was and what it adds, and nothing else; a removal occupies nothing new |
| Expander.InsertIsExact | src/cxlendpoint.cpp:251-310 | when insert answers 0, 1 and 2, the entry it leaves at the end, and that flag and ranges stay |
| Expander.RecordIsExact | src/cxlendpoint.cpp:312-361 | when record_access answers 0, 1 and 2, the entry it leaves at the end with count 0 for a write and 1 for a read, and that the flag drops |
| Expander.EraseFirstAt | src/cxlendpoint.cpp:286-299 | the first entry for the address goes and the others keep their order |
| Expander.EraseAtKeeps | src/cxlendpoint.cpp:377-394 | free_stats keeps the entries whose coin did not come up, in order |
| Expander.EraseAllKeeps | src/cxlcontroller.cpp:515-529 | back-invalidation keeps the entries of other addresses, in order |
| Expander.TouchIsExact | src/cxlendpoint.cpp:222-245 | delete_entry counts one more access for exactly the entries from the address to the address plus the length, or at the address alone when that does not fit 64 bits |
| Expander.MigrationIsExact | src/cxlcontroller.cpp:230-257 | migration in appends, migration out takes one entry if there is one, back-invalidation takes all |
| Expander.RefreshIsExact | include/cxlendpoint.h:456-463 | the address set becomes exactly the listed addresses, list and ranges staying |
| Expander.FlagIsExact | src/cxlendpoint.cpp:222-394 | which operations raise the flag, which drop it and which leave it |
| Expander.NoDuplicates | src/cxlendpoint.cpp:251-361 | after every run without migration into the expander no address is listed twice and the address set misses none |
| Expander.RunIndexes | include/cxlendpoint.h:456-501 | after every run of the eleven operations the ranges are an exact index of the list as it was at the last rebuild |
| Expander.QueryRightIff | include/cxlendpoint.h:456-501 | after every run a query is right if and only if the flag is down, or the address is on the list now exactly if it was at the last rebuild |
| Expander.ListSinceRebuild | src/cxlendpoint.cpp:251-361 | without removals the list holds what it held at the last rebuild and what was added since |
| Expander.GrowingRunRightIff | src/cxlendpoint.cpp:251-361 | without removals a query is right if and only if the flag is down or the address was not first added since the last rebuild, and it never claims an address that is not there |
| Expander.ValidMeansNoRecord | src/cxlendpoint.cpp:312-361 | while the flag is up, whatever was added since the last rebuild was added by `insert` |
| Expander.InsertIsNotIndexed | src/cxlendpoint.cpp:251-310 | over every run of insert, record, query, invalidate and delete_entry, a query is right if and only if the flag is down or no `insert` since the last rebuild was the first to add the address |
| Expander.InsertedAddressIsMissed | src/cxlendpoint.cpp:286-301 | the failing run: ask, insert, and the inserted address is not found |
| Expander.RecordedAddressIsMissed | src/cxlendpoint.cpp:122-133 | after any run, recording an address the ranges did not hold and refreshing the address set leaves it not found, as in calculate_latency |
| Expander.CxlMemExpander.InvalidateCache | include/cxlendpoint.h:465 | the flag is cleared and nothing else changes |
| Expander.CxlMemExpander.InsertAddress | src/cxlendpoint.cpp:251-310 | list, address set and code of every branch: foreign index, address 0, full queue, known address moved to the end, new address appended; the flag untouched |
| Expander.CxlMemExpander.RecordAccess | src/cxlendpoint.cpp:312-361 | list, address set, flag and code: foreign index and full queue leave the list, otherwise the address moves to the end and the flag drops |
| Expander.CxlMemExpander.UpdateAddressCache | include/cxlendpoint.h:456-463 | with the flag down the address set becomes the listed addresses and the flag rises, the ranges staying as they are |
| Expander.CxlMemExpander.UpdateRangeCache | include/cxlendpoint.h:467-490 | with the flag down the list is sorted and the ranges index it; with the flag up nothing changes |
| Expander.CxlMemExpander.LowerBound | include/cxlendpoint.h:492-501 | the first range that does not end before the address |
| Expander.CxlMemExpander.IsAddressLocal | include/cxlendpoint.h:492-501 | with the flag down, true if and only if some entry has the address; with the flag up, if and only if some present range has it, stale or not |
| Expander.CxlMemExpander.DeleteEntry | src/cxlendpoint.cpp:222-250 | both passes: exactly the entries at the address or in the range count one more access, and the flag drops if there were any |
| Expander.CxlMemExpander.FreeStats | src/cxlendpoint.cpp:377-394 | exactly the entries whose coin came up go, and the flag drops if any did |
| Expander.CxlMemExpander.MigrateIn | src/cxlcontroller.cpp:237 | the entry is appended and the flag stays |
| Expander.CxlMemExpander.MigrateOut | src/cxlcontroller.cpp:246-257 | the first entry with the address goes and the flag stays |
| Expander.CxlMemExpander.BackInvalidate | src/cxlcontroller.cpp:515-529 | every entry with the address goes and the flag stays |
| Chase.BuildMakesOneCycle | microbench/uarch.h:699-719 | whatever is drawn, success means the links visit every index once from 0 and return to 0 |
| Chase.ProducibleIffSingleCycle | microbench/uarch.h:684-719 | links can be produced from some hardware attempts, each number reduced modulo csize, if and only if they are one such cycle |
| Chase.FailsAfterRetries | microbench/uarch.h:684-697 | the call fails after 32 attempts in a row that deliver nothing, and not before |
| Chase.GetRand | microbench/uarch.h:684-697 | up to 32 attempts: the first number delivered, reduced, or the failure, and what is left |
| Chase.DrawNext | microbench/uarch.h:707-713 | the redraw loop: the first drawn index that is neither linked nor current, or the failure |
| Chase.InitChasingIndex | microbench/uarch.h:699-719 | the array filled in place is the builder's result, one cycle on success; for csize 0 the first draw fails or divides by zero |

## Left out

- Lru.LruCache.PutEntry: needs a capacity other than 0, for which the source reads and pops the back of an empty list; the other calls are modelled for every capacity.
- LogP.LogPModel.SendDelay: needs an end of the send that is not negative, since converting a negative number to an unsigned one is undefined; negative parameters are otherwise allowed.
- LogP.PacedIff: is stated for parameters that are not negative; a negative gap asks for nothing.
- Hdm.SearchIsScanIff: states necessity only for ranges that answers can tell apart: no two with equal base, target and remoteness, and no local one-byte range that targets UINT32_MAX, whose answer is that of a miss; `Hdm.FoundIffReached` covers these range by range.
- The request queue, credits and event counters of the expander, and the remote expander's shadow directory.
- Claim-then-confirm ownership lock, compare-and-swap lock, last-writer-wins race and all timing in the lock benchmark: hardware questions, or not exclusive under arbitrary interleaving.
- The barrier between the hosts of the lock benchmark.
- Coherency.CoherencyEngine.DowngradeOwner: does not return the latency of the message.
- Latency, contention and head management of the coherency engine, and the unused transition helpers.
- `M/D/1` queue estimates and latency sums of the LogP model.
- Migration, prefetch and other paging policies, the multi-headed device, reorder buffer, storage backends, shared-memory, TCP and RDMA servers.
- Performance-counter code, assembly microbenchmarks, and the plotting and launch scripts.
