# A verified model of the copying collector

The repository is a C++ garbage collector with two spaces. Objects are allocated by
bumping an index; a collection flips the spaces, finds pointer slots conservatively (a
16-byte pattern of a header word and a tagged address), copies what the roots reach and
sweeps the table of managed objects. Mutators may go on allocating and storing pointers
while a collection runs on a worker thread.

The model has three layers.

**Bytes and slots.** Memory is a sequence of bytes indexed by address; Dafny arrays of bytes
are updated in place by the methods.

- `Bits`: masks and shifts on unbounded naturals.
- `FatPtrs`, `Slots`: tagged pointers, their recognition, `compare_exchange`,
  `atomic_update`, `scan_memory`.
- `AtomicCopy`: `seq_cst_cpy`, including the bytes it moves past the size.

**The collector**, under the serial policy, where a collection runs inside the call that
starts it. The repository instantiates its collector with both policies
(src/copy_collector.cpp:389-392), but `GC::alloc` only over the concurrent one
(src/safe_alloc.cpp:7-11), where `collect()` returns after the flip and the caller may then use
a fresh half while the old one is still being evacuated. What is proved here about `GC::alloc`
is about its composition with the serial collector, which the repository does not ship.

- `Heaps`: the operations as functions on states. Exceptions are faults.
- `Collector`: the class with its fields, loops and in-place writes. Each method is proved
  equal to the function of `Heaps` that the theorems are about.
- `Ledgers`, `Evacuation`, `Retention`, `Collections`: the invariants of one collection and
  its results for all graphs, with cycles, sharing and duplicate roots.
- `Searches`, `EvacuationOrder`: a depth-first search of the unmoved heap and a layout of what
  it finds; the collection copies in that order to those addresses, so both tell beforehand
  whether it completes.
- `PathEquivalence`, `TwoCollections`: what a mutator reads after one collection, and what
  a second collection loses.
- `Runs`, `Completeness`: whole runs of allocations, collections and mutator writes; exactly
  when `GC::alloc` succeeds.
- `NaturalRuns`: retention and path equivalence at every point of a run whose objects ask for no
  more alignment than their size.
- `Scenarios`, `FailingRun`: concrete heaps in which the source loses an object, invents an edge,
  refuses an allocation a collection would have made room for, and reports heap corruption.
- `CopyScanning`, `CopyRetention`, `VariantRuns`: a *variant* of the source, marked `OfCopy`,
  that scans the copy instead of the original. It is what the documentation asks for, and
  keeps the whole graph through any run.

**Interleavings.** Transition systems whose steps are the atomic operations and critical
sections of the source.

- `RootSlots`: mutator stores against the collector's compare-and-exchange.
- `BumpReservation`: any number of threads in `reserve_space`.
- `Dispatch`: `collect()` and the gap between reserving and recording an object.
- `TaskQueue`: the worker queue with its mutex and condition variable.
- `GcRoots`: stack ranges of threads and the roots found in them (a class).

## Where the source differs from its documentation

The model follows the code.

- `forward_ptr` is documented to forward "the pointer and all members". It pushes the slots of
  the original and only then copies it (src/copy_collector.cpp:295-302), so the copy keeps the
  old pointers and the original gets the new ones. `PathEquivalence.MembersForwardedIff`
  gives the exact condition under which the documentation is met, `PathEquivalence.PathsRead`
  what holds always, and `TwoCollections.SurvivesTwice` the objects a second collection loses.
- The pointers that copies keep become stale: they name the space that the next collection
  hands out again. `TwoCollections.EdgesAfter` says exactly which of them turn into edges that
  no mutator made, and `RootSlots.SlotChangesIff` when a slot changes its meaning that way.
- A collection that runs out of room leaves objects in both spaces, and a later one can then
  report "Heap corruption" (`FailingRun.FailedCollectionCorrupts`). `Runs.CorruptionNeedsFailure` says
  that this is the only way there, `Runs.AllocAfterFailure` that allocations in between never
  report it, and `Runs.NaturalRun` that it cannot happen when no object asks for more alignment
  than its size.
- `alloc_attempt` is documented to collect and retry when an allocation fails. With a managed
  object in the table `check_overlapping_alloc` reads the missing index and throws first; with
  an empty table the space is unused and the reservation cannot fail. `Runs.AllocNeverCollects`
  proves that the retry is never reached, `Runs.RetryOutcome` what it would do.
- The destructor of the worker queue asks for a stop and notifies without the lock, so both can fall
  between the worker's test of the stop token and its wait. `TaskQueue.ShutdownHangsIff` says exactly
  when the worker is then left waiting.
- `scan_memory` stops at `ptr + 16 < end`, so a slot that ends exactly at `end` is not
  reported. Reachability is defined through what is reported.
- `calc_alignment_bytes` counts in a byte. `Collector.CounterReaches` says for which addresses
  and alignments its loop can end.

## Assumptions

- generational_gc.h is not part of this model. Line 302 of src/copy_collector.cpp takes the
  `copy` arm; test/copy_test.cpp:87-88 expects objects to move.
- Alignments of objects are powers of two up to 256, and spaces start on multiples of 256 (they are
  page-aligned).
- Root slots are 8-byte aligned, as their type requires, and lie outside the two heap spaces.
- Memory ends at least 8 bytes above each space and below 2^56.
- Sizes are at most half of the heap size, so no sum of a size, a padding and an index wraps
  around; indices are unbounded naturals.
- `Fits` in a hypothesis means that the collection at hand completes and that none of its copies
  writes bytes behind the end of to-space. `EvacuationOrder.CollectionFollowsOrder` gives an
  equivalent condition on the heap before the collection. Each of these is enough, and counts no
  garbage: `LiveSlack`, that the reachable objects with the most padding they can need leave
  7 bytes (`EvacuationOrder.LiveSlackFits`); that all alignments are multiples of 8 and the
  collection completes (`EvacuationOrder.AlignedFits`). In one-page spaces or larger it holds in
  every run whose objects ask for no more alignment than their size (`NaturalRuns`), and with
  all alignments 1 in spaces of any size (`Completeness.PackedRun`).
- `StaleField` and `StaleRoot` in `TwoCollections` are slots of retained objects and roots that
  hold, before a collection, an address at which the collection then places a copy.
  `NoStalePointers`, that no slot names the inactive space at all, excludes them; a collection
  of a graph with edges leaves such slots, so `NoStalePointers` is false after it.
- A stack pointer is at least 128, so the red zone does not wrap around address 0.

## Model

| member | source | states |
|---|---|---|
| FatPtrs.MaybePtrIsSlot | include/gc_base.h:142-171 | The mask test on header and pointer word accepts exactly the header followed by a word whose top byte is the tag. |
| FatPtrs.TestPtrIsTarget | include/gc_base.h:265-285 | `test_ptr` gives the address below the tag of a recognised slot, and nothing otherwise. |
| FatPtrs.SlotsApart | include/gc_base.h:52-71 | The pointer word of a slot is never the header of another one: the header's top byte is not the tag. |
| FatPtrs.CasEffect | include/gc_base.h:232-254 | `compare_exchange` keeps a slot recognised, replaces its target exactly when it is the expected one, and touches only the pointer word. |
| FatPtrs.CasSeparation | include/gc_base.h:232-254 | An exchange on one slot keeps recognition and target of every other aligned address. |
| FatPtrs.ScanMemoryExact | include/gc_base.h:327-338 | `scan_memory` reports exactly the 8-aligned addresses from `begin` whose 16 bytes end below `end` and hold header and tag. |
| FatPtrs.ScanSeparated | include/gc_base.h:327-338 | Reported slots come in ascending order and share no byte. |
| Slots.FatPtrRoundTrip | include/gc_base.h:124-128 | A pointer built from an address is tagged and gives back the address modulo 2^56. |
| Slots.TestSlot | include/gc_base.h:265-285 | The read of a slot in memory yields its target exactly when it is recognised. |
| Slots.CompareExchange | include/gc_base.h:232-254 | Memory becomes the exchange of the old memory; nothing is returned exactly on success, otherwise the current target. |
| Slots.AtomicUpdate | include/gc_base.h:202-217 | The slot names the new address, stays recognised if its header was there, and no other byte changes. |
| Slots.ScanSlots | include/gc_base.h:327-338 | The scanning loop collects exactly the recognised aligned slots, in order and disjoint. |
| AtomicCopy.ReachBounds | src/concurrent_gc.cpp:48-72 | The copy moves at least `size` bytes and at most to the end of the source's last 8-byte block. |
| AtomicCopy.WidthExact | src/concurrent_gc.cpp:41-68 | The chunk taken at an address is the widest of 8, 4, 2 and 1 bytes that divides it. |
| AtomicCopy.WrittenExactly | src/concurrent_gc.cpp:48-72 | For every source address and size, how many bytes are written: none for size 0, up to the end of the source word of the last byte when the source starts at a word or leaves its first one, and otherwise up to the next chunk boundary inside that word. |
| AtomicCopy.ReachAligned | src/concurrent_gc.cpp:54-57 | Once at the start of a source word the copy goes on in whole words to the end of the one the last byte lies in. |
| AtomicCopy.CopyEffect | src/concurrent_gc.cpp:48-72 | The destination gets the source's bytes and nothing else changes but the bytes written too many, whose number `Written` gives exactly. |
| AtomicCopy.SeqCstCpy | src/concurrent_gc.cpp:48-72 | The mixed-width loop performs that copy in place. |
| Collector.CalcAlignmentBytes | src/copy_collector.cpp:171-180 | For any power of two, where 255 bytes suffice, the byte counter does not wrap and stops at the nearest aligned address at or above the pointer. |
| Collector.CounterReaches | src/copy_collector.cpp:174-178 | For any alignment the byte counter meets an aligned address if and only if the padding needed is at most 255. |
| Collector.CounterSpins | src/copy_collector.cpp:174-178 | Alignment 512 one byte into any page: no value of the counter ends the loop. |
| Collector.MaskTest | src/copy_collector.cpp:175-176 | The mask test is divisibility by the alignment. |
| Collector.PageSizes | src/mem_prot.cpp:83-87 | `page_size_ceil` gives the least multiple of the page size that is not below the size. |
| Collector.CopyingCollector.constructor | include/copy_collector.h:51-70 | Two disjoint page-aligned spaces of the rounded size, half the requested size as allocation limit, and the heap invariant; sizes for which the source throws have no such spaces. |
| Collector.CopyingCollector.GetSpaceNum | src/copy_collector.cpp:130-142 | The one space that holds the address, or the error exactly when neither does. |
| Collector.CopyingCollector.ReserveSpace | src/copy_collector.cpp:218-234 | The index is aligned, at or above the old one and under the limit, the bump index ends at index plus size; on refusal nothing changes. |
| Collector.CopyingCollector.CheckOverlappingAlloc | src/copy_collector.cpp:376-387 | Reports corruption exactly on overlap, and the missing index exactly when the table is not empty. |
| Collector.CopyingCollector.AllocNoConstraints | src/copy_collector.cpp:182-194 | Records the object at the index, keeping every entry there was, one at that address included, or fails exactly when the object would reach the end of the space. |
| Collector.CopyingCollector.Copy | src/copy_collector.cpp:236-268 | Table, memory, bump index and result after copying, for success and for every fault. |
| Collector.CopyingCollector.ForwardPtr | src/copy_collector.cpp:270-308 | The loop over the explicit stack does exactly what `Forward` does to memory, table, bump index and `visited`. |
| Collector.CopyingCollector.SweepTable | src/copy_collector.cpp:330-341 | Removes exactly the entries outside to-space that were not visited. |
| Collector.CopyingCollector.AsyncCollect | src/copy_collector.cpp:312-344 | Flip, forwarding of all roots and sweep give exactly the state `Collect`, also when a fault ends them early; either way the active space is the other one and the old bump index is 0. |
| Collector.CopyingCollector.FreeSpace | src/copy_collector.cpp:145-154 | Free bytes and bump index reach the allocation limit together, exactly when any byte is free. |
| Collector.CopyingCollector.CollectFor | src/copy_collector.cpp:347-362 | Where nothing is needed or it fits under the limit, memory, table, both bump indices and the active space stay; otherwise the spaces change roles, the old bump index is 0 and the state is that of a collection. |
| Collector.CopyingCollector.AllocAttempt | src/copy_collector.cpp:196-216 | One attempt, and at most one retry after a collection. |
| Collector.CopyingCollector.Alloc | src/copy_collector.cpp:365-373 | Refuses empty and oversized requests, otherwise attempts. |
| Collector.GcAlloc | src/safe_alloc.cpp:13-22 | Over a serial collector: the front end collects first when there is too little space and refuses when that does not help. |
| Collector.GcAllocBytes | src/safe_alloc.cpp:13-22 | Over a serial collector object, with the default alignment: a pointer is returned if and only if the request is not empty and fits beside the reachable bytes, and the heap stays packed. |
| Heaps.Step | src/copy_collector.cpp:275-307 | Every turn of the forwarding loop copies an object or shortens the stack, so it ends on every heap, cyclic or not. |
| Ledgers.PaddingAligns | src/copy_collector.cpp:165-180 | Padding is below the alignment and reaches an aligned address. |
| Ledgers.PaddingLeast | src/copy_collector.cpp:165-180 | No smaller padding does. |
| Ledgers.CopyObjectMoves | src/copy_collector.cpp:246-268 | A copy succeeds if and only if the padded object ends below the end of to-space. A failure changes neither memory nor table and is never heap corruption: bad_alloc with the bump index at the end of the space when the object ends exactly there, otherwise the missing index with the bump index where it was. |
| Ledgers.CopyObjectFrame | src/copy_collector.cpp:218-268 | In any state at all: heap corruption is thrown if and only if the object has an index and overlaps a managed one, a fault changes nothing but the bump index, and the bump index is never taken back. |
| Ledgers.OverlapSharesByte | src/copy_collector.cpp:376-387 | The overlap test throws if and only if the new object shares a byte with a managed one. |
| Ledgers.StepLedger | src/copy_collector.cpp:275-307 | Every turn of the loop keeps the books: originals or copies in the table, copies aligned and apart, the bump index between the bare and the padded bytes copied. |
| Ledgers.RootsLedger | src/copy_collector.cpp:324-329 | So does forwarding all roots, whatever memory holds; it fails only when the objects copied and one more, padded, fill a space, and leaves the bump index between the bytes copied and those with that one more. |
| Evacuation.CasKeeps | src/copy_collector.cpp:283-285 | Swinging a slot to a copy keeps all copies faithful, unvisited objects untouched and every other slot. |
| Evacuation.CopyKeeps | src/copy_collector.cpp:256-262 | So does copying an object. |
| Retention.StepKeeps | src/copy_collector.cpp:275-307 | Every turn keeps what is visited reachable, what is on the stack justified, and every slot of a visited object forwarded or on the stack. |
| Retention.ForwardKeeps | src/copy_collector.cpp:270-308 | After the loop every field of every visited object has been settled. |
| Collections.OverrunAbsorbed | src/copy_collector.cpp:248-263 | When a copy writes nothing behind to-space, the bytes `seq_cst_cpy` writes too many lie at or above the new bump index; the new copy equals its source and no older copy changes. |
| Collections.MemoryAfter | src/copy_collector.cpp:235-308 | After a collection each copy has its original's bytes from before it; outside to-space only the pointer words of roots and of scanned fields of copied objects changed, where their target was copied; and each slot names what it named or its copy. |
| Collections.CollectionOutcome | src/copy_collector.cpp:312-344 | From the heap invariant, whatever memory holds: a collection completes if and only if the heap invariant holds afterwards. Failed or not, the spaces have changed roles, the old bump index is 0, and every object managed in the active space lies aligned, disjoint and below its bump index; after a failure the objects copied and one more, padded, fill a space and bound that index. |
| Collections.RoomyCompletes | src/copy_collector.cpp:248-255 | For any memory: with room for all managed objects, padded, a collection cannot fail. |
| Collections.SumOfCopies | src/copy_collector.cpp:256 | The copies weigh together what the retained originals weighed. |
| Collections.ExactRetention | src/copy_collector.cpp:269-343 | The collection copies exactly the managed objects reachable from the roots through scanned slots, each once to its own place, and the table becomes exactly the copies with size and alignment. |
| Searches.OrderExact | src/copy_collector.cpp:273-307 | The depth-first search of the unmoved heap meets exactly the reachable objects, each once. |
| Searches.LayoutWithinSum | src/copy_collector.cpp:226-233 | Objects laid out in any order end within their sizes with the most padding. |
| EvacuationOrder.CollectionFollowsOrder | src/copy_collector.cpp:246-329 | A collection copies the objects of the depth-first search in that order to the places of their layout. It completes without writing behind the space if and only if every place and every copy's last byte fit. Where no copy would spill it otherwise fails at the first object whose place does not end inside: exactly those before it have been copied, bump index and fault tell whether it ended at the end of the space, and memory is what copying those made it. |
| EvacuationOrder.AlignedFits | src/copy_collector.cpp:248-263 | Where all alignments are multiples of 8 no copy spills: a collection completes, and fits, if and only if the layout ends inside the space. |
| EvacuationOrder.LiveSlackFits | src/copy_collector.cpp:248-255 | Room for the reachable objects is enough, however much garbage there is. |
| PathEquivalence.WalkParity | src/copy_collector.cpp:293-306 | A walk of fields ends after the collection at the same object: at its copy after an even number of fields, at the original after an odd number. |
| PathEquivalence.PathsRead | src/copy_collector.cpp:235-308 | Any walk from a root reads the same payload before and after, except in forwarded fields of originals, and its fields name the same objects or their copies. |
| PathEquivalence.MembersForwardedIff | include/copy_collector.h:111-121 | All members are forwarded in the copies if and only if no reachable object points to a managed one. |
| TwoCollections.EdgesAfter | src/copy_collector.cpp:293-306 | After a collection a field of a copy names a managed object if and only if it held, before, an address at which a copy was then placed. |
| TwoCollections.NoEdgesAfter | src/copy_collector.cpp:293-306 | So no managed object points to a managed object if and only if no retained object has such a stale field. |
| TwoCollections.CleanIsNotStale | src/copy_collector.cpp:293-306 | When no slot names the inactive space, nothing is stale. |
| TwoCollections.NamedSurvivesTwice | src/copy_collector.cpp:276-291 | An object a root slot names survives any two collections that fit. |
| TwoCollections.LiveSlackAfter | src/copy_collector.cpp:248-255 | Room for the reachable objects is room for the next collection too. |
| TwoCollections.WalksAfter | src/copy_collector.cpp:293-306 | The walks a second collection can follow are exactly those from root slots, possibly stale, through stale fields. |
| TwoCollections.SurvivesTwiceExactly | src/copy_collector.cpp:293-306 | For any heap: an object survives two collections if and only if a root names it or such a walk happens to lead to its copy. |
| TwoCollections.SurvivesTwice | src/copy_collector.cpp:293-306 | Where no root and no field of a retained object is stale, it survives if and only if a root slot itself names it. |
| Scenarios.ListLosesItsTail | include/copy_collector.h:111-121 | A concrete heap that meets these hypotheses: a two-node list whose reachable second node is gone after two collections. |
| Scenarios.StaleFieldMakesAnEdge | src/copy_collector.cpp:293-306 | A concrete heap in which a stale field names, after the collection, a managed object it never pointed to. |
| Runs.TryAllocOutcome | src/copy_collector.cpp:200-215 | Even after a failed collection: a first attempt succeeds if and only if the padded object fits under the limit; when it does not, it throws exactly if anything is managed. |
| Runs.TryAllocFrame | src/copy_collector.cpp:182-215 | In any state at all: an attempt changes no memory and no entry, advances the bump index whenever it gets an index and never takes it back, and throws heap corruption if and only if the place it got overlaps. |
| Runs.RetryOutcome | src/copy_collector.cpp:207-213 | An attempt without room is repeated only where nothing is managed: after a collection at the start of the other space, or in vain where the request would have fitted unpadded. |
| Runs.CollectForOutcome | src/copy_collector.cpp:347-362 | Nothing at all happens when the room asked for is free; otherwise the spaces change roles and the old one counts as empty. |
| Runs.AllocNeverCollects | include/copy_collector.h:145-156 | In every state in which objects lie below the bump index of the active space or in the other one, which is so in any run until a collection follows a failed one: `alloc` succeeds at once, exactly when the padded object fits, or throws and changes nothing. |
| Runs.AllocAfterFailure | src/copy_collector.cpp:196-234 | After a failed collection an allocation gets the place next to the bump index that collection left, exactly when it fits, or throws for lack of room; it never reports heap corruption. |
| Runs.CollectKeeps | src/copy_collector.cpp:312-344 | A collection that completes keeps the run invariant. |
| Runs.ApplyKeeps | src/copy_collector.cpp:181-234 | From the heap invariant, whatever memory holds: a collection keeps it if and only if it completes, every other operation keeps it, and nothing but lack of room is reported. |
| Runs.RunKeeps | src/copy_collector.cpp:119-125 | Over any run whose collections complete: entries in the active space below the bump index, aligned and disjoint, the other bump index 0. |
| Runs.CorruptionNeedsFailure | src/copy_collector.cpp:376-387 | In any run from the heap invariant, heap corruption is reported only when a collection has failed for lack of room and another collection has been started after it. |
| Runs.NotManagedNever | src/copy_collector.cpp:130-142 | In any run at all every managed object is in one of the spaces, so none reports a pointer of neither space. |
| Runs.NaturalCompletes | include/copy_collector.h:51-60 | Managed objects whose alignment is at most their size fit, in every order, because only half a space is ever handed out. |
| Runs.NaturalRun | src/copy_collector.cpp:376-387 | Any run of such allocations, with any writes and any roots, keeps the heap invariant; no collection fails and no corruption is reported. |
| Runs.NaturalSlack | src/copy_collector.cpp:248-263 | In one-page spaces or larger such objects leave room even for the bytes written too many. |
| NaturalRuns.NextCollectionFits | src/copy_collector.cpp:312-344 | After any such run the next collection fits. |
| NaturalRuns.RetentionInRuns | src/copy_collector.cpp:269-343 | After any such run a collection retains exactly the reachable objects, each once. |
| NaturalRuns.PathsReadInRuns | src/copy_collector.cpp:235-308 | After any such run every walk from a root reads the same payload before and after a collection. |
| Runs.FreshIsNatural | include/copy_collector.h:51-70 | A new heap is where such runs start. |
| FailingRun.FailedCollectionCorrupts | src/copy_collector.cpp:376-387 | One-page spaces: 32 allocations fill the allocation limit exactly, a collection that meets them in another order runs out of room, and the next one reports heap corruption. |
| Completeness.PackedCollect | src/copy_collector.cpp:347-362 | With alignments 1 a collection never fails and leaves exactly the live bytes in use. |
| Completeness.PackedAlloc | src/copy_collector.cpp:365-373 | With alignments 1 the bump index is the managed bytes and stays within the allocation limit. |
| Completeness.GcAllocComplete | src/safe_alloc.cpp:13-22 | Over a serial collector with alignment 1, `GC::alloc` succeeds if and only if the size is positive and fits beside the reachable bytes, and otherwise throws bad_alloc. |
| Completeness.GcAllocExact | src/safe_alloc.cpp:13-22 | Over a serial collector, for any alignment: it succeeds if and only if the padded request fits at the bump index, when enough bytes look free, or at the end of the layout of the reachable objects, when it has to collect. |
| Scenarios.GcAllocPassesUpRoom | src/safe_alloc.cpp:15-21 | A heap of one unreachable object in which 8 free bytes are not aligned: the call throws without a collection, after which it would succeed. |
| Completeness.FreshHeapPacked | include/copy_collector.h:51-70 | A new heap satisfies what the runs start from. |
| Completeness.PackedRun | src/safe_alloc.cpp:13-28 | Over any run, with arbitrary mutator writes, the heap stays packed and no collection fails. |
| Completeness.GcAllocCompleteInRuns | src/safe_alloc.cpp:13-22 | The guarantee of `GC::alloc` holds at every point of every run. |
| VariantRuns.VariantFits | include/copy_collector.h:111-121 | Scanning copies: room for the reachable objects is enough. |
| VariantRuns.VariantRetention | include/copy_collector.h:111-121 | Scanning copies: exactly the reachable objects are retained and no slot of a copy names a copied original. |
| VariantRuns.Isomorphic | include/copy_collector.h:111-121 | Scanning copies: to-space holds the reachable graph, with the same walks, meeting points, sizes and payload. |
| VariantRuns.VariantCollectKeeps | include/copy_collector.h:111-121 | Scanning copies: a collection keeps the graph and all conditions for the next one. |
| VariantRuns.VariantAllocKeeps | src/copy_collector.cpp:365-373 | An allocation leaves the graph under the roots as it is. |
| VariantRuns.VariantRunKeeps | include/copy_collector.h:111-121 | Scanning copies, in any run of allocations, collections and mutations that leave clean pointers: every operation but the mutator's leaves the graph under the roots as it was. |
| VariantRuns.VariantRunKeepsGraph | include/copy_collector.h:111-121 | Scanning copies: any run of allocations and collections keeps the graph under the roots. |
| VariantRuns.NaturalVariantRunKeeps | include/copy_collector.h:111-121 | The same for runs with mutations, with no hypothesis on room, when objects ask for no more alignment than their size. |
| VariantRuns.NaturalVariantRunKeepsGraph | include/copy_collector.h:111-121 | The same without mutations. |
| RootSlots.PlayKeeps | src/copy_collector.cpp:275-307 | In every interleaving, late inserts into the table included and with slots holding any addresses: copies are injective, originals lie in from-space and copies at to-space addresses reserved since the flip. |
| RootSlots.SlotChangesIff | src/copy_collector.cpp:283-284 | With copies read as their originals, a step that is no store to a slot changes it if and only if it places a copy at the very address the slot holds; the collector never overwrites a newer store. |
| RootSlots.LogicalValueStays | src/copy_collector.cpp:263 | Where no slot starts out with a to-space address still to be handed out and mutators store none, only a store changes what a slot stands for, in any interleaving. |
| RootSlots.StaleSlotTurnsIntoAnObject | src/copy_collector.cpp:316-317 | A run in which a slot left over from before the flip comes to stand for an object nobody stored there. |
| RootSlots.SlotsFollowStores | src/copy_collector.cpp:263 | In every interleaving each slot holds the pointer last stored in it or that pointer's copy. |
| RootSlots.TurnCompletes | src/copy_collector.cpp:276-306 | A turn no store disturbs ends with the copy in the slot, or leaves an unmanaged pointer alone. |
| RootSlots.UndisturbedTurn | src/copy_collector.cpp:236-308 | A turn nothing disturbs, from the load of the slot on: the exact slots, copies, table and issued addresses it leaves, for a copied, a managed and an unmanaged pointer. |
| RootSlots.ManagedUntilCopied | src/copy_collector.cpp:266-267 | In every interleaving a from-space object that no late insert records again leaves the table exactly when its copy is complete, and only managed objects are copied. |
| RootSlots.IssuedOnce | src/copy_collector.cpp:218-234 | The to-space addresses handed out to copies and allocations of a run are those issued, each once. |
| BumpReservation.StepIsAtomic | src/copy_collector.cpp:217-234 | Each step is invisible or completes one call with the result it has when run alone at that moment, refusals at a stale index included. |
| BumpReservation.InterleavingIsSequential | src/copy_collector.cpp:217-234 | Every interleaving of any threads equals its completed calls one after the other in order of completion. |
| BumpReservation.EveryCallAnswered | src/copy_collector.cpp:217-234 | For each thread the requests of its completions, and then of the call it is inside, are in order exactly those of the calls it made. |
| BumpReservation.CallsServed | src/copy_collector.cpp:217-234 | With the sizes and alignments the threads called with: each completion answers its thread's next call with what it returns running alone, sizes and paddings granted sum to the bump index, and no two grants overlap. |
| BumpReservation.BytesAreTheIndex | src/copy_collector.cpp:228-233 | Granted sizes and paddings sum exactly to the bump index. |
| BumpReservation.GrantPlaced | src/copy_collector.cpp:226-233 | Each grant is aligned, padded by less than its alignment, and under its caller's limit. |
| BumpReservation.GrantsApart | src/copy_collector.cpp:231-233 | Later grants start at or above the end of earlier ones. |
| BumpReservation.ExchangeFailsIff | src/copy_collector.cpp:231-232 | An exchange fails if and only if bytes were granted since the thread read the index. |
| BumpReservation.UndisturbedCall | src/copy_collector.cpp:217-234 | From any state a call that nobody disturbs returns after one attempt: the padded index, with the bump index behind the object, or nothing exactly when that is over the limit. |
| Dispatch.SingleCollection | src/copy_collector.cpp:347-362 | In every run at most one dispatched collection is unfinished. |
| Dispatch.FlipsFindEmptySpace | src/copy_collector.cpp:195-216 | If no flip falls between a reservation and its insert and no collection aborts, every flip finds no metadata in the space that becomes to-space. |
| Dispatch.NextFlipCleanIff | src/copy_collector.cpp:196-216 | Between collections: the next flip is clean if and only if the space was clean and no insert came late. |
| Dispatch.EndCleanIff | src/copy_collector.cpp:330-341 | The end of a collection leaves from-space clean if and only if no visited address, and after an abort no address at all, is recorded there. |
| Dispatch.TableChangesExactly | src/copy_collector.cpp:330-341 | An entry leaves the table only when it has been copied or the sweep finds it unvisited outside to-space; one enters only as a recorded allocation or a copy. |
| Dispatch.ActiveContents | src/copy_collector.cpp:312-344 | From one flip to the next the active space holds exactly what it held and what was recorded or copied in it since: nothing of it is ever swept. |
| Dispatch.OpenExactly | src/copy_collector.cpp:196-216 | A thread has a reservation open exactly from reserving until it records the object or an exception gives it up. |
| Dispatch.RecordedStays | src/copy_collector.cpp:196-216 | An object reserved and recorded without a flip between is managed until the next flip. |
| Dispatch.CollectionLeaves | src/copy_collector.cpp:312-344 | A collection of a disciplined run leaves in the table exactly what was recorded or copied since its flip. |
| Dispatch.JobsFollow | src/copy_collector.cpp:318-343 | What a collection has visited is exactly what the worker dropped for it, and it has finished exactly when the worker finished or aborted it. |
| Dispatch.FlipsAlternate | src/copy_collector.cpp:119-125 | Each flip dispatches one collection; active space and to-spaces alternate with the flips. |
| Dispatch.OrdinaryRun | src/copy_collector.cpp:196-344 | The exact table after an allocation and a collection that copies it while another object is allocated. |
| Dispatch.LateInsertBreaksAFlip | src/copy_collector.cpp:195-216 | A run in which an insert after a whole collection leaves an entry in the next to-space. |
| Dispatch.AbortBreaksAFlip | src/copy_collector.cpp:318-343 | A run in which an aborted collection does. |
| TaskQueue.EveryRun | include/task.inl:7-51 | Mutual exclusion, conservation, a moved-from front exactly between move and pop, and no lost wakeup, in every state of every run. |
| TaskQueue.FirstInFirstOut | include/task.inl:18-22 | Finished tasks are a prefix of the pushed ones; pushed is finished, then running, then pending; no moved-from task is invoked. |
| TaskQueue.CalledArePushed | include/task.inl:41-51 | Every task `push_work` is called with gets into the queue as often as it is called with it, and no other. |
| TaskQueue.HasWorkMeans | include/task.inl:34-38 | The queue is empty exactly when everything pushed is finished and popped. |
| TaskQueue.NoDeadlock | include/task.inl:10-17 | Without a stop request some thread can move until everything pushed is finished. |
| TaskQueue.WorkDrains | include/task.inl:7-51 | Left alone the threads stop within a bounded number of steps, and then everything pushed is finished: no wakeup is lost. |
| TaskQueue.AfterStop | include/task.inl:10-17 | After a stop request at most one more task is completed. |
| TaskQueue.ShutdownHangsIff | include/task.inl:26-31 | Once the destructor has asked for a stop and notified, the worker can be left waiting for ever if and only if it had tested the stop token before and was about to wait, the queue is empty and no push is under way. |
| GcRoots.RangesSpanHistory | src/gc_scan.cpp:125-157 | After any calls a thread's range runs from its greatest base pointer to its last stack pointer. |
| GcRoots.Roots.UpdateStackRange | src/gc_scan.cpp:125-157 | The early return and both update branches all give the full update. |
| GcRoots.Roots.ScanLocals | src/gc_scan.cpp:86-99 | Exactly the slots recognised in the thread's range with its red zone. |
| GcRoots.Roots.GetRoots | src/gc_scan.cpp:101-123 | The stored globals first, and besides them exactly the slots recognised in some thread's range. |
| GcRoots.ReportedFramesAreScanned | src/gc_scan.cpp:86-123 | The roots are the globals and exactly the recognised slots between a thread's last stack pointer, less 128 bytes, and some base pointer it ever reported. |

## Left out

- EvacuationOrder.CollectionFollowsOrder: what a collection does after a copy has written bytes behind the space, where other objects or roots may lie. `Collections.CollectionOutcome` covers that case.
- Collections.ExactRetention, PathEquivalence.PathsRead: the same collections, for the same reason.
- Runs.AllocNeverCollects: alignments above 256, for which `calc_alignment_bytes` may not return; the other results about allocation leave them out too.
- Collector.CopyingCollector.CollectFor: the waiting loop and the tests of the future, which never hold up the serial policy; `Dispatch` covers what happens under the lock.
- Collector.CopyingCollector.ReserveSpace: paddings above 255 bytes, for which `calc_alignment_bytes` does not return.
- RootSlots.SlotsFollowStores: mutator writes to object payload while the object is being copied, which the source marks as unsolved (src/copy_collector.cpp:257), and a reservation that fails during the collection.
- BumpReservation.InterleavingIsSequential: one epoch only; a flip that resets the index while a call is under way is not modelled.
- VariantRuns.VariantRunKeeps: objects that hold a slot pattern without asking for 8-byte alignment, whose copy a scan would read at other offsets, and mutators that leave pointers to unmanaged heap addresses.
- `Dispatch`, `RootSlots`, `BumpReservation` and `TaskQueue` are transition systems over values rather than methods, because their point is the interleaving of threads.
- Inline assembly, fences and hardware memory ordering: every atomic operation is one step.
- Collector locals that a conservative scan would find as roots; scanned roots and `extra_roots` are one sequence of slots.
- The second loop of `seq_cst_cpy`, which never runs because the first one ends at `size` or beyond.
- Generation policies, promotion and the promoted vector.
- Parsing of /proc/self/maps, reading of registers, the SIGSEGV handler, page protection and heap registration.
- `SafePtr` operators and iterators, the aligned allocator, the thread counter and concept checks: thin wrappers.
- Hash-table order: loops over the table and over threads visit entries in any order.
