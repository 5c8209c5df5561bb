# Verified models of the ArkCompiler JS runtime

Dafny models of five parts of the ArkCompiler ETS/JS runtime, with proofs of what they promise over whole runs, for
all inputs and for every reachable state.

* **Global handle storage** (`handle_block`, `handle_pool`, `handle_iteration`, `global_storage`, `handle_runs`,
  `handle_collections`): the block allocator for the garbage collector's root handles. Blocks of nodes hold an intrusive
  used list and a free list; blocks hang in a chain and in a second chain of blocks with free nodes; a young list and a
  vector of blocks to be deleted later sit beside them. Any run of operations, with allocations in the young space and
  the ends of young and full collections among them, behaves as a plain record of which handles are live, what they
  refer to and which of them the young list names, and no block is lost: each one the allocator gave out is in one pool,
  waits for its deletion, or is deleted. The block size, 256 in the source, is any positive number.
* **String-table cleaner** (`string_table_cleaner`, `cleaner_runs`, `cleaner_entries`): the sweep protocol as interleaved steps of any
  number of worker tasks over any number of parallel and concurrent cycles, including tasks left over from earlier
  cycles. Safety is an invariant of every reachable state; progress is a measure that every task step lowers, for every
  run whose concurrent cycles are posted to at least one task. No entry of the table is lost, and what a concurrent cycle
  queues the next one deletes.
* **Strings** (`rope_string`, `string_heap`, `string_search`, `string_runs`): line, cached external, tree and sliced
  strings on one shared heap, in which flattening rewrites trees in place. `Denote` reads a string off the heap as it
  is; no operation changes what any string denotes.
* **Array elements** (`tagged_value`, `elements_kind`, `js_array`): arrays that switch between raw ints, raw doubles and
  tagged values, on 64-bit words with the real tagging scheme. Elements are compared by the numbers they mean, which for a
  double are read off its sign, exponent and fraction.
* **Dates** (`date_tokens`, `date_grammar`, `date_parser`, `date_printing`, `date_legacy`): the tokenizer, the ISO path and
  the legacy path of the date parser. The running parser is proved equal to a grammar on token sequences; about the
  grammar it is proved that printed dates parse back, which texts the ISO path takes, and what every text of numbers,
  month names, clock, AM or PM, zone word and offset means, field by field.

`basics` holds a few shared notions. Methods keep the source's form (classes with mutable fields, loops, arrays); what
they compute is stated through functions and abstract state, and the laws are proved about those.

Results where the code does less than one might expect, each with its exact condition:

* `EcmaGlobalStorage.ClearToBeDeletedNodes` keeps the storage sound if and only if no listed young handle lies in a
  block it deletes; `ClearYoungGlobalList` if and only if no live handle refers to a young object. Both collections of
  the source meet the condition; `ClearWithoutUpdate` and `ClearTooEarly` give runs after which it fails.
* `StringSearch.IndexOf` is the least match at or after `pos` if and only if it is not called with an empty needle and a
  negative `pos`; then it returns `pos`.
* An array loses a stored value only for the one NaN, bits 0xFFFD000000000001, whose tagged word is the word that stands
  for a hole: it reads as a hole if and only if the elements are tagged, whether they were when it was stored or became
  so by a later store (`JSArray.Set`, `RunStores`, `LosesNaN`).
* Milliseconds are the first three fraction digits if and only if at most 12 digits are counted
  (`MillisecondsExactly`). A text makes the parser's arithmetic overflow if and only if it leads to such a longer
  fraction (`UndefinedExactly`, `LongFraction`); a text without 13 digits in a row never does (`ShortRunsDefined`).
* "12:30 AM" is half past noon: PM adds 12 to an hour below 12, AM changes nothing (`ClockOfTwelve`). A last clock number
  above 59 is no error but one more number of the date (`LateMinutes`), "3:04PM" without a blank is refused
  (`GluedRefused`), and a month name with one number is in the year 2001 (`NamedMonth`).
* Parsing what `toString` or `toUTCString` prints gives the same fields if and only if the year is at least 100
  (`ToStringRoundTrip`, `ToUTCStringRoundTrip`), although section 21.4.3.2 of ECMA-262 asks for it for
  every date without milliseconds.
* A concurrent sweep cycle can always move and completes if it is posted to at least one task (`WaitMakesProgress`,
  `CycleCompletes`), and never ends if it is posted to none (`NoTaskNeverEnds`). The task count is the thread count of
  the pool, which is 1 to 5 (`TheMostSuitableThreadNum`), so the second case does not occur.

## Model

| member | source | states |
|---|---|---|
| HandleBlock.PushInv | ecmascript/ecma_global_storage.h:255-282 | taking a fresh or a freed slot keeps the block invariant: used and free list disjoint, acyclic, correctly threaded, together exactly the slots below the index, and no other node's value, use or flags change |
| HandleBlock.FreeInv | ecmascript/ecma_global_storage.h:284-305 | freeing any used node, wherever it is in the used list, keeps that invariant and moves exactly this slot to the free list |
| HandleBlock.NodeList.NewNode | ecmascript/ecma_global_storage.h:255-268 | fails exactly on a full block; otherwise hands out the next slot, not in use before, and keeps the block valid |
| HandleBlock.NodeList.GetFreeNode | ecmascript/ecma_global_storage.h:270-282 | fails exactly without a free node; otherwise reuses the head of the free list and keeps the block valid |
| HandleBlock.NodeList.FreeNode | ecmascript/ecma_global_storage.h:284-305 | takes the node out of the used list onto the free list, every other node's value kept |
| HandlePool.Pool.Append | ecmascript/ecma_global_storage.h:307-312 | the block becomes the last of a chain that is still doubly linked throughout, with the pool's end pointer on it |
| HandlePool.Pool.RemoveBlock | ecmascript/ecma_global_storage.h:641-651 | both chains lose exactly this block, wherever it is, stay doubly linked throughout, and the pool's three pointers are their ends |
| HandlePool.AllLive | ecmascript/ecma_global_storage.h:678-709 | when no block can hand out a slot, the live handles are exactly all slots of all blocks |
| HandlePool.Pool.New | ecmascript/ecma_global_storage.h:669-710 | returns a handle that is not live and adds only it to the live map: of the last block while that has fresh slots, else of the head of the free chain; allocates a block only when every slot of every linked block is live |
| HandlePool.Pool.Dispose | ecmascript/ecma_global_storage.h:633-667 | removes exactly this handle from the live map; a block leaves the chain only when empty, and the chain is never emptied |
| HandlePool.Pool.ChainShape | ecmascript/ecma_global_storage.h:633-698 | a linked block is on the free chain if and only if it has a free node, and every block but the last is full |
| HandlePool.Pool.OffFreeChain | ecmascript/ecma_global_storage.h:659-659 | not the head and both free links null, if and only if the block is not on the free chain |
| HandlePool.Pool.EmptyPool | ecmascript/ecma_global_storage.h:641-652 | a pool without live handles has shrunk to one block |
| HandlePool.Pool.BlockBound | ecmascript/ecma_global_storage.h:641-709 | the number of blocks is at most max(1, ceil(peak of live handles / block size)) |
| HandlePool.Pool.UsedMatchesLive | ecmascript/ecma_global_storage.h:380-391 | the used lists hold exactly the live handles, each once |
| HandleIteration.IterateUsageGlobal | ecmascript/ecma_global_storage.h:380-391 | calls back for each node of the block once, in list order, although callbacks may dispose the node; a block that leaves the pool is deleted |
| HandleIteration.IterateNodeList | ecmascript/ecma_global_storage.h:443-457 | visits the used lists of all blocks as they were at the start and disposes exactly what the callback chose; exactly the blocks that left the pool are deleted, and every read of a block is by a function that requires it not to be |
| HandleIteration.WalkVisitsLiveOnce | ecmascript/ecma_global_storage.h:443-457 | that walk covers every live handle, exactly once |
| GlobalStorage.EcmaGlobalStorage.NewGlobalHandle | ecmascript/ecma_global_storage.h:459-469 | a new normal handle with the value, listed if that is young; all other handles of all kinds kept; the young list invariant kept |
| GlobalStorage.EcmaGlobalStorage.NewUnifiedHandle | ecmascript/ecma_global_storage.h:459-469 | a new unified handle with the value, all others kept |
| GlobalStorage.EcmaGlobalStorage.DisposeGlobalHandle | ecmascript/ecma_global_storage.h:471-489 | removes exactly this handle; exactly the blocks that leave the weak pool are deleted, and those that leave the normal pool wait for their deletion; on a handle that is no longer live nothing changes |
| GlobalStorage.EcmaGlobalStorage.DisposeUnifiedHandle | ecmascript/ecma_global_storage.h:471-489 | the same for unified handles: exactly the blocks that leave the pool are deleted |
| GlobalStorage.DisposeAndDelete | ecmascript/ecma_global_storage.h:633-666 | the handle is gone, and the block is deleted if and only if it left the pool |
| GlobalStorage.EcmaGlobalStorage.BlockInOnePlace | ecmascript/ecma_global_storage.h:641-657 | every block ever given out is in exactly one of: a pool, the blocks waiting for their deletion, the deleted ones |
| GlobalStorage.EcmaGlobalStorage.PoolsAllocated | ecmascript/ecma_global_storage.h:410-417 | the allocator still has given out every block of every pool |
| GlobalStorage.EcmaGlobalStorage.SlotState | ecmascript/ecma_global_storage.h:475-486 | a node says it is in use if and only if it is a live handle, and weak if and only if it is of the weak pool, even in a block whose deletion is deferred |
| GlobalStorage.EcmaGlobalStorage.SetWeak | ecmascript/ecma_global_storage.h:550-561 | the value moves to a weak handle, all other handles keep theirs, and blocks given up are deleted or wait for it |
| GlobalStorage.EcmaGlobalStorage.ClearWeak | ecmascript/ecma_global_storage.h:563-570 | the value moves to a normal handle, all other handles keep theirs, and blocks given up are deleted or wait for it |
| GlobalStorage.EcmaGlobalStorage.PoolBlocks | ecmascript/ecma_global_storage.h:641-709 | each of the three pools has at most max(1, ceil(its peak / block size)) blocks |
| GlobalStorage.EcmaGlobalStorage.YoungListExact | ecmascript/ecma_global_storage.h:491-548 | in every valid storage, and so after every run, with young objects or without: the young list has no duplicates, a node's flag is set if and only if it is listed, weak and unified nodes never are, and every live normal handle to a young object is |
| GlobalStorage.EcmaGlobalStorage.Allocate | ecmascript/ecma_global_storage.h:531-548 | new young objects keep the young list exact if and only if no live handle that is not listed refers to one of their addresses |
| GlobalStorage.EcmaGlobalStorage.CheckAndAddToYoungGlobalNodes | ecmascript/ecma_global_storage.h:531-548 | restores that every live normal handle to a young object is listed, without duplicates, flags set exactly for listed nodes |
| GlobalStorage.EcmaGlobalStorage.UpdateYoungGlobalList | ecmascript/ecma_global_storage.h:491-511 | keeps, in order, exactly the listed handles that are live and refer to a young object |
| GlobalStorage.EcmaGlobalStorage.ClearYoungGlobalList | ecmascript/ecma_global_storage.h:513-520 | empties list and flags; the storage stays valid if and only if no live normal handle refers to a young object |
| GlobalStorage.EcmaGlobalStorage.ListedLiveBlocks | ecmascript/ecma_global_storage.h:491-529 | after an update or a clear, no listed handle lies in a block to be deleted |
| GlobalStorage.EcmaGlobalStorage.ClearToBeDeletedNodes | ecmascript/ecma_global_storage.h:522-529 | deletes exactly the deferred blocks; the storage stays valid if and only if no listed handle lies in one |
| HandleRuns.AgreesAdd | ecmascript/ecma_global_storage.h:459-469 | issuing a handle that is not live extends the agreement of pool and table by one entry |
| HandleRuns.AgreesDrop | ecmascript/ecma_global_storage.h:471-489 | disposing a handle removes exactly its entry from the agreement |
| HandleRuns.ApplyDisposeAgain | ecmascript/ecma_global_storage.h:471-477 | a second dispose of a handle whose slot was not handed out again changes nothing, also when its block is waiting to be deleted |
| HandleRuns.RunCovers | ecmascript/ecma_global_storage.h:491-548 | in every run each live normal entry to a young object is listed |
| HandleRuns.ListedAfterCollection | ecmascript/mem/parallel_evacuator.cpp:499-500 | after a young collection the list names exactly the live normal entries to young objects |
| HandleRuns.ApplyFinishFull | ecmascript/mem/full_gc.cpp:250-251 | the end of a full collection keeps the storage valid and empties the list when no live handle refers to a young object |
| HandleRuns.RunStorage | ecmascript/ecma_global_storage.h:410-710 | after every sequence of operations and collections the storage agrees with a record that knows nothing of blocks, its young list holds exactly the handles of the listed entries, each once, no block ever given out is lost or deleted while in use, and each of its pools has at most max(1, ceil(peak of that kind / block size)) blocks |
| HandleCollections.YoungHandle | ecmascript/ecma_global_storage.h:531-548 | a run after which the young list holds one handle, live and to a young object |
| HandleCollections.ClearTooEarly | ecmascript/ecma_global_storage.h:513-520 | a run after which clearing the list loses a live handle to a young object |
| HandleCollections.ClearWithoutUpdate | ecmascript/ecma_global_storage.h:522-529 | a run after which deleting the deferred blocks without an update of the list leaves a handle on it whose block is deleted |
| StringTableCleaner.NoWrap | ecmascript/ecma_string_table.h:83-86 | a partition counter never wraps, with any number of tasks below 2^32 - 2049 |
| StringTableCleaner.FetchKeeps | ecmascript/ecma_string_table_optimization.cpp:94-122 | a fetch gives a partition to one task alone, or ends the task |
| StringTableCleaner.FetchClaims | ecmascript/ecma_string_table_optimization.cpp:97-110 | after any fetch every claimed partition is held by one task or counted off |
| StringTableCleaner.ReduceCounts | ecmascript/ecma_string_table.h:88-91 | the count is positive before a decrement, and exactly the decrement that makes it zero signals |
| StringTableCleaner.PostKeeps | ecmascript/ecma_string_table_optimization.cpp:25-58 | posting a cycle after the last one was awaited keeps the invariant: no task still holds a partition or is about to signal |
| StringTableCleaner.AdvanceKeeps | ecmascript/ecma_string_table_optimization.cpp:25-159 | every step of daemon and tasks keeps the protocol invariant |
| StringTableCleaner.QueueFreedKeeps | ecmascript/ecma_string_table_optimization.cpp:111-115 | deleting the queued entries of a claimed partition keeps the invariant of the entries |
| StringTableCleaner.SweptConcurrentKeeps | ecmascript/string/chained_hash_map-inl.h:419-441 | queueing what a concurrent sweep unlinks, and its dead heads, keeps the invariant of the entries: each queued entry is in its vector, once, until deleted |
| StringTableCleaner.HeadsFreedKeeps | ecmascript/string/chained_hash_map.h:241-255 | freeing queued heads that are still linked keeps the invariant of the entries |
| StringTableCleaner.EffectKeeps | ecmascript/ecma_string_table_optimization.cpp:94-194 | every step keeps the invariant of the entries |
| CleanerRuns.ReachableInv | ecmascript/ecma_string_table_optimization.cpp:25-194 | the whole invariant holds in every state of every interleaving |
| CleanerRuns.SweptExactlyOnce | ecmascript/ecma_string_table_optimization.cpp:94-122 | each partition is swept at most once in a cycle and exactly once in a cycle that is over, and exactly one task sees the count reach zero |
| CleanerRuns.EachSweptOnce | ecmascript/ecma_string_table_optimization.cpp:94-122 | the same, counted over the steps of the run itself |
| CleanerRuns.CountNeverUnderflows | ecmascript/ecma_string_table.h:88-91 | in every reachable state a decrement finds the count positive |
| CleanerRuns.WaitersPassOnlyWhenDone | ecmascript/ecma_string_table_optimization.cpp:131-145 | a waiter passes, and heads are freed, only when all partitions are swept and no task is inside one |
| CleanerRuns.LeavesSweepingOnlyWhenDone | ecmascript/ecma_string_table_optimization.cpp:147-159 | the state leaves SWEEPING only by the signal of the last task of the cycle, all partitions counted off |
| CleanerRuns.LeftoverDoesNothing | ecmascript/ecma_string_table_optimization.cpp:25-122 | a task of an earlier cycle can only fetch past the end of its old counter, which changes nothing else and ends it |
| CleanerRuns.DeferredDeletion | ecmascript/ecma_string_table_optimization.cpp:106-122 | no entry is deleted twice; a queued entry is in its partition's vector until deleted, and deleted only in a later concurrent cycle |
| CleanerRuns.QueuedDeletedByClaimant | ecmascript/ecma_string_table_optimization.cpp:110-115 | the step that deletes a queued entry is that of the task that claimed its partition in a later concurrent cycle |
| CleanerRuns.LinkedIsAlive | ecmascript/string/chained_hash_map.h:241-255 | linked entries, and bucket heads waiting to be freed, are not deleted |
| CleanerEntries.ConcurrentSweepLeaves | ecmascript/string/chained_hash_map-inl.h:419-441 | exactly the dead entries of the partition are unlinked, each is queued there with its cycle, dead heads stay linked and wait, nothing is deleted |
| CleanerEntries.ParallelSweepLeaves | ecmascript/string/chained_hash_map-inl.h:376-410 | exactly the dead entries of the partition are unlinked and each is deleted once |
| CleanerEntries.FreeQueuedLeaves | ecmascript/ecma_string_table_optimization.cpp:110-115 | exactly the entries queued for the partition are deleted, each once, and its vector is empty |
| CleanerEntries.FinishLeaves | ecmascript/string/chained_hash_map.h:241-255 | exactly the freed heads are unlinked and deleted, each once, and no head waits any more |
| CleanerEntries.InsertLeaves | ecmascript/string/chained_hash_map-inl.h:66-75 | a new entry is linked in its partition and nothing else changes |
| CleanerEntries.NothingLost | ecmascript/ecma_string_table_optimization.cpp:94-194 | in every reachable state each entry ever inserted is linked in one partition, or queued in one, or deleted once, and no two of these |
| CleanerEntries.QueuedThenDeleted | ecmascript/ecma_string_table_optimization.cpp:106-122 | what a concurrent cycle queues is deleted, once, by the first concurrent cycle after it: when any later one is over, that has happened |
| CleanerRuns.TaskStepWorks | ecmascript/ecma_string_table_optimization.cpp:94-122 | every step of a task lowers the work left |
| CleanerRuns.TasksFinish | ecmascript/ecma_string_table_optimization.cpp:94-122 | however the tasks interleave, they take no more steps than the work they were left with |
| CleanerRuns.StaffedHasTask | ecmascript/ecma_string_table_optimization.cpp:25-58 | when every concurrent cycle of a run is posted to at least one task, a daemon that joins or waits has a task of its cycle |
| CleanerRuns.TasksOfCycle | ecmascript/ecma_string_table_optimization.cpp:25-58 | once its daemon is past posting, a cycle has exactly the tasks it was posted with, and the daemon's own if it is parallel |
| CleanerRuns.TheMostSuitableThreadNum | common_components/taskpool/taskpool.cpp:59-69 | the number of threads, and so of tasks of a cycle, is 1 to 5: as asked for up to 5, else 4 from ten cores on and 3 below |
| CleanerRuns.WaitMakesProgress | ecmascript/ecma_string_table_optimization.cpp:35-66 | in every state of every run whose concurrent cycles have a task count above 0, while the daemon waits for a sweep some task of the cycle can move |
| CleanerRuns.CycleCompletes | ecmascript/ecma_string_table_optimization.cpp:35-122 | in such runs, when the tasks of a cycle have nothing left to do, after at most as many steps as their work, the cycle is over and the waiting daemon goes on |
| CleanerRuns.NoTaskNeverEnds | ecmascript/ecma_string_table_optimization.cpp:47-66 | a concurrent cycle posted with task count 0 is still being swept after every run that follows |
| RopeString.DenotesContent | ecmascript/ecma_string.cpp:889-894 | in every well-formed heap a string denotes what it was made to denote, whatever its trees look like now |
| RopeString.CopyChars | ecmascript/string/base_string-inl.h:771-780 | the units, truncated to 8 bits in a narrow buffer, and nothing outside |
| RopeString.CanBeCompressed | ecmascript/string/base_string-inl.h:988-1015 | true if and only if all units are 1 to 0x7F |
| RopeString.At | ecmascript/string/tree_string-inl.h:47-78 | the unit of the contents at the index, for all representations |
| RopeString.TreeFacts | ecmascript/string/tree_string-inl.h:27-45 | children of a tree of UTF-8 are UTF-8, both below it in rank, and together its contents |
| RopeString.WriteToFlat | ecmascript/string/base_string-inl.h:501-593 | writes exactly the contents and nothing outside, loses no bit in a narrow buffer, and terminates with the nesting of the tree as its recursion measure |
| RopeString.NestingBound | ecmascript/string/base_string-inl.h:501-593 | that nesting, one level for each shorter child, is at most log2(length) |
| RopeString.WriteRight | ecmascript/string/base_string-inl.h:558-569 | the three ways of writing a short right child write the same |
| StringHeap.Heap.constructor | ecmascript/ecma_string_table_optimization.cpp:664-674 | the single-character table: slots 1 to 127 hold their character, slot 0 is unset |
| StringHeap.Heap.CreateTreeString | ecmascript/ecma_string-inl.h:231-249 | no string exactly when the length is out of range, else a tree that denotes the concatenation |
| StringHeap.Heap.Concat | ecmascript/ecma_string.cpp:37-97 | denotes the concatenation; null exactly when it is too long; the 32-bit length does not wrap and the operands of a short result are flat |
| StringHeap.StringFacts | ecmascript/ecma_string.cpp:59-61 | lengths fit 30 bits, trees and slices have at least their minimum length, and the encoding is UTF-8 if and only if all units are compressible |
| StringHeap.CompressibleAppend | ecmascript/ecma_string.cpp:58-58 | a concatenation is compressible if and only if both parts are |
| StringHeap.Heap.SlowFlatten | ecmascript/ecma_string.cpp:875-896 | a line string with the same units; the tree points to it and to the empty string; every string of the heap denotes what it did before |
| StringHeap.Heap.Flatten | ecmascript/ecma_string.cpp:898-910 | a string that is no tree with the same contents; no denotation changes |
| StringHeap.Heap.FlattenAllString | ecmascript/ecma_string.cpp:912-933 | a run of a line or cached external string with the same units and encoding; no denotation changes |
| StringHeap.Heap.GetSlicedString | ecmascript/ecma_string.cpp:142-153 | a slice with the right contents, whose parent is a line string that contains it, even for a slice of a slice |
| StringHeap.Heap.FastSubUtf8String | ecmascript/ecma_string-inl.h:251-264 | a line string with the right contents, in UTF-8 |
| StringHeap.Heap.FastSubUtf16String | ecmascript/ecma_string-inl.h:266-287 | a line string with the right contents, compressed if and only if it can be |
| StringHeap.Heap.FastSubString | ecmascript/ecma_string.cpp:125-140 | the contents from start, of the length |
| StringHeap.Heap.GetSubString | ecmascript/ecma_string.cpp:155-186 | on all its paths the contents from start, of the length, in a valid heap |
| StringHeap.Heap.SingleFacts | ecmascript/ecma_string.cpp:160-167 | the table is read only at set slots, and holds the right string |
| StringSearch.LessTrichotomy | ecmascript/ecma_string.cpp:202-245 | the order by code units is total and antisymmetric |
| StringSearch.LessTransitive | ecmascript/ecma_string.cpp:202-245 | that order is transitive |
| StringSearch.LessExactly | ecmascript/ecma_string.cpp:202-245 | a string is less if and only if it has the smaller unit at the first difference or is a proper prefix |
| StringSearch.CompareStringSpan | ecmascript/string/base_string-inl.h:1017-1028 | a nonzero result decides the order of the whole strings; zero means equal on the units read, and only those are read |
| StringSearch.Compare | ecmascript/ecma_string.cpp:202-245 | negative, zero or positive exactly as the contents are less, equal or greater, for all encodings and representations |
| StringSearch.StringsAreEquals | ecmascript/string/base_string.h:853-872 | true if and only if the units of the first span equal those of the second |
| StringSearch.StringsAreEqual | ecmascript/ecma_string.cpp:533-561 | true if and only if the contents are equal, with the shortcuts by identity, intern flag, length and hash |
| StringSearch.SpanIndexOf | ecmascript/string/base_string-inl.h:925-951 | the least match at or after the position, or -1 |
| StringSearch.SpanLastIndexOf | ecmascript/string/base_string-inl.h:900-923 | the greatest match at or before the position, or -1 |
| StringSearch.NoWideNeedle | ecmascript/ecma_string.cpp:341-342 | a needle with a unit that cannot be compressed does not occur in a compressible text |
| StringSearch.IndexOf | ecmascript/ecma_string.cpp:296-348 | StringIndexOf of ECMA-262 section 6.1.4.1 if and only if not called with an empty needle and a negative position |
| StringSearch.LastIndexOf | ecmascript/ecma_string.cpp:350-400 | the greatest match at or before the clamped position, or -1 |
| StringRuns.RunStrings | ecmascript/ecma_string.cpp:37-186 | after any run of creations, concatenations, substrings and flattenings every handle denotes the text the run gives it, in UTF-16 only if that text needs it |
| TaggedValue.UntagTag | ecmascript/js_tagged_value.h:105-124 | untagging undoes tagging, for every value |
| TaggedValue.SignExtendedRoundTrip | ecmascript/element_accessor.cpp:103-106 | a raw int reads back, and is never the hole word |
| TaggedValue.DoubleOfIntValue | ecmascript/elements.cpp:228-230 | the double of an int means that int, by its sign, exponent and fraction, and is the positive zero for 0 |
| TaggedValue.NumeralUnique | ecmascript/element_accessor.cpp:140-142 | a finite number has only one double, so equal numbers in doubles are equal bits |
| TaggedValue.DoubleOfIntInjective | ecmascript/elements.cpp:229-230 | different ints convert to different doubles |
| TaggedValue.SameFacts | ecmascript/elements.cpp:207-212 | meaning the same number is an equivalence, keeps holes and the two zeros apart, and is equality on ints and on doubles |
| ElementsKinds.MergeIsJoin | ecmascript/elements.cpp:52-83 | merging is the least upper bound of the twelve kinds |
| ElementsKinds.KindMeaning | ecmascript/elements.h:108-125 | which values an array of each of the twelve kinds may hold |
| ElementsKinds.KindAfterIsLeast | ecmascript/elements.cpp:52-89 | after any stores the kind is the least one above the old kind and every stored kind |
| ElementsKinds.KindAfterAnyOrder | ecmascript/elements.cpp:52-89 | that kind does not depend on the order or number of the stores, and admits every value |
| JSArrays.StorableExactly | ecmascript/base/number_helper.h:90-91 | the tagged word of a value is the hole word exactly for one NaN |
| JSArrays.ConvertThenRead | ecmascript/element_accessor.cpp:96-160 | a converted value reads back the same, save that the one NaN reads as a hole from tagged elements, and no fatal branch is met |
| JSArrays.KeptStep | ecmascript/element_accessor-inl.h:28-60 | elements that are tagged and have lost the NaN are never raw again, so over any growth of the kind a slot has what its present encoding keeps of the value |
| JSArrays.RawToHeapCarries | ecmascript/elements.cpp:161-186 | raw to tagged keeps every element, save that the one NaN becomes a hole |
| JSArrays.HeapToRawCarries | ecmascript/elements.cpp:188-217 | tagged to raw, from the empty kinds, keeps every element |
| JSArrays.IntToNumberCarries | ecmascript/elements.cpp:219-232 | raw int to raw double: the double means the int, and holes stay |
| JSArrays.NextKindFacts | ecmascript/js_hclass.cpp:804-860 | the kind after a store is above the old kind and the extra kind and admits the value |
| JSArrays.NextKindIsLeast | ecmascript/js_hclass.cpp:804-860 | it is the least kind above these three |
| JSArrays.JSArray.TransitToElementsKind | ecmascript/js_hclass.cpp:839-860 | the new kind, and true if and only if it differs |
| JSArrays.JSArray.MigrateFromRawValueToHeapValue | ecmascript/elements.cpp:161-186 | a new tagged array, word by word the converted one |
| JSArrays.JSArray.MigrateFromHeapValueToRawValue | ecmascript/elements.cpp:188-217 | a new raw array, word by word the converted one |
| JSArrays.JSArray.MigrateFromHoleIntToHoleNumber | ecmascript/elements.cpp:219-232 | every word converted in place |
| JSArrays.JSArray.MigrateArrayWithKind | ecmascript/elements.cpp:137-159 | every upward change of kind keeps all elements numerically, save that the one NaN becomes a hole in tagged elements, and the elements are raw exactly for number kinds |
| JSArrays.JSArray.Get | ecmascript/element_accessor.cpp:22-40 | the element, never by way of the fatal default |
| JSArrays.JSArray.Set | ecmascript/element_accessor-inl.h:28-60 | the slot has the value and every other slot what it had, numerically, holes kept, for every value and array; the one NaN is a hole exactly in tagged elements |
| JSArrays.CopyJSArrayObject | ecmascript/element_accessor.cpp:163-172 | the prefix becomes that of the source, the tail stays, and the one NaN is a hole exactly if the destination ends up tagged |
| JSArrays.RunStores | ecmascript/element_accessor-inl.h:28-60 | after any stores of any values each slot has the last value stored in it as if it had never been re-encoded, or a hole if and only if that is the one NaN and the elements are tagged; the kind is the join of the stored kinds |
| JSArrays.LosesNaN | ecmascript/elements.cpp:161-186 | the NaN stored in raw elements reads back, and is lost when a string is stored beside it |
| DateTokens.CountFacts | ecmascript/date_parse.h:53-72 | reading a number never overflows, never yields INT_MAX, and counts leading digits until one more could overflow |
| DateTokens.CountIsDecimal | ecmascript/date_parse.h:53-72 | the number is the decimal value of the counted digits |
| DateTokens.StringReader.ReadNumber | ecmascript/date_parse.h:53-72 | that number and count, and the whole run of digits consumed |
| DateTokens.StringReader.ReadAlphabet | ecmascript/date_parse.h:74-84 | the first letters in lower case, and all letters consumed |
| DateTokens.DateProxy.Read | ecmascript/date_parse.cpp:283-325 | the first token of the rest of the text; each token consumes input or is the end |
| DateTokens.DateProxy.MatchKeyWord | ecmascript/date_parse.cpp:327-358 | the meaning of a word by its first three letters; what each meaning does to a text is stated by the rows on texts below |
| DateTokens.DateProxy.NextDate | ecmascript/date_parse.h:335-340 | returns the head of the remaining tokens and leaves their tail |
| DateGrammar.MillisecondsExactly | ecmascript/date_parse.h:442-464 | the milliseconds are the first three digits padded with zeros if and only if at most 12 digits are counted |
| DateGrammar.ParsedFieldsOk | ecmascript/date_parse.cpp:360-458 | every accepted text gives month 0 to 11, day 1 to 31, a valid time with hour 24 only as 24:00:00.000, and a zone of INT_MAX or within 24 hours 59 minutes |
| DateGrammar.AllFieldsOk | ecmascript/date_parse.cpp:360-458 | the same for the three setters, and the zone is INT_MAX if and only if it is local |
| DateGrammar.LegacyZoneOk | ecmascript/date_parse.cpp:180-281 | the legacy loop leaves the zone local or a proper offset |
| DateGrammar.IsoDateExactly | ecmascript/date_parse.cpp:45-90 | the ISO path takes exactly four digits, or six after a sign but not the negative zero, then up to two parts of two digits, then a T or the end |
| DateGrammar.IsoTimeExactly | ecmascript/date_parse.cpp:92-178 | it accepts exactly two-digit hours and minutes, then perhaps two-digit seconds, then perhaps a fraction of at most 12 counted digits, then the end, Z, or an offset of four or of two and two digits |
| DateGrammar.IsoUndefinedExactly | ecmascript/date_parse.cpp:92-178 | the ISO time overflows if and only if it has hours, minutes, seconds and a fraction of more than 12 counted digits |
| DateGrammar.LegacyUndefinedExactly | ecmascript/date_parse.cpp:180-281 | the legacy loop overflows if and only if accepted rounds lead it, with two clock parts, to seconds with such a fraction |
| DateGrammar.UndefinedExactly | ecmascript/date_parse.cpp:23-43 | for every text, the parser overflows if and only if one of the two happens |
| DateGrammar.ShortRunsDefined | ecmascript/date_parse.h:442-464 | it never overflows on a text without 13 digits in a row |
| DateParser.NormMilliSecond | ecmascript/date_parse.h:442-464 | the milliseconds, and none exactly where the divisor leaves the range of int |
| DateParser.IsIsoDateTime | ecmascript/date_parse.cpp:45-90 | the answer, the numbers taken and the tokens left that the grammar gives, also on failure |
| DateParser.ParseIsoDateTime | ecmascript/date_parse.cpp:92-178 | the time and the zone the grammar gives, or its refusal |
| DateParser.ParseLegacyDates | ecmascript/date_parse.cpp:180-281 | the state the grammar gives, or its refusal |
| DateParser.TimeZone.SetTimeZone | ecmascript/date_parse.cpp:360-371 | the zone field, refused exactly when out of range |
| DateParser.TimeValue.SetTimeValue | ecmascript/date_parse.cpp:373-394 | the four time fields, refused exactly when out of range |
| DateParser.DayValue.SetDayValue | ecmascript/date_parse.cpp:396-458 | year, month and day in the order the numbers call for, which ThreeNumbers, TwoNumbers, OneNumber and NamedMonth say for every text; refused exactly when out of range |
| DateParser.ParseDateString | ecmascript/date_parse.cpp:23-43 | for every text the answer and the fields of the grammar, in range when accepted |
| DatePrinting.PaddedFacts | ecmascript/js_date.cpp:574-597 | a padded number has its value and, if it fits, its width |
| DatePrinting.LexNumber | ecmascript/date_parse.cpp:285-289 | a printed number is read as one token with its value and width |
| DatePrinting.LexDate | ecmascript/date_parse.cpp:283-325 | the tokens of every form of the Date Time String Format |
| DatePrinting.IsoRoundTrip | ecmascript/date_parse.cpp:45-178 | every form of the Date Time String Format of ECMA-262 section 21.4.1.15 parses to the fields printed; zone 0 for Z and a date alone, INT_MAX for a time without zone |
| DatePrinting.ToISOStringRoundTrip | ecmascript/js_date.cpp:694-725 | what toISOString prints parses back to the same fields |
| DatePrinting.ToStringRoundTrip | ecmascript/js_date.cpp:728-764 | what toString prints parses back to the same fields if and only if the year is at least 100 |
| DatePrinting.ToUTCStringRoundTrip | ecmascript/js_date.cpp:798-823 | what toUTCString prints parses back to the same fields if and only if the year is at least 100 |
| DatePrinting.LongFraction | ecmascript/date_parse.h:442-464 | every date and ISO time to the second with a fraction padded with zeros to more than 12 digits, whatever follows it, overflows |
| DateLegacy.ThreeNumbers | ecmascript/date_parse.cpp:396-458 | three numbers are month, day, year if the first is a month; year, month, day if it is none and the third is a day; else refused; with the century written out, for every clock, meridiem and zone |
| DateLegacy.TwoNumbers | ecmascript/date_parse.cpp:396-458 | two numbers are year and month |
| DateLegacy.OneNumber | ecmascript/date_parse.cpp:396-458 | one number is a year |
| DateLegacy.NamedMonth | ecmascript/date_parse.cpp:396-458 | with a month name anywhere: one number is the day, in 2001; of two the first is the day if it can be, else the year; three are refused |
| DateLegacy.SlashDate | ecmascript/date_parse.cpp:396-458 | "m/d/y" written out: month m, day d, the year with its century |
| DateLegacy.ClockOfTwelve | ecmascript/date_parse.cpp:228-233 | "Mon d y h:mm AM" is hour h, "Mon d y h:mm PM" hour h + 12 below 12 and h from 12 on |
| DateLegacy.ZonedFraction | ecmascript/date_parse.cpp:185-276 | "Mon d y h:mm:ss.fff" with nothing, a zone word or an offset of each form behind it: all eight fields |
| DateLegacy.TakeMeridiem | ecmascript/date_parse.h:411-416 | the hour after AM or PM, whatever else the text holds |
| DateLegacy.TakeWholeClock | ecmascript/date_parse.cpp:185-218 | hours, minutes, seconds and the first three digits of a fraction, of every width |
| DateLegacy.TakeShift | ecmascript/date_parse.cpp:241-276 | offsets of hours alone, hours and minutes together and with a colon, of either sign |
| DateLegacy.TakeZone | ecmascript/date_parse.cpp:226-227 | a zone word is UTC, no word and no offset the local zone, and an offset counts from there |
| DateLegacy.EndingMeans | ecmascript/date_parse.cpp:360-394 | the fields of clock, meridiem and zone, refused exactly when they are no time of day or no offset up to 24:59 |
| DateLegacy.FourNumbers | ecmascript/date_parse.cpp:219-223 | more than three numbers are refused |
| DateLegacy.WordRefused | ecmascript/date_parse.cpp:228-237 | behind a date, a word without meaning is refused, and so is AM or PM without a clock |
| DateLegacy.WordBeforeNumber | ecmascript/date_parse.cpp:234-240 | a word without meaning right before a number is refused |
| DateLegacy.NamesAlone | ecmascript/date_parse.cpp:398-400 | without a number there is no date |
| DateLegacy.GluedRefused | ecmascript/date_parse.cpp:214-218 | behind the minutes only the end, a sign, Z or a blank is taken |
| DateLegacy.OpenClockRefused | ecmascript/date_parse.cpp:189-194 | a colon without a number behind it is refused |
| DateLegacy.ShiftRefused | ecmascript/date_parse.cpp:265-276 | an offset of more than four digits is refused |
| DateLegacy.LateMinutes | ecmascript/date_parse.cpp:214-222 | a last clock number above 59 is taken as a number of the date |

## Left out

- Node memory: the nodes of a block are one field that is reassigned, and links are slot numbers; handles are (block, slot) pairs instead of addresses.
- Weak references and callbacks of `WeakNode`, the back traces of `DebugNode`, the storage destructor, and the collector's in-place updates of node objects.
- Garbage collection, barriers and handles that survive moving: objects do not move in the models, and an allocation never fails. Of a collection the handle model has its effect on the young space and its last two steps; that new objects lie where no live handle refers to, and that a full collection leaves no live handle to a young object, are conditions on those steps.
- A second dispose of a handle whose slot was handed out again disposes the new handle; runs leave such calls out, as they leave out handles of deleted blocks.
- Memory ordering: each access to shared state of the cleaner is one sequentially consistent step; `iter_.reset()` drops a reference that only the daemon holds.
- The chained hash map: a sweep of one partition is one step that unlinks any set of its entries, and any subset of the queued heads may still be at the head of their bucket.
- `FinishConcurrentSweepInSTW` and the two suspending variants run the same steps and are one model.
- Half-flattened trees seen by another thread: strings are flattened by one thread at a time.
- Conversion between UTF-8, UTF-16 and modified UTF-8, case mapping, trimming, and hash computation.
- StringSearch.StringsAreEqual: takes it as given that interned contents are unique and that cached hashes depend only on contents, which the intern table and the hash functions see to.
- StringTableCleaner.PostKeeps: a cycle is posted with fewer than 2^32 - 2049 tasks, one for each thread of the pool; with more, the 32-bit partition counter could wrap.
- A line string is filled in a local buffer and then frozen, instead of being allocated first.
- Sharing of copy-on-write elements: migrations take the elements object to be unshared.
- The mode without mutant arrays, in which elements are always plain tagged words; `FastGet` and `FastSet`, which read and write one word of an elements array by a kind the caller passes; and `CopyJSArrayToTaggedArray`, which reads with `Get` and stores plain tagged words. They change no kind and keep no invariant beyond the conversion of one word.
- JSArrays.JSArray.MigrateArrayWithKind: only changes to a kind above the old one, which is all that stores cause; the migration from raw doubles down to raw ints is not modelled.
- Growing the elements, dictionary elements, and objects that are not arrays with an initial hidden class.
- Legacy texts in which a clock comes before the date, or whose parts are separated by marks, and month names, AM and PM in other cases: the equality with the grammar covers them, but their fields are not written out.
- The value classes of the date parser are refined field by field; the arithmetic from fields to a time value (`MakeDay`, `MakeTime`, `TimeClip`) and local time offsets are not part of this model.
- Fractions with more than 12 counted digits: their result is undefined in C++, and the model says so, and exactly when, instead of giving one.
- Bytes above 0x7F in date texts: all such characters are unknown tokens, as any character outside the listed ones.
