# Paged cache, eviction policies and request stream: a verified model

This project models the logic of a multi-client key-value cache server and of its eviction benchmark in Dafny and
proves what they keep, on every run and every failure path. The page count, the page size and the capacity are
parameters; the program's own constants are one instance.

## The parts

**The store** (`cache.cpp`). Memory is a row of pages. Four records describe it: a bitmap, a linked list of free
blocks, a chain of pages for each entry, and a recency list.

- `Sequences.dfy` - facts about duplicate-free sequences.
- `FreeRuns.dfy` - the free list as a value, and its normal form.
- `PageAllocator.dfy` - bitmap (an array) and free list (linked nodes) on the heap, with every relinking.
- `CacheModel.dfy` - the four operations as functions on a value; the invariant and its preservation.
- `PagedCache.dfy` - the operations on the heap, each proved equal to its function.
- `Eviction.dfy`, `OutOfSpace.dfy`, `CacheRuns.dfy` - what eviction removes, exactly when there is no space, and
  theorems about whole runs of operations by many clients.
- `Operations.dfy`, `Recency.dfy` - what each operation does in terms of sizes, owners and recency alone, and
  recency over runs by the operations themselves.
- `RunStatistics.dfy` - contiguous allocation and fragmentation statistics in terms of the bitmap.

**The eviction engine** (`benchmark_cache.cpp`, `benchmark_server.cpp`).

- `BenchModel.dfy` - the cache under LRU, FIFO, SIEVE and CLOCK as a value; exact eviction rules; the invariant.
- `BenchmarkCache.dfy` - the class with its sweep loops, each method proved equal to its function.
- `BenchRuns.dfy` - any run of gets and puts: what a hit returns.
- `LruTheorems.dfy`, `Conservative.dfy`, `HitFree.dfy` - theorems about whole traces.
- `Stretches.dfy`, `SieveConservative.dfy`, `ClockConservative.dfy` - exactly from which states SIEVE and CLOCK are
  conservative, and that short runs reach the other ones.
- `BenchServer.dfy` - any number of workers as an interleaved step system, and the case of one worker.
- `BenchmarkServer.dfy` - the code of one worker run undisturbed.

**The request stream** (`server.cpp`, `protocol.cpp`).

- `Framing.dfy` - cutting a byte stream into messages, independent of how it arrives.
- `Protocol.dfy`, `Parsing.dfy`, `RoundTrips.dfy` - parsing, which messages are commands, encoding, and when it is
  inverse to parsing.
- `TcpServer.dfy` - from reads to operations on the heap store and back, and the end-to-end theorems.
- `Connections.dfy` - several connections, their reads interleaved in any way.

## Results that a reader of the documentation might not expect

- `README.md` line 147 of the repository says that a key's pages are contiguous. The code takes the lowest free
  pages wherever they lie, so there is no external fragmentation: `Operations.AddKeyExact` and
  `Operations.UpdateGrowingExact` give the exact condition for NO_SPACE, in bytes.
- Adding a new key with an empty value always fails, since allocation of zero pages does. An update may store one.
- An add or growing update that fails for want of pages is not without effect: it has evicted every entry of every other client
  (`OutOfSpace.OthersEvicted`).
- The branch after a second failed allocation in a growing update (`cache.cpp:258-265`) is never taken, and the
  restoring allocation always succeeds (`CacheModel.GrowStages`, `PagedCaches.PagedCache.FinishGrow`).
- `allocate_pages` with zero pages splits a block in two touching ones when its start is strictly inside a free run
  (`RunStatistics.EmptyCutExact`). `allocate_pages` on a partly free range and `deallocate_pages` on a range that
  is not wholly in use leave list and bitmap in disagreement; their contracts say exactly when they agree.
- This SIEVE starts every sweep at the front, and this CLOCK leaves the hand on the slot it has just filled.
  Neither is conservative from every state. `SieveConservative.SieveConservativeExact` and
  `ClockConservative.ClockConservativeExact` say exactly from which states they are, and two lemmas beside them
  give short runs that lead to others.
- CLOCK takes the slot of the empty key for an empty slot. `BenchModel.PutAgreesExact` says exactly when a put then
  breaks the agreement of slots and map, and `BenchModel.EmptyKeyIsLost` gives the shortest input.
- `add_to_free_list` puts a block that starts where the first free block starts behind it, not before it, so returning
  an empty range there leaves a zero-length block in the list, though at the start of a later run it does not
  (`RunStatistics.EmptyReturnExact`).
- A read is copied as a C string, so bytes after a NUL in the same read are lost. `Framing.ChunkingIndependent`
  states that framing is independent of the reads exactly when no read has a NUL.
- With capacity 0 a benchmark cache still holds one entry; the bound proved is max(capacity, 1).

## Conventions

Functions on values specify methods on the heap: a method's `ensures` ties the model of the new state to the
function of the model of the old one, and theorems are proved about the functions. Clock readings are parameters.
`hide` keeps proofs small. Run `dafny verify dfyconfig.toml`.

## Model

| member | source | states |
|---|---|---|
| FreeRuns.CanonicalUnique | cache.cpp:117-132 | a set of free pages has exactly one sorted, disjoint, non-empty, non-adjacent block list |
| FreeRuns.BlocksAreMaximalRuns | cache.cpp:117-132 | each block of that list is a maximal run: all its pages are free, the page before and the page after are not |
| FreeRuns.RunInOneBlock | cache.cpp:332-344 | any run of free pages lies inside one block, so no run is hidden by the way the list is cut |
| FreeRuns.SpliceIn | cache.cpp:100-115 | linking in a block of absent pages at its sorted place keeps the list sorted and disjoint and adds exactly those pages |
| FreeRuns.MergeTouching | cache.cpp:121-131 | merging two touching neighbours keeps order and pages |
| FreeRuns.CoalescedSorted | cache.cpp:117-132 | merging in list order turns a sorted list into the normal form of the very same pages |
| FreeRuns.EmptyBlock | cache.cpp:117-132 | an empty block vanishes exactly when it touches a neighbour; else it stays and the list is no normal form |
| FreeRuns.GapsMakeCanonical | cache.cpp:117-132 | a sorted list without touching neighbours is the normal form |
| FreeRuns.TakingLeaves | cache.cpp:33-69 | taking pages off the first block leaves the normal form of the pages that remain |
| FreeRuns.TakenAreLowest | cache.cpp:22-81 | what is taken from the front of the list, over any number of blocks, is exactly the lowest free pages; running out means all were taken |
| FreeRuns.FlatIsAscending | cache.cpp:33-69 | reading the free list block by block enumerates the free pages in increasing order |
| PageAllocators.PageAllocator.constructor | cache.cpp:7-14 | all pages free in one block, bitmap and list in agreement |
| PageAllocators.PageAllocator.AddToFreeList | cache.cpp:100-115 | the new block stands after every block that starts before it; every other block is as it was |
| PageAllocators.PageAllocator.MergeWithNext | cache.cpp:121-128 | a block swallows its successor; the rest of the list is unchanged |
| PageAllocators.PageAllocator.CoalesceFreeBlocks | cache.cpp:117-132 | on any list the relinking loop computes exactly the merge in list order that CoalescedSorted is about |
| PageAllocators.PageAllocator.ReturnPage | cache.cpp:84-94 | one page more is free, in bitmap and list alike, and the list stays sorted |
| PageAllocators.PageAllocator.DeallocatePagesLinked | cache.cpp:83-98 | bitmap and free list agree again, in normal form, with exactly the chain's pages added |
| PageAllocators.PageAllocator.AppendPages | cache.cpp:36-53 | count consecutive pages join the chain and exactly their bits are set |
| PageAllocators.PageAllocator.AllocationRound | cache.cpp:33-69 | one round keeps list and bitmap in agreement and moves pages from the front of the list to the end of the chain |
| PageAllocators.PageAllocator.TakePages | cache.cpp:29-69 | chain and remaining list together are the old list; too few pages means an empty list |
| PageAllocators.PageAllocator.RollBack | cache.cpp:71-78 | a short allocation is undone to the identical block list and the identical free set |
| PageAllocators.PageAllocator.AllocatePagesLinked | cache.cpp:22-81 | succeeds if and only if 1 <= n <= free pages; takes the n lowest; a failure leaves the identical block list |
| PageAllocators.PageAllocator.GetFreePages | cache.cpp:327-329 | counts exactly the free pages |
| PageAllocators.PageAllocator.FindContiguousPages | cache.cpp:332-344 | for n >= 1 succeeds if and only if n consecutive free pages exist, and returns the lowest such start |
| PageAllocators.PageAllocator.AllocatePages | cache.cpp:346-399 | exactly the range leaves the free pages; the list is the old one with the range cut out of the first enclosing block; list and bitmap agree if and only if a non-empty range was wholly free or wholly in use |
| PageAllocators.PageAllocator.SplitBlockAt | cache.cpp:356-393 | a block is replaced by what lies before and after the range, in all four cases of relinking |
| PageAllocators.PageAllocator.DeallocatePages | cache.cpp:401-409 | exactly the range joins the free pages; the list is their normal form again if and only if, for a non-empty range, the whole range was in use, and for an empty one, it stands at the end of a free run or at the start of one that is not the first |
| PageAllocators.PageAllocator.AllocateAndReturn | cache.cpp:22-98 | allocation followed by deallocation leaves the identical list of (start, length) blocks and the identical bitmap |
| PageAllocators.PageAllocator.AllocateAndReturnRange | cache.cpp:346-409 | allocate_pages on a free range followed by deallocate_pages on it leaves the identical list and bitmap |
| RunStatistics.ReturnExact | cache.cpp:401-409 | returning a non-empty range gives the normal form if and only if the whole range was in use |
| RunStatistics.EmptyReturnExact | cache.cpp:401-409 | returning an empty range gives the normal form if and only if it stands just after a free run or at the start of one that is not the first |
| RunStatistics.FirstFit | cache.cpp:332-344 | the first block long enough starts at the lowest run of n free pages, and without one there is no such run |
| RunStatistics.CutKeepsNormalForm | cache.cpp:346-399 | allocating any wholly free range finds its one enclosing block and leaves the normal form |
| RunStatistics.CutExact | cache.cpp:346-399 | allocating a non-empty range keeps list and bitmap in agreement if and only if the range was wholly free or wholly in use |
| RunStatistics.EmptyCutExact | cache.cpp:346-399 | allocating zero pages keeps the normal form if and only if the place is not strictly inside a free run (there it splits a block) |
| RunStatistics.BlocksAreRuns | cache.cpp:412-431 | the number of blocks is the number of maximal free runs |
| RunStatistics.FewBlocks | cache.cpp:412-431 | there are at most as many blocks as used pages, plus one |
| RunStatistics.LongestRun | cache.cpp:412-431 | the longest block is the longest run of free pages |
| PageAllocators.PageAllocator.GetFragmentationStats | cache.cpp:412-431 | block count, longest block and ratio have their meaning on the bitmap; the ratio is 0 if and only if there is at most one run |
| CacheModel.PagesAreLeast | cache.cpp:16-19 | the page count of a value is the least number of pages it fits in, zero for the empty value alone |
| CacheModel.ReleaseKeeps | cache.cpp:161-178 | returning one chain leaves free pages and the other chains a partition and frees exactly its page count |
| CacheModel.AllocateKeeps | cache.cpp:22-81 | handing freshly taken pages to a key brings it into the partition |
| CacheModel.EvictFromKeeps | cache.cpp:149-179 | every state of the eviction walk is a partition, also while the requester's half-freed entry is left out, and each page it counts is free |
| CacheModel.OwnEntriesStay | cache.cpp:161-178 | eviction never removes or alters an entry of the requesting client |
| CacheModel.FindRoomKeeps | cache.cpp:192-204 | allocate, evict, allocate again: keeps the partition, and room is found exactly when the pages are then free |
| CacheModel.AddKeeps | cache.cpp:181-211 | add keeps the invariant on every path, failures included |
| CacheModel.GrowStages | cache.cpp:240-266 | after the old pages are freed eviction leaves the half-freed entry alone; an allocation after sufficient eviction cannot fail; the restore allocation always succeeds |
| CacheModel.RoomSuffices | cache.cpp:249-257 | once eviction has reported room for at least one page, the allocation that follows succeeds |
| CacheModel.GrowKeeps | cache.cpp:240-276 | a growing update re-establishes the invariant on success and on failure |
| CacheModel.RestoreKeeps | cache.cpp:250-255 | restoring gives the key a valid chain of the old length and changes no other entry |
| CacheModel.UpdateKeeps | cache.cpp:213-277 | update keeps the invariant |
| CacheModel.GetKeeps | cache.cpp:279-297 | get keeps the invariant |
| CacheModel.DeleteKeeps | cache.cpp:299-325 | delete keeps the invariant |
| PagedCaches.PagedCache.constructor | cache.cpp:7-14 | an empty cache with every page free |
| PagedCaches.PagedCache.UpdateLru | cache.cpp:139-147 | the key is in front, a list without duplicates stays one, and the others keep their order |
| PagedCaches.PagedCache.EvictAt | cache.cpp:165-175 | one entry leaves map, recency list and pages together |
| PagedCaches.PagedCache.EvictLruIfNeeded | cache.cpp:149-179 | the loop over the recency list computes the eviction that Eviction.EvictionExact characterises; frame: survivors are the same objects |
| PagedCaches.PagedCache.AllocateOrEvict | cache.cpp:192-204 | room is found as FindRoom specifies, on the linked list and the bitmap; room reported for at least one page is an allocation that succeeded |
| PagedCaches.PagedCache.AddKey | cache.cpp:181-211 | the heap operation refines AddKey of the model and keeps all four records in agreement |
| PagedCaches.PagedCache.TouchEntry | cache.cpp:230-239 | value and access time change in place, pages stay, and the key moves up |
| PagedCaches.PagedCache.Reallocate | cache.cpp:242-247 | old pages go back first; the entry survives as the same object while its chain is not valid |
| PagedCaches.PagedCache.RestoreEntry | cache.cpp:250-254 | the fallback allocation gives the entry its chain back |
| PagedCaches.PagedCache.FinishGrow | cache.cpp:248-275 | without room the old allocation is restored; the branch after a second failed allocation is unreachable; else the entry is rewritten in place |
| PagedCaches.PagedCache.GrowEntry | cache.cpp:240-276 | refines Grow of the model through release, eviction, retry and restore |
| PagedCaches.PagedCache.UpdateKey | cache.cpp:213-277 | the heap operation refines UpdateKey of the model |
| PagedCaches.PagedCache.GetKey | cache.cpp:279-297 | refines GetKey of the model; no page and no filing of keys changes |
| PagedCaches.PagedCache.DeleteKey | cache.cpp:299-325 | refines DeleteKey of the model |
| Eviction.ShortestIsLeast | cache.cpp:161-178 | the chosen prefix is the least one whose pages cover the deficit, or all |
| Eviction.EvictFromExact | cache.cpp:149-179 | the walk removes exactly the victims at once: their pages are free, the others keep their places |
| Eviction.EvictionExact | cache.cpp:149-179 | eviction removes exactly the shortest prefix, in least-recently-used order among other clients' keys, that covers the deficit; it reports room if and only if all of them would do |
| Eviction.CandidatesHold | cache.cpp:149-179 | the evictable keys hold exactly the pages of other clients, and page counts add up to their number |
| Eviction.Conservation | cache.cpp:22-325 | free pages plus the page counts of all entries is the whole memory |
| OutOfSpace.FindRoomExact | cache.cpp:149-204 | room for n >= 1 pages is found if and only if free pages plus other clients' pages suffice; a failure has evicted every other client |
| OutOfSpace.AddExact | cache.cpp:181-211 | a new key fails with NO_SPACE if and only if the value is empty or its pages exceed free plus other clients' pages; what each failure leaves behind |
| OutOfSpace.GrowExact | cache.cpp:240-276 | a growing update fails if and only if the new size exceeds free plus own plus other clients' pages; then the key keeps value, page count and access time with a valid chain |
| Operations.AllocatesLowest | cache.cpp:22-81 | allocation succeeds exactly for 1 to |free| pages and takes pages below all that stay free |
| Operations.CandidatesRise | cache.cpp:159-176 | whatever measure the recency list falls by, the keys that may go rise by: least recently used first |
| Operations.FindRoomRemoves | cache.cpp:149-204 | allocate, evict, allocate again removes exactly the shortest covering prefix of other clients' keys and nothing else; nothing when the pages are free |
| Operations.AddKeyExact | cache.cpp:181-211 | a new key is added exactly if its value is not empty and fits, in bytes, in the free pages and those of other clients; on success and on failure exactly those victims are gone and every other entry and the order of the rest stay; the new key is first, with the least number of pages |
| Operations.UpdateInPlaceExact | cache.cpp:229-239 | a value that fits in the pages held is stored in place: same chain, page count and owner, no other entry touched, accessed now, first in the list |
| Operations.UpdateGrowingExact | cache.cpp:240-276 | a value that does not fit is stored exactly if it fits, in bytes, in free, own and other clients' pages; exactly the victims that the deficit asks for are gone; what the key is left with on success and on failure |
| Operations.GetExact | cache.cpp:279-297 | a get succeeds exactly for the owner, returns the value and refreshes the key: accessed now, first, the others in their old order, nothing else changed |
| Operations.DeleteExact | cache.cpp:299-325 | a delete succeeds exactly for the owner; exactly its key goes and exactly its pages are free |
| Operations.RefusedChangesNothing | cache.cpp:181-224 | KEY_EXISTS, KEY_NOT_FOUND and CLIENT_MISMATCH arise exactly from their causes and change nothing at all |
| CacheRuns.RunInv | cache.cpp:181-325 | at every point of every run each page is free or in exactly one chain, chains match page counts >= 1, the recency list holds each key once, and pages are conserved |
| CacheRuns.StepEffect | cache.cpp:181-325 | an operation writes at most the entry it names; its client loses nothing but by its own delete |
| CacheRuns.ForeignKeyUntouched | cache.cpp:181-325 | an operation on a key of another client changes nothing at all |
| CacheRuns.EntriesAreLatestWrites | cache.cpp:181-325 | in every run each entry holds the value of the latest successful write of its key, by its owner |
| CacheRuns.GetReturnsLatestWrite | cache.cpp:279-297 | a get that succeeds returns the latest successful write under the same client id, with no delete or eviction since |
| Recency.ValuesAlwaysFit | cache.cpp:16-19 | at every point of every run each value fits in the pages of its entry |
| Recency.LastUseExact | cache.cpp:139-147 | the last use of a key is its last successful add, update or get, read off the operations and their replies |
| Recency.ListedByLastUse | cache.cpp:139-147 | at every point of every run the recency list orders its keys by their last uses, latest first |
| Recency.EvictsLeastRecentlyUsed | cache.cpp:149-179 | whenever an operation makes a key go that it does not delete, the key is another client's and was last used before every key of other clients that stays |
| CacheRuns.RecencyRecordsAgree | cache.cpp:139-325 | under a clock that never runs backwards the recency list is sorted by last access at every point of every run |
| BenchModel.SieveEvictedExact | benchmark_cache.cpp:159-190 | SIEVE evicts the first unvisited key from the front and unmarks exactly those before it; with all visited it unmarks all and evicts the first |
| BenchModel.ClockEvictedExact | benchmark_cache.cpp:208-230 | CLOCK evicts the first clear bit in circular order from the hand (the hand's own slot if all are set) and clears exactly the bits it passed |
| BenchModel.EvictedTakesOne | benchmark_cache.cpp:118-230 | every policy's eviction takes exactly one key out of a non-empty cache |
| BenchModel.InsertedKeeps | benchmark_cache.cpp:95-112 | after eviction and insertion the policy's record lists exactly the map's keys, once each; for CLOCK no slot is left empty and the hand is in range |
| BenchModel.PutKeeps | benchmark_cache.cpp:51-115 | put keeps the records in agreement and the size within max(capacity, 1) |
| BenchModel.RunKeeps | benchmark_cache.cpp:14-115 | so does every get-else-put run |
| BenchModel.PutAgreesExact | benchmark_cache.cpp:51-115 | a put of any key keeps record and map in agreement, except exactly when CLOCK holds the empty key and a new key comes while there is room |
| BenchModel.EmptyKeyIsLost | benchmark_cache.cpp:239-258 | the input: capacity 2, the empty key, then another; the slot of the first is overwritten while the map keeps it |
| BenchModel.ClockReplaces | benchmark_cache.cpp:208-258 | on a full buffer the new key takes the very slot the sweep emptied, and the hand stays on it |
| BenchRuns.EvictedKeepsValues | benchmark_cache.cpp:118-230 | eviction under any policy alters no value and adds no key |
| BenchRuns.PutValue | benchmark_cache.cpp:51-115 | after a put the key is held with the new value and a get returns it; every other key left keeps its value |
| BenchRuns.HitsReturnLastPut | benchmark_cache.cpp:14-115 | in every run of gets and puts, under every policy, a hit returns the value of the last put of the key; each get is one hit or one miss |
| BenchRuns.PutHeld | benchmark_cache.cpp:55-76 | a put of a held key changes its value and leaves the trace of an access, per policy, and nothing else |
| BenchRuns.GetHeld | benchmark_cache.cpp:20-43 | a hit returns the value, counts one hit and leaves the trace of an access, per policy, and nothing else |
| LruTheorems.LruHoldsMostRecentlyUsed | benchmark_cache.cpp:14-138 | after gets and puts in any order lru_order is exactly the max(c, 1) most recently used distinct keys, where a put or a hit is a use |
| LruTheorems.RecentFirstExact | benchmark_cache.cpp:126-138 | the reference list is the requested keys, each once, in order of last request |
| LruTheorems.LruHoldsMostRecent | benchmark_cache.cpp:14-138 | after any get-else-put trace lru_order is exactly the max(c, 1) most recently requested distinct keys |
| LruTheorems.Inclusion | benchmark_cache.cpp:14-138 | what a smaller LRU cache holds, a larger one holds too |
| LruTheorems.HitsGrowWithCapacity | benchmark_cache.cpp:14-138 | the hit count of LRU never decreases as capacity grows |
| Conservative.LruAndFifoAreConservative | benchmark_cache.cpp:118-156 | from any state, a stretch of requests for at most max(c, 1) distinct keys misses each key at most once under LRU and FIFO |
| Conservative.FifoHoldsLastInserted | benchmark_cache.cpp:141-156 | after any get-else-put trace fifo_queue is exactly the max(c, 1) keys inserted last, in order of insertion |
| SieveConservative.SieveConservativeExact | benchmark_cache.cpp:159-205 | from any state, SIEVE misses each key of every stretch of at most max(c, 1) keys at most once if and only if: with room no key is visited; when full no visited key stands after an unvisited one |
| ClockConservative.ClockConservativeExact | benchmark_cache.cpp:208-258 | the same for CLOCK if and only if there is room, or no set bit comes after a clear one in circular order from the hand |
| ClockConservative.RunsGrow | benchmark_cache.cpp:14-258 | the one assumption of that theorem holds after every run: while there is room the hand is at the first slot and all bits are set |
| SieveConservative.SieveReplaces | benchmark_cache.cpp:159-205 | what a miss on a full SIEVE cache does to order and marks |
| ClockConservative.ClockMissFull | benchmark_cache.cpp:208-258 | what a miss on a full CLOCK cache does to the circle from the hand and its bits |
| SieveConservative.SieveIsNotConservative | benchmark_cache.cpp:159-205 | states that are not calm are reached: two requests lead SIEVE with capacity 2 to one, hence some stretch of at most two keys misses a key twice |
| ClockConservative.ClockIsNotConservative | benchmark_cache.cpp:208-258 | states that are not calm are reached: five requests lead CLOCK with capacity 3 to one, hence some stretch of at most three keys misses a key twice |
| HitFree.MissSlides | benchmark_cache.cpp:118-258 | under every policy a miss slides the window; for CLOCK slot age follows circular order from the hand, whose bit alone is set |
| HitFree.EveryMissExact | benchmark_cache.cpp:14-258 | all requests miss if and only if no key recurs within max(c, 1) requests, under every policy; the cache is then the window of the last keys |
| HitFree.PoliciesAgree | benchmark_cache.cpp:14-258 | if all requests miss under one policy they all miss under each other one, and all hold the same keys before every request |
| HitFree.OldestIsEvicted | benchmark_cache.cpp:118-230 | in such a run every policy evicts exactly the oldest key |
| BenchmarkCaches.BenchmarkCache.constructor | benchmark_cache.cpp:6-12 | an empty cache with the given policy |
| BenchmarkCaches.BenchmarkCache.EvictSieve | benchmark_cache.cpp:159-190 | the sweep loop, with unknown keys unlisted, computes the eviction of SieveEvictedExact |
| BenchmarkCaches.BenchmarkCache.EvictClock | benchmark_cache.cpp:208-230 | the endless loop ends after exactly one probe more than the distance to the victim, within n + 1 probes over n slots |
| BenchmarkCaches.BenchmarkCache.AddClock | benchmark_cache.cpp:239-258 | the first empty slot takes the key, or the buffer grows |
| BenchmarkCaches.BenchmarkCache.Insert | benchmark_cache.cpp:95-112 | a fresh entry is filed, with bits as the constructor sets them, and recorded in the policy's way |
| BenchmarkCaches.BenchmarkCache.Get | benchmark_cache.cpp:14-49 | refines the model's get: counters, value and the trace of the access |
| BenchmarkCaches.BenchmarkCache.Put | benchmark_cache.cpp:51-115 | refines the model's put for every key; record and map still agree except in the one case of PutAgreesExact |
| BenchmarkCaches.BenchmarkCache.GetHitRatio | benchmark_cache.cpp:260-264 | hits over requests, between 0 and 1 |
| BenchServer.WorkerMoves | benchmark_server.cpp:67-89 | a worker's step changes what is in flight by exactly what it takes or lets go |
| BenchServer.PutCounts | benchmark_cache.cpp:51-115 | a put makes at most one entry and evicts at most one, by the guards of its branches |
| BenchServer.StepKeeps | benchmark_server.cpp:67-131 | every step of every worker or caller keeps the invariant, a push that comes after the stop included |
| BenchServer.Safety | benchmark_server.cpp:67-131 | in every interleaving: added = queued + in flight + finished; entries made less evicted = size <= max(c, 1); with GETs only, entries made <= misses; every hit on k returned cached_content_for_k |
| BenchServer.WhenQuiet | benchmark_server.cpp:67-131 | when no worker holds a request, every finished GET has been counted as one hit or one miss |
| BenchServer.BothMiss | benchmark_server.cpp:104-119 | two workers that take the same absent key both miss, and the entry is made once |
| BenchServer.OneWorkerIsSequential | benchmark_server.cpp:67-119 | with one worker, whatever the timing, the cache is that of serving the requests one after the other in order of arrival |
| BenchServer.GetsAreRequests | benchmark_server.cpp:104-119 | serving GETs in order is the get-else-put run of the policy theorems |
| BenchServer.OneWorkerLru | benchmark_server.cpp:67-119 | hence with one worker an LRU cache holds the most recently served keys |
| BenchmarkServers.BenchmarkServer.AddRequest | benchmark_server.cpp:121-131 | a request is queued last, and only while running |
| BenchmarkServers.BenchmarkServer.ProcessRequest | benchmark_server.cpp:104-119 | run undisturbed, the code does what Serve says, on the heap cache |
| BenchmarkServers.BenchmarkServer.ServeQueue | benchmark_server.cpp:67-89 | the worker's loop, undisturbed, empties the queue and serves it in order |
| Framing.SplitIsCut | server.cpp:161-170 | the cut's messages end at their only terminator, the rest has none, and together they are the stream |
| Framing.CutUnique | server.cpp:161-170 | there is only one such cut |
| Framing.SplitMore | server.cpp:156-170 | bytes that come later change no message already complete |
| Framing.FedIsSplit | server.cpp:152-170 | any sequence of reads, from any leftover buffer, gives the cut of all copied bytes at once |
| Framing.ChunkingIndependent | server.cpp:152-170 | framing equals splitting the whole stream at once if and only if no read contains a NUL |
| Protocol.TrimExact | protocol.cpp:38-42 | trimming takes off exactly the blanks and tabs at both ends; it is the identity if and only if there are none |
| Protocol.LastLineWins | protocol.cpp:18-49 | each field is what the last line of its name says |
| Protocol.ParseFields | protocol.cpp:18-49 | the loop over lines yields, for every name, the value of its last line |
| Protocol.ParseMessage | protocol.cpp:51-89 | the command, error cases included, in terms of what the lines say last |
| Parsing.LinesExact | protocol.cpp:18-26 | the lines of a message have no newline and make up the message again |
| Parsing.TrimUnique | protocol.cpp:38-42 | a text without blanks at its ends is the trimmed text exactly if only blanks and tabs surround it |
| Parsing.GivesExact | protocol.cpp:22-45 | a line gives a field exactly if, less one carriage return at its end, it has a colon; name and value are the trimmed texts before and after the first one |
| Parsing.LastSaysExact | protocol.cpp:18-49 | a message says of a field what the last line giving it says |
| Parsing.CommandNames | protocol.cpp:6-16 | exactly the four names are commands, each letter capital or small |
| Parsing.MessageIsCommand | protocol.cpp:51-89 | for every message: it is a command of a kind exactly if its last Method line names the kind, a Key line exists and, for add and update, a Value line; key and value are those of the last such lines |
| RoundTrips.FieldsOfEncoded | tests/test_client.py:42-45 | every field of an encoded message parses to its text, trimmed, with colons in it kept |
| RoundTrips.ParsedIsClean | protocol.cpp:18-89 | no message parses to a key or value with a newline inside or a blank at an end |
| RoundTrips.RoundTrip | protocol.cpp:18-89 | a command survives encoding and parsing if and only if key and value have no newline and no blank at an end |
| RoundTrips.EncodedIsMessage | tests/test_client.py:42-45 | an encoded message contains its terminator only at its end |
| RoundTrips.Pipeline | server.cpp:161-170 | encoded commands, concatenated and cut into reads anywhere, arrive as exactly those commands in order with nothing left over |
| TcpServer.TCPServer.ProcessCommand | server.cpp:202-268 | a command is one step of the store on the heap, answered with its text |
| TcpServer.TCPServer.TakeCommand | server.cpp:162-166 | the message leaves the front of the buffer and is parsed; the store is untouched |
| TcpServer.TCPServer.HandleMessages | server.cpp:161-175 | the loop answers exactly the complete messages of the buffer in order and leaves the unique rest |
| TcpServer.TCPServer.HandleClientData | server.cpp:155-177 | all reads together are answered as the commands of the whole stream, in order |
| TcpServer.ResponseBytes | server.cpp:202-268 | every response to every command in every state, byte for byte, in terms of the store: which text exactly when, sizes in bytes, the value of a successful GET, the line end on each; an invalid command changes nothing |
| TcpServer.CommandUses | server.cpp:202-268 | a command that stored or returned a value has made its key the most recently used, at the time of the command |
| TcpServer.ValuesShow | protocol.cpp:95-97 | replies with different values are different |
| TcpServer.RespondConcat | server.cpp:155-177 | answering a stretch of commands in two parts is answering it at once |
| TcpServer.SessionIsRun | server.cpp:202-268 | answering commands from a fresh store is a run of the store, so all theorems about runs apply |
| TcpServer.PipelinedSession | server.cpp:147-192 | end to end: pipelined commands, cut into reads anywhere, drive the store through exactly their run and get its replies in order |
| TcpServer.SessionGet | server.cpp:202-268 | in a session a successful GET is answered with the bytes of the latest write of its key |
| Connections.OwnStream | server.cpp:147-192 | whatever the interleaving of reads, each connection's commands are those of its own stream, its buffer is its own leftover, and it is sent the replies to its own commands in order |
| Connections.StoreServes | server.cpp:155-177 | from any store, interleaved reads drive it through the logged commands one at a time |
| Connections.ServeKeepsInv | server.cpp:202-268 | a store that satisfies the invariant keeps it under commands of any clients, invalid ones included |
| Connections.LogIsRun | server.cpp:202-268 | from any point of any run on, the logged commands are the operations of one longer run, which gives their replies |
| Connections.InterleavedSessions | server.cpp:147-268 | several connections, reads interleaved in any way: one run whose operations are their commands interleaved, each client getting exactly its own replies |
| Connections.AnsweredWithLatest | server.cpp:202-268 | by commands and reply bytes alone, for any clients on a fresh store: a GET answered with a value is answered with that of the last command answered as storing the key, by the same client, with no answered delete since |
| Connections.PipelineAmongOthers | server.cpp:147-192 | a client that pipelines commands is served exactly those, in order, whatever the others send in between |
| Connections.HandleReads | server.cpp:147-192 | the heap server and its connection buffers do what the system of interleaved reads says |

## Left out

- Sockets, epoll, accept, recv and send, signals and `main`: input and output. A connection is the sequence of its
  reads, and a send always succeeds.
- Page contents: the code tracks page numbers only, and values live in the entries, so the model does the same.
- Page chains: a chain is the sequence of its page numbers rather than linked one-page nodes, so aliasing among
  chain nodes is not captured; the free list is linked nodes on the heap.
- The page fields of `PagedCache` are grouped in a class of their own, `PageAllocator`; the source has one class.
- Lists of strings (`lru_order`, `sieve_order`), the queue and the clock buffer are sequence fields that methods
  reassign, not linked nodes; the hash maps are maps, without iteration order.
- Mutexes and atomics: each critical section is one step (`BenchServer`) or one method call.
- Liveness, wake-ups, sleeps and the draining of the queue: `stop()` does not drain it, so only safety is claimed.
- Widths of `size_t` and `uint64_t` counters: they are unbounded here.
- Floating-point rounding of the hit and fragmentation ratios: they are reals here.
- Access and insertion times of benchmark entries: written and never read.
- `reset_stats`, and `run_trace_benchmark` which calls it before a trace: setting the counters to zero would make
  "entries made <= misses" relative to that moment.
- Trace files, downloads, printing and policy names.
- Isolation per connection: client ids come from reused file descriptors, so isolation is per client id.
- Locale: letters are upper-cased as in the C locale, and text is a sequence of characters, one for each byte.
- BenchModel.ClockEvictedExact: stated for slots in agreement with the map; a slot whose key is unknown to the map,
  which the sweep would skip, arises only after the put that BenchModel.PutAgreesExact singles out.
- ClockConservative.ClockConservativeExact: stated for states in which, while there is room, the hand is at the first
  slot and all bits are set; ClockConservative.RunsGrow proves that of every run.
- BenchServer.Safety: requests with the empty key are excluded under CLOCK, as the trace drivers exclude them.
- PageAllocators.PageAllocator.DeallocatePagesLinked: the chain's pages are distinct and in use, as they are for
  every entry; the source does not check it.
- PageAllocators.PageAllocator.DeallocatePages: the range lies in memory, which the source does not check.
- PageAllocators.PageAllocator.AllocatePages: the range lies in memory, which the source does not check.
