# Models of a systems-lab repository

The repository holds solutions to the labs of a systems course: a `malloc` package, a
caching web proxy, a cache simulator and blocked matrix transposes, and a small job-control
shell. This project models the stateful cores of those labs in Dafny and proves what they
promise, for all inputs, all runs and all interleavings. `dafny verify dfyconfig.toml`
checks everything.

**The heap** (`malloc_lab/mm.c`). `HeapWords` is the memory: 4-byte words, headers and
footers that pack a size with an allocated bit, 8-byte link pointers in two words, single
bytes. `HeapTiling` is the address-ordered view of the heap (a finite map from block pointers
to sizes and allocated bits that tiles the body), `FreeLists` the size-class view (twelve
doubly linked lists threaded through free blocks), and `HeapInvariant` says that one memory
encodes both. `Allocator.Heap` is the program: the same address arithmetic and the same
order of stores, with the two views as ghost fields. `AllocatorRuns` shows that a client of
any script of requests, releases, resizes and byte stores sees a plain table of separate
stores. `HeapChecks` compares `mm_checkheap` with the invariant on arbitrary memory, in both
directions, and `HeapCheckGaps` has the memories it wrongly accepts.

**The concurrent parts of the proxy** (`proxy_lab/sbuf.c`, the lock of `proxy_lab/cache.c`).
`BoundedBuffer` and `ReadersWriter` are transition systems with one program counter per
thread, any number of threads and any interleaving. `++rear`, `++front`, `read_cnt++` and
`read_cnt--` are a read and a store, so that mutual exclusion has something to protect. Both
have an inductive invariant, safety over every run, and progress. `Counting` holds the
lemmas about counting threads in a phase.

**Two LRU machines and one abstract list** (`cache_lab/csim.c`, `proxy_lab/cache.c`).
`RecencyList` is the abstract LRU list with the stack property, `CacheModel` the cache of such
lists with its counters, run on a trace. `StackInclusion` gives the counters by counting in
the trace alone and compares caches of different sizes. `CacheSets` and `CacheSim` refine
`csim` to it through the zero-filled, only partly meaningful index array. `WebCache` refines the age-ordered
linked list of the proxy's store to the same move-to-front list, and says what it does
when tags repeat.

**Sequential parts of the proxy.** `RobustIo` is the buffered reader of `proxy_lab/csapp.c`
over a descriptor that cuts its stream anywhere, is interrupted, or fails. `ProxyRelay`,
`ProxyUri` and `ProxyService` are the fill loop, the URI parser with the cache key, and
whole requests of `proxy_lab/proxy.c`; `RelayExactness` says when the client gets the
origin's bytes unchanged.

**The shell** (`shell_lab/tsh.c`). `JobList` is the job table in place; `JobControl` is the
protocol between `do_fg_job`/`do_bg_job`, `sigchld_handler` and the children, as a
transition system.

**Transposes** (`cache_lab/trans.c`). `Transpose` works in place on two-dimensional arrays.

## Where the code does not do what it seems to promise

- `rio_readlineb` returns one more than the bytes it stored when a line has no newline
  (`ReadLineb`, `LineResult`). The proxy forwards that many bytes, so the client is sent a
  NUL the origin never sent (`OneByte`). If the origin's stream ends, the relayed bytes are
  the origin's if and only if every line ends with a newline and within 8191 bytes. If the
  stream breaks, there is one more way: behind the last newline come 8191 bytes without one
  and then only zeros, 8192 times m bytes in all with 1 <= m < 8191, because the zeros lost
  with the last piece then make up for the NULs added to the others (`RelayIsExact`).
- The test for a read error inside the loop of `do_proxy` cannot be reached, since the loop
  runs only while the count is positive. A reply cut short by a read error is therefore
  cached like a complete one (`CutReplyIsComplete`): a reply is cached exactly when the
  client took all the pieces that came before the end or the error (`Serve`).
- The comment above `get_hit` says that a failed get still ages the whole cache. `get_hit`
  does so (`GetHit`), but `read_cache` calls it only after a hit, so that a miss in the store
  changes neither the order nor an age (`ReadCache`).
- `write_cache` does not look for its tag, so two requests that miss together store two
  replies under one tag. A hit returns the oldest of the replies under a tag, so the newest
  exactly if the two have the same data, and leaves the newest as the next of them to be
  evicted (`OlderDuplicateIsRead`). Tags stay distinct exactly when no kept item has the new
  tag (`WrittenDistinct`), and a hit keeps ages distinct exactly when one item has the tag
  (`GetHit`).
- Job ids can repeat. They stay distinct exactly when `nextjid` is not in use
  (`JidsStayDistinct`), and after the wrap at `MAXJOBS` it may be (`JobIdRepeats`).
- Job ids have no bound, and `MAXJID` is never looked at: when each job ends only after the
  next has been added, the n-th job has id n, for every n (`AddOverlapping`). They start
  again at 1 when no job is left (`RunIds`).
- `mm_checkheap` leaves three things unlooked at: memory behind the first word of size
  zero (`StopsEarly`), the `pred` link of the first node of a list (`FirstPredUnread`), and
  whether a listed node is a block of the heap at all (`NodeNotABlock`). Those three and its
  own tests are together exactly the invariant (`PassedIsInvariant`).

## Model

| member | source | states |
|---|---|---|
| `HeapWords.PackFields` | malloc_lab/mm.c:192-204 | size and allocated bit are read back from the packed word |
| `HeapWords.SetPtr` | malloc_lab/mm.c:235-248 | storing a link changes its two words only and is read back exactly |
| `HeapTiling.LeftNeighbour` | malloc_lab/mm.c:221-232 | every block but the first is reached from a left neighbour, so going back by the footer is sound |
| `HeapTiling.WalkCovers` | malloc_lab/mm.c:770-778 | the header walk meets every block at or after its start and nothing else |
| `HeapTiling.WalkSteps` | malloc_lab/mm.c:221-226 | each block of the walk ends where the next begins, the last at the epilogue |
| `HeapTiling.SizesFillHeap` | malloc_lab/mm.c:770-778 | the block sizes along the walk add up to the whole body, brk - base - 16 from the first block |
| `HeapTiling.EveryWordInOneBlock` | malloc_lab/mm.c:207-232 | no gap, no overlap: each word of the body belongs to exactly one block |
| `HeapTiling.TilingDetermined` | malloc_lab/mm.c:854-885 | two fully coalesced tilings with the same live blocks and the same brk are equal |
| `HeapTiling.NothingLive` | malloc_lab/mm.c:854-885 | with nothing live a coalesced heap is one free block |
| `HeapTiling.MergeTiled` | malloc_lab/mm.c:862-865 | a block swallowing its right neighbour keeps the tiling |
| `HeapTiling.SplitTiled` | malloc_lab/mm.c:952-961 | a split with both parts at least 24 bytes keeps the tiling |
| `HeapTiling.ExtendTiled` | malloc_lab/mm.c:816-833 | a new block at the old epilogue keeps the tiling |
| `FreeLists.ClassWidth` | malloc_lab/mm.c:307-333 | classes are monotone in size, and two sizes of one class below the last differ by less than a factor of two |
| `FreeLists.ClassDoubles` | malloc_lab/mm.c:307-333 | up to 24 bytes is class 0, and twice the size is the next class, class 11 being the last |
| `FreeLists.PushListed` | malloc_lab/mm.c:978-994 | pushing a free, unlisted block keeps the lists exact |
| `FreeLists.RemoveListed` | malloc_lab/mm.c:1004-1035 | removing one node keeps the lists exact, apart from that node |
| `FreeLists.ListsExact` | malloc_lab/mm.c:978-1035 | a block is free iff it is on a list, then on exactly one, exactly once, the one of its size class |
| `FreeLists.ChainPush` | malloc_lab/mm.c:981-993 | the three stores of a push leave pred and succ inverse and NULL-ended |
| `FreeLists.ChainRemove` | malloc_lab/mm.c:1010-1034 | the stores of a removal leave pred and succ inverse and NULL-ended |
| `HeapInvariant.PushOk` | malloc_lab/mm.c:978-994 | a push re-establishes the whole invariant: tags, tiling, lists and links |
| `HeapInvariant.RemoveOk` | malloc_lab/mm.c:1004-1035 | a removal, done while the header has its old size, keeps the whole invariant |
| `HeapInvariant.SplitOk` | malloc_lab/mm.c:952-961 | the four tag stores of a split keep the invariant, with the remainder pending |
| `HeapInvariant.ExtendOk` | malloc_lab/mm.c:816-833 | new words, new tags and the new epilogue keep the invariant |
| `HeapInvariant.MergePrevSpec` | malloc_lab/mm.c:866-871 | case 3 of coalesce leaves a coalesced tiling in which only the two joined blocks are gone |
| `HeapInvariant.MergeBothSpec` | malloc_lab/mm.c:872-881 | case 4 of coalesce leaves a coalesced tiling in which only the three joined blocks are gone |
| `Allocator.AdjustedSize` | malloc_lab/mm.c:480-485 | the adjusted size is a multiple of 8, at least 24, has 8 bytes for the tags, and is at most max(24, size + 15) |
| `Allocator.NearBestFit` | malloc_lab/mm.c:901-935 | a fit of the lowest fitting class is of the class of the smallest fit, and below the last class under twice its size |
| `Allocator.Heap.ListPushFront` | malloc_lab/mm.c:978-994 | the block joins its class's list in front, nothing else changes, no live word is touched |
| `Allocator.Heap.RemoveFromList` | malloc_lab/mm.c:1004-1035 | all four link cases take exactly that node out of its list |
| `Allocator.Heap.Coalesce` | malloc_lab/mm.c:854-885 | all four cases merge with the free neighbours, give a fully coalesced heap, and touch no live word |
| `Allocator.Heap.Place` | malloc_lab/mm.c:947-966 | the block becomes live with the placed size, the remainder, if at least 24, becomes a listed free block |
| `Allocator.Heap.ExtendHeap` | malloc_lab/mm.c:816-837 | fails without any change, or grows the heap by the rounded size with one coalesced free block that reaches to its end |
| `Allocator.Heap.MmInit` | malloc_lab/mm.c:414-442 | on an empty heap, the first time or again: gives the invariant with nothing live and the first chunk, if it was granted, as the one free block; the break is 16 bytes up, or 144 with the chunk; -1 exactly when a request is refused |
| `Allocator.Heap.OneFreeBlock` | malloc_lab/mm.c:854-885 | with nothing live the heap is one free block from prologue to epilogue |
| `Allocator.Heap.FindFitFromList` | malloc_lab/mm.c:925-935 | the first node of the list that is big enough, NULL when none is |
| `Allocator.Heap.FindFit` | malloc_lab/mm.c:901-912 | NULL exactly when no free block fits; otherwise a fit of the lowest class that has one |
| `Allocator.Heap.Malloc` | malloc_lab/mm.c:463-503 | from the first call on, NULL exactly for size 0 or no fit and no growth; otherwise an aligned, new, disjoint block of the adjusted size, or a whole free block less than 24 bytes bigger; the heap grows only when nothing fits, by the adjusted size or 128 bytes, whichever is more; live blocks keep every word |
| `Allocator.Heap.Free` | malloc_lab/mm.c:517-546 | exactly the given block stops being live; NULL and addresses outside the heap change nothing; before initialisation it only initialises; live blocks keep every word; the heap stays coalesced |
| `Allocator.Heap.Realloc` | malloc_lab/mm.c:562-593 | NULL for a non-zero size exactly when malloc would refuse, also without an old block; the first min(size, old payload) bytes arrive and survive the following free; other live words are untouched; a failure changes nothing |
| `Allocator.Heap.Memcpy` | malloc_lab/mm.c:584-587 | copies n bytes between disjoint ranges and writes nothing else |
| `Allocator.Heap.CheckBlock` | malloc_lab/mm.c:630-666 | on any memory: no complaint and no read of a missing word exactly when the block passes all tests |
| `Allocator.Heap.CheckBlocks` | malloc_lab/mm.c:770-778 | on any memory with a prologue header: a walk without complaint has read a coalesced tiling and counted its free blocks; every such tiling is walked to its end without complaint |
| `Allocator.Heap.CheckOneList` | malloc_lab/mm.c:687-728 | on any memory where the walk does not go in circles: a read of a missing word exactly if the walk comes to one; otherwise the length, and a complaint exactly if some node does not pass |
| `Allocator.Heap.CheckHeap` | malloc_lab/mm.c:748-798 | on any memory where no list walk goes in circles: 0 without a complaint or a missing word exactly when prologue, walk, epilogue, lists and the two counts are as they should be; a bad prologue header always gives 1, and otherwise 1 comes only from an end word that is not marked allocated |
| `Allocator.Heap.ValidPasses` | malloc_lab/mm.c:748-798 | on every heap that keeps the invariant all that mm_checkheap looks at is as it should be |
| `Allocator.Heap.CheckValidHeap` | malloc_lab/mm.c:748-798 | on every heap that keeps the invariant mm_checkheap ends and returns 0 without a complaint |
| `Allocator.Heap.PassedIsValid` | malloc_lab/mm.c:748-798 | a heap without complaints keeps the invariant iff the three unlooked-at things hold |
| `HeapChecks.WalkOn` | malloc_lab/mm.c:630-666 | one more passing block extends the tiling that the walk has read |
| `HeapChecks.GoodWalkStep` | malloc_lab/mm.c:770-778 | on a coalesced tiling with agreeing tags every block, and the prologue, passes |
| `HeapChecks.SuccWalkNoRepeats` | malloc_lab/mm.c:692-728 | a list walk that ends never meets a node twice |
| `HeapChecks.PathToNull` | malloc_lab/mm.c:692-728 | a list walk ends at NULL exactly if it comes to no missing word |
| `HeapChecks.WalkIsPath` | malloc_lab/mm.c:692-728 | a list walk that ends at NULL meets no missing word |
| `HeapChecks.PassedListIsChain` | malloc_lab/mm.c:687-728 | a list that passes is a doubly linked list iff its first node has no pred |
| `HeapChecks.PassedNodes` | malloc_lab/mm.c:687-728 | every node of a list that passes lies inside the heap, is free by its header, has the size class of the list, and is the pred of its succ |
| `HeapChecks.AllListed` | malloc_lab/mm.c:787-795 | equal counts of free blocks and listed nodes mean that every free block is listed |
| `HeapChecks.ListedCount` | malloc_lab/mm.c:787-795 | on exact lists the two counts are equal |
| `HeapChecks.PassedIsInvariant` | malloc_lab/mm.c:748-798 | passing every test, with the three things left out, is equivalent to the invariant |
| `HeapCheckGaps.StopsEarly` | malloc_lab/mm.c:770-785 | a memory that passes every test with a word of size zero before the break |
| `HeapCheckGaps.FirstPredUnread` | malloc_lab/mm.c:699-705 | a memory that passes every test with a pred link of a first node that is not NULL |
| `HeapCheckGaps.NodeNotABlock` | malloc_lab/mm.c:787-795 | a memory that passes every test with a listed node inside the payload of a live block |
| `HeapChecks.TagsDetermineTiling` | malloc_lab/mm.c:207-232 | two tilings that agree with the same tags and end at a word of size zero are the same |
| `AllocatorRuns.Step` | malloc_lab/mm.c:463-593 | one client operation, the first one included, is one step of the simple table memory; memory is refused only when the system refuses or the heap is at its limit |
| `AllocatorRuns.Run` | malloc_lab/mm.c:463-593 | every script of operations, from the uninitialised heap on, yields exactly the simple memory's table, byte for byte; no request within the limit is refused while the system grants |
| `AllocatorRuns.SizeIsLast` | malloc_lab/mm.c:463-593 | the simple memory, without running it: a slot has a size exactly if some granted request or resize gave it that size and nothing has released or resized it since |
| `AllocatorRuns.ByteIsLast` | malloc_lab/mm.c:463-593 | a byte of a slot has a value exactly if some store put it there and since then no store, release or shorter resize has touched it |
| `AllocatorRuns.FreeAll` | malloc_lab/mm.c:517-546 | freeing all live blocks in any order leaves one free block spanning the heap |
| `BoundedBuffer.InitInv` | proxy_lab/sbuf.c:7-15 | the state after sbuf_init satisfies the invariant |
| `BoundedBuffer.MutualExclusion` | proxy_lab/sbuf.c:30-35 | no two threads are between P(&mutex) and V(&mutex) |
| `BoundedBuffer.StoreMissesLive` | proxy_lab/sbuf.c:33 | the slot about to be written holds no value still to be removed |
| `BoundedBuffer.RoomAndItems` | proxy_lab/sbuf.c:28-49 | 0 <= rear - front <= n |
| `BoundedBuffer.StepInv` | proxy_lab/sbuf.c:28-49 | every enabled step of every thread keeps the invariant |
| `BoundedBuffer.AccountedFor` | proxy_lab/sbuf.c:28-49 | in every run the items handed to sbuf_insert are those stored and those on their way in, the values loaded are those returned by sbuf_remove and those on their way out, and every sbuf_remove begun is under way or has returned |
| `BoundedBuffer.LastLoadedInRuns` | proxy_lab/sbuf.c:43-48 | in every run a remove that is still inside carries the value loaded last |
| `BoundedBuffer.SafeInEveryRun` | proxy_lab/sbuf.c:7-49 | in every run: exclusion, bounded occupancy, permits conserved, live slots intact; the values loaded are a FIFO prefix of those stored; the values stored are those asked for and the values returned those loaded, but for what threads still carry |
| `BoundedBuffer.InFlightProgress` | proxy_lab/sbuf.c:28-49 | while an operation is past its first P some such operation can step |
| `BoundedBuffer.StuckOnlyWhenFullOrEmpty` | proxy_lab/sbuf.c:28-49 | if no operation can step, all wait at their first P: all insert into a full buffer or all remove from an empty one |
| `BoundedBuffer.InFlightStepWorks` | proxy_lab/sbuf.c:28-49 | each step of an operation in flight leaves exactly one step less to do |
| `BoundedBuffer.Drain` | proxy_lab/sbuf.c:28-49 | from every reachable state the operations in flight can run to completion on their own |
| `ReadersWriter.InitInv` | proxy_lab/cache.c:214-217 | cache_init establishes the lock invariant |
| `ReadersWriter.AloneAtGate` | proxy_lab/cache.c:50-56 | a first reader waiting for w_mutex is the only reader |
| `ReadersWriter.GateStep` | proxy_lab/cache.c:50-73 | w_mutex, the writer and the readers together always account for one permit |
| `ReadersWriter.StepInv` | proxy_lab/cache.c:50-115 | every enabled step of every thread keeps the lock invariant |
| `ReadersWriter.CallsFit` | proxy_lab/cache.c:50-115 | in every run a thread in the exclusive section is executing get_hit or write_cache, and one that counts as a reader find_hit |
| `ReadersWriter.TwoReaders` | proxy_lab/cache.c:50-73 | from the start, with two threads or more, a run that has two calls of find_hit scanning at once |
| `ReadersWriter.SafeInEveryRun` | proxy_lab/cache.c:50-115 | in every run: a get_hit or write_cache past its P overlaps no other one and no scan of a find_hit; both semaphores in {0,1}; read_cnt equals the readers between increment and decrement |
| `ReadersWriter.Progress` | proxy_lab/cache.c:50-115 | while any operation is under way some operation under way can step |
| `ReadersWriter.StepWorks` | proxy_lab/cache.c:50-115 | every step of an operation lessens the work left |
| `ReadersWriter.Drain` | proxy_lab/cache.c:50-115 | from every reachable state all operations can be run to their end |
| `RecencyList.LruIsRecent` | cache_lab/csim.c:313-371 | an LRU list of e entries is the first e entries of the unbounded recency stack |
| `RecencyList.Inclusion` | cache_lab/csim.c:313-371 | a smaller LRU list is a prefix of a larger one, for every trace |
| `RecencyList.AboveIsSince` | cache_lab/csim.c:313-371 | what stands above an entry of the stack is what was used since its last use |
| `RecencyList.HitByDistance` | cache_lab/csim.c:287-302 | an access hits iff its tag was used and fewer than e distinct others since |
| `CacheSets.UpdateLRUWhenHit` | cache_lab/csim.c:313-331 | the index moves to the front, the others keep their order, in place |
| `CacheSets.UpdateLRUWhenMiss` | cache_lab/csim.c:341-350 | everything shifts by one, the last entry drops out, the index comes first |
| `CacheSets.UpdateLRUWhenEvic` | cache_lab/csim.c:360-371 | the last entry becomes the first and is returned |
| `CacheSets.HitKeeps` | cache_lab/csim.c:287-289 | after a hit the first k entries are still a permutation of the valid lines, in recency order |
| `CacheSets.FillKeeps` | cache_lab/csim.c:296-301 | after filling an invalid line the first k + 1 entries are a permutation of the valid lines |
| `CacheSets.EvictKeeps` | cache_lab/csim.c:292-295 | after an eviction the permutation is kept and the least recent tag is replaced |
| `CacheSets.CacheSet.Lookup` | cache_lab/csim.c:273-285 | the hit index iff the tag is held, fullness iff all lines are valid, and the highest invalid line otherwise |
| `CacheSets.CacheSet.LoadOrSave` | cache_lab/csim.c:264-303 | the set's recency list is touched as in abstract LRU; hit and eviction are reported exactly |
| `CacheModel.AddressFields` | cache_lab/csim.c:234-238 | the shifts on 64-bit words cut the address into tag, index below 2^s, and offset |
| `CacheSim.Cache.constructor` | cache_lab/csim.c:156-179 | 2^s separate empty sets of E lines |
| `CacheSim.Cache.SimOneLoadOrSave` | cache_lab/csim.c:264-303 | one set takes an abstract LRU access, the others are unchanged; a hit is counted iff the tag was in the set, a miss iff not, an eviction iff not and the set was full |
| `CacheSim.Cache.SimOneInstruction` | cache_lab/csim.c:230-253 | L and S access once, M twice, I not at all, anything else is invalid and changes nothing |
| `CacheSim.Cache.DoSim` | cache_lab/csim.c:210-217 | reads the valid prefix of any trace; the state is that of the recency-list simulator, and the three counters are counted from the trace alone: the accesses of reuse distance below E, the others, and the others in a set that has seen E distinct tags |
| `StackInclusion.SetsAreLru` | cache_lab/csim.c:230-303 | each set holds the LRU list of the tags of its own accesses |
| `StackInclusion.CountersExact` | cache_lab/csim.c:287-302 | hits, misses and evictions of every trace by reuse distance and distinct tags per set, without simulating |
| `StackInclusion.UsesCount` | cache_lab/csim.c:240-252 | a trace makes one access for each L and S, two for each M and none for each I |
| `StackInclusion.ModifyIsTwo` | cache_lab/csim.c:244-247 | a modify is a load and one more hit |
| `StackInclusion.CountersConserved` | cache_lab/csim.c:287-302 | hits + misses = L + S + 2M, counted in the trace; misses - evictions = lines in use; no set above E lines |
| `StackInclusion.MoreLinesHitMore` | cache_lab/csim.c:264-371 | for E <= E' every set is contained in the larger cache's at every moment, and hits never fall |
| `StackInclusion.HitByReuseDistance` | cache_lab/csim.c:264-303 | the next load or store is counted as a hit iff its tag was used in its set and fewer than E distinct others since; otherwise as a miss, with an eviction iff the set has seen E distinct tags |
| `WebCache.TrimIsLongest` | proxy_lab/cache.c:280-283 | eviction keeps the longest most-recent part that leaves room |
| `WebCache.Cache.Ages` | proxy_lab/cache.c:28-34 | every item is one older |
| `WebCache.Cache.FindHit` | proxy_lab/cache.c:58-75 | true iff some item has the tag |
| `WebCache.Cache.AgeAndFind` | proxy_lab/cache.c:103-113 | every item with the tag gets age 1, every other one is one older, and the data is that of the last item with the tag |
| `WebCache.Cache.GetHit` | proxy_lab/cache.c:94-118 | the items with the tag, the earliest written first, come before the others, which keep their order; without a match every item is one older and the order stays; distinct ages stay distinct exactly if at most one item has the tag |
| `WebCache.Cache.FindOldest` | proxy_lab/cache.c:139-148 | the first item of greatest age and its predecessor in the list |
| `WebCache.Cache.RemoveOldest` | proxy_lab/cache.c:128-169 | drops exactly the least recently used item; size and count follow; distinct ages stay distinct; an empty list is left alone |
| `WebCache.Cache.AddToCacheHead` | proxy_lab/cache.c:186-204 | whatever tags are stored, the new item is the most recent and first in the list with age 1, the others keep their order and are one older; distinct ages stay distinct |
| `WebCache.Cache.ReadCache` | proxy_lab/cache.c:254-259 | hits iff the tag is stored; with distinct tags it returns the item's data, moves it to the front and keeps the ages distinct; a miss changes neither order nor ages |
| `WebCache.Cache.WriteCache` | proxy_lab/cache.c:273-288 | too large objects are not kept, otherwise the store is the new item, of age 1, and the longest recent part that fits, one older, whatever tags are stored; distinct ages stay distinct; the loop ends also with empty items |
| `WebCache.WrittenMeans` | proxy_lab/cache.c:273-288 | an object of more than 102400 bytes leaves the store alone; otherwise it comes first and the k most recent items stay iff with it they take at most 1049000 bytes |
| `WebCache.WrittenDistinct` | proxy_lab/cache.c:273-288 | tags stay distinct exactly when no item that is kept has the new tag, as after a miss |
| `WebCache.TouchedDistinct` | proxy_lab/cache.c:94-118 | with distinct tags get_hit is the move-to-front step of an LRU list |
| `WebCache.MovedInOrder` | proxy_lab/cache.c:103-113 | after get_hit the ages, with ties going to the earlier written, give the new recency order |
| `WebCache.MovedStrict` | proxy_lab/cache.c:103-113 | distinct ages stay distinct in get_hit exactly if at most one item has the tag |
| `WebCache.OlderDuplicateIsRead` | proxy_lab/cache.c:103-113 | of all replies under one tag the oldest is read, which is the newest exactly if the two have the same data; the newest is then the least recent of them |
| `RobustIo.Rio.constructor` | proxy_lab/csapp.c:638-643 | an empty buffer; everything is still to come |
| `RobustIo.Rio.Refill` | proxy_lab/csapp.c:605-620 | EINTR is retried, end of file and failure are told apart, no byte is lost or repeated |
| `RobustIo.Rio.RioRead` | proxy_lab/csapp.c:601-631 | at least one byte whenever any is pending, and delivered + unread is what was obtained |
| `RobustIo.Rio.ReadNb` | proxy_lab/csapp.c:650-669 | min(n, pending) bytes however the stream was cut; -1 iff a failure comes first |
| `RobustIo.Rio.ReadLineb` | proxy_lab/csapp.c:676-696 | the bytes up to the newline or maxlen - 1, and exactly what the return value is |
| `RobustIo.LineResultMeans` | proxy_lab/csapp.c:676-696 | -1 iff a failure comes before a newline and before maxlen - 1 bytes; 0 iff the stream has ended; otherwise the length of the line, one more if it has no newline |
| `RobustIo.LineEnds` | proxy_lab/csapp.c:681-695 | a line stops at its newline, at its full length or at the end of the stream |
| `RobustIo.RunCalls` | proxy_lab/csapp.c:650-696 | every script of rio_readnb and rio_readlineb calls gets, up to the first failure, answers determined by the stream alone, however read cuts it, and what is delivered is what they hold |
| `RobustIo.AnswersInOrder` | proxy_lab/csapp.c:650-696 | the answers to a script together are the beginning of the stream |
| `ProxyRelay.Relay` | proxy_lab/proxy.c:165-184 | the client gets exactly the pieces its writes allow, the relay completes exactly if they allow all pieces, and the copy equals what was sent while it fits |
| `ProxyRelay.ForwardedPrefix` | proxy_lab/proxy.c:165-179 | a client that breaks off has been sent the beginning of what it would have got, and all of it exactly if it took as many writes as there are pieces |
| `ProxyRelay.CutReplyIsComplete` | proxy_lab/proxy.c:165-184 | a reply cut short by a failed read is relayed to its end, as the proxy sees it |
| `RelayExactness.RelayIsExact` | proxy_lab/proxy.c:165-179 | for streams that end and streams that break: relayed bytes equal the origin's iff every line up to the last newline is at most 8191 bytes and nothing follows it, or the stream breaks behind a full piece and zeros of the right number |
| `RelayExactness.ShortLinesAreExact` | proxy_lab/proxy.c:165-179 | terminated lines of at most 8191 bytes are relayed unchanged in either case; if the stream ends, only they are |
| `RelayExactness.OneLineIsExact` | proxy_lab/proxy.c:165-179 | a single terminated line is relayed unchanged iff it has at most 8191 bytes |
| `RelayExactness.Delayed` | proxy_lab/proxy.c:165-179 | what follows an unterminated piece is relayed to itself, NULs late, only if it is zeros of the right number |
| `RelayExactness.OneByte` | proxy_lab/csapp.c:681-695 | one byte without a newline is relayed with a NUL, or not at all if the stream breaks |
| `ProxyUri.ParseUri` | proxy_lab/proxy.c:347-388 | 0 iff the URI denotes a target, and then host, port and path are the target's |
| `ProxyUri.AcceptedIff` | proxy_lab/proxy.c:352-355 | a URI is accepted iff its first seven characters are http:// up to letter case |
| `ProxyUri.WithoutPort` | proxy_lab/proxy.c:357-379 | for every host without colon and slash and every path, given or not: the port is 80, and the path / if it is not given |
| `ProxyUri.WithPort` | proxy_lab/proxy.c:357-385 | for every host and every port text: the port is the text behind the first colon as atoi reads it, the host ends before that colon |
| `ProxyUri.Forms` | proxy_lab/proxy.c:347-388 | every accepted URI has one of these two forms |
| `ProxyUri.AtoiOfNumber` | proxy_lab/proxy.c:381-382 | spaces, one sign, zeros and a printed number are read as that number, whatever follows it |
| `ProxyUri.AtoiOfNone` | proxy_lab/proxy.c:381-382 | a port text without a number is port 0 |
| `ProxyUri.TargetIsParsed` | proxy_lab/proxy.c:347-388 | a parsed host has no colon and no slash, a path starts with a slash |
| `ProxyUri.DigitsReadBack` | proxy_lab/proxy.c:148 | reading back the printed port gives the port |
| `ProxyUri.AtoiReadsBack` | proxy_lab/proxy.c:148 | atoi reads back every printed port |
| `ProxyUri.KeyIsParsedBack` | proxy_lab/proxy.c:347-388 | for every host, port and path, the URI spelt from its key is parsed to the same host, port and path |
| `ProxyUri.SpeltOut` | proxy_lab/proxy.c:347-388 | an accepted URI means the same as the one spelt from its key |
| `ProxyUri.KeyIdentifiesTarget` | proxy_lab/proxy.c:148 | two parsed URIs share a cache key iff host, port and path are the same |
| `ProxyService.Proxy.Serve` | proxy_lab/proxy.c:147-188 | a hit sends what the latest completed miss for the same host, port and path sent; a reply is cached exactly when the client took all its pieces; tags and ages in the store stay distinct |
| `ProxyService.Proxy.DoProxy` | proxy_lab/proxy.c:110-188 | from URI to URI: on a hit the client gets what the latest completed miss for the same host, port and path sent |
| `JobList.AddedOk` | shell_lab/tsh.c:540-556 | a new job takes the first free slot and leaves the others alone |
| `JobList.AddedOkIff` | shell_lab/tsh.c:540-556 | the table stays sound exactly if the process was not listed and has a state |
| `JobList.DeletedOk` | shell_lab/tsh.c:571-578 | deleting clears exactly the slot of the process |
| `JobList.IdsCountUp` | shell_lab/tsh.c:545-547 | job ids count up by one below 16 and then start again at 1 |
| `JobList.JidsStayDistinct` | shell_lab/tsh.c:544-547 | live job ids stay distinct iff nextjid is not in use |
| `JobList.JobIdRepeats` | shell_lab/tsh.c:544-547 | with jobs 1 and 16 left, the second job added next is another job 1 |
| `JobList.JobTable.AddJob` | shell_lab/tsh.c:534-561 | succeeds iff the pid is valid and a slot is free, and then keeps the table sound iff the pid was not listed and the job has a state; otherwise nothing changes |
| `JobList.JobTable.AddFirst` | shell_lab/tsh.c:534-561 | into an empty table the first jobs, up to sixteen, go in order with ids 1 to 16 |
| `JobList.JobTable.AddOverlapping` | shell_lab/tsh.c:534-580 | when each job is deleted only after the next has been added, the n-th gets id n, for every n: the ids never wrap |
| `JobList.JobTable.DeleteJob` | shell_lab/tsh.c:564-580 | succeeds iff the process is listed; nextjid restarts above the ids left |
| `JobList.JobTable.FindMaxJid` | shell_lab/tsh.c:522-531 | the largest job id in the table |
| `JobList.JobTable.FindFgPid` | shell_lab/tsh.c:583-590 | the process of the first foreground slot, 0 when there is none |
| `JobList.JobTable.GetJobPid` | shell_lab/tsh.c:593-604 | the slot of the process, NULL when it has none |
| `JobControl.StepInv` | shell_lab/tsh.c:424-453 | every step of the shell, the handler and the children keeps the invariant |
| `JobControl.MatchedStep` | shell_lab/tsh.c:796-884 | jobs and unreaped children are the same processes but for one just forked and one just reaped |
| `JobControl.SignalledStep` | shell_lab/tsh.c:1039-1051 | no unreported exit or stop is ever without a pending signal or a running handler |
| `JobControl.ForegroundTest` | shell_lab/tsh.c:829-831 | the loop condition sleeps iff the job itself is in the foreground |
| `JobControl.RunObserved` | shell_lab/tsh.c:250-255 | in every run each listed job is stopped if its stop has been handled and otherwise foreground or background as its command was, and the shell waits for foreground commands only |
| `JobControl.RunFull` | shell_lab/tsh.c:822-824 | in every run the shell gives up on a child only with a full table |
| `JobControl.RunIds` | shell_lab/tsh.c:534-580 | in every run listed ids are positive, and with no job listed the next id is 1 |
| `JobControl.SafeInEveryRun` | shell_lab/tsh.c:796-884 | in every run: job list = unreaped children whenever SIGCHLD is unblocked; each job has the state that its command and its handled stops give it; at most one foreground job; at the prompt every foreground command's child has exited or its stop has been handled; the handler always finds its job |
| `JobControl.SleepsOnlyWhileNeeded` | shell_lab/tsh.c:829-831 | no lost wakeup: a sleeping shell has a foreground job whose exit or stop is unhandled, and if it has happened the handler is due |
| `JobControl.HandlerReturns` | shell_lab/tsh.c:424-453 | whatever the order of reaping, the handler takes at most its number of steps, always has a next one until it returns, and then every exit and stop is accounted for |
| `JobControl.InternalStepWorks` | shell_lab/tsh.c:424-453 | every step of the handler and the shell lowers the rank |
| `JobControl.EveryScheduleWakes` | shell_lab/tsh.c:829-835 | once its child has exited or stopped, every schedule of the handler's and the shell's own steps reaches the prompt, within the rank, and never gets stuck before |
| `JobControl.WakesUp` | shell_lab/tsh.c:829-835 | some schedule of the handler's and the shell's own steps ends at the prompt |
| `Transpose.Trans` | cache_lab/trans.c:440-455 | B becomes the transpose of A |
| `Transpose.IsTranspose` | cache_lab/trans.c:479-491 | decides whether B is the transpose of A |
| `Transpose.TransposeBlock` | cache_lab/trans.c:168-184 | one block with its diagonal element delayed, cut short at the borders; the rest of B is unchanged |
| `Transpose.TransposeFullBlock` | cache_lab/trans.c:94-111 | the same for a whole 8x8 block |
| `Transpose.Transpose32` | cache_lab/trans.c:83-114 | B becomes the transpose of A, for all sides that are multiples of 8 |
| `Transpose.Transpose61By67` | cache_lab/trans.c:156-187 | B becomes the transpose of A, for all sides |
| `Transpose.TransposeZ` | cache_lab/trans.c:203-243 | four quadrants transpose an 8x8 block, the rest of B is unchanged |
| `Transpose.DiagonalUpper` | cache_lab/trans.c:292-335 | the hand-ordered quadrants Z1 and Z2, using ib == jb |
| `Transpose.DiagonalLower` | cache_lab/trans.c:337-361 | the row-delayed quadrants Z3 and Z4, using ib == jb |
| `Transpose.TransposeDiagonal` | cache_lab/trans.c:263-433 | the hand-ordered diagonal block equals the plain transpose of that block |
| `Transpose.Transpose64` | cache_lab/trans.c:129-144 | B becomes the transpose of A, for all sides that are multiples of 8 |
| `Transpose.TransposeSubmit` | cache_lab/trans.c:48-66 | whatever path is taken, B[j][i] = A[i][j] everywhere |
| `Transpose.SubmitAgreesWithTrans` | cache_lab/trans.c:48-66 | on every matrix the path taken gives the matrix that the plain scan gives |
| `Transpose.TransposedBack` | cache_lab/trans.c:479-491 | transposing is its own inverse |

## Left out

- Allocator.Heap.Malloc: requests above 0x7FFFFF00 bytes, where header sizes, `int size` and size_t arithmetic would overflow; the heap is at most 0x7FFFFFF8 bytes for the same reason.
- Allocator.Heap.Malloc: on the first call the request for the prologue is assumed to be granted; without it `heap_listp` would be (void *)-1; `MmInit` itself models that failure.
- Allocator.Heap.Free: a pointer inside the heap must be a live block's; addresses outside the heap, NULL and the uninitialised heap are modelled.
- Allocator.Heap.Realloc: the old pointer must be live or NULL, and `memcpy` ranges are disjoint because the blocks are.
- Allocator.Heap.CheckHeap: no list walk may go in circles, as the original does not return otherwise; a read of a word that is not there ends the model of the check instead of being undefined; complaints are counted, not printed.
- HeapChecks.PassedIsInvariant: stated for a memory that is just the heap, since the invariant speaks of no other words; the checks themselves are modelled on any memory.
- Allocator.Heap.MemSbrk: `mem_sbrk` is an answer of the system, contiguous or refused; memlib.c is not part of this model. New words have arbitrary contents.
- malloc_lab/mm.c: `calloc`, the debug-only `checkheap` calls, the contract macros, and the messages printed by `free`.
- malloc_lab/mm.c: `size | alloc` is written as an addition, which is the same on sizes with clear low bits (`PackFields`); the four merging cases of `coalesce` and the link cases of `remove_from_list` are methods of their own.
- BoundedBuffer.SafeInEveryRun: `front` and `rear` are unbounded, so wrap-around of the int counters is not modelled; starvation of a single thread under an unfair scheduler is not excluded.
- ReadersWriter.SafeInEveryRun: the list contents are not part of the lock model; `find_hit` and `get_hit` read `cp->head` before they lock, so nothing is claimed about traversals that overlap a write.
- WebCache.Cache.WriteCache: ages are unbounded, so their wrap-around, which the original waives, is not modelled.
- WebCache.Cache.ReadCache: sequential; between `find_hit` and `get_hit` another thread may evict the item.
- CacheSim.Cache.DoSim: argument parsing, file reading and allocation failure are left out; the counters are unbounded; s <= 31, 0 < s + b < 64 and E >= 1, as the shifts require.
- RobustIo.Rio.ReadLineb: `maxlen` of 0, which no caller passes; what errno is after a failure and the close on ECONNRESET are not modelled, a failure is one outcome. The `EINTR` branch of `rio_readnb` is not modelled since `rio_read` never fails with it.
- proxy_lab/csapp.c: the other wrappers of system calls.
- ProxyRelay.Relay: the count of relayed bytes, an int in the original, is unbounded, so replies of 2^31 bytes and more, for which it overflows, are not modelled; a failing write sends nothing of its piece; the copy buffer is a sequence.
- ProxyUri.ParseUri: buffer lengths and overflow of `atoi`; the outputs that are not written when the prefix is wrong come back empty or zero.
- ProxyService.Proxy.Serve: requests are served one after another; sockets, the request line and the rewritten headers sent to the origin, `clienterror` and thread creation are left out, and the write of a hit is taken to succeed.
- ProxyService.Proxy.DoProxy: the checks of method and version; a URI is a sequence of characters without NUL.
- JobControl.SafeInEveryRun: the builtins `fg` and `bg`, which do not mask signals, and job ids; parsing, exec, redirection and printing. A process id is not reused before its process is reaped.
- JobControl.EveryScheduleWakes: like `HandlerReturns`, for schedules in which no child changes state meanwhile; nothing is said about children that stop and continue forever.
- JobList.JobTable.AddJob: the command line kept in the slot.
- Transpose.TransposeSubmit: numbers of cache misses; `Transpose32` and `Transpose64` are stated for all multiples of 8, not only 32 and 64. Repeated hand-written rows of the diagonal block are one method each.
- lab1 and lab2: straight-line bit expressions and the bomb, without state or loops to reason about.
