# Models of the C data structures

A Dafny model of the stateful parts of the library: the work queue and its thread pool, the first-fit
memory pool, the B-tree's pages and block cache, the hash table and the bag, copy-on-write blocks, the
heap sort and the merge, the chunk queue, wide unsigned integers, and the string scans that read a
machine word at a time. Each is a model of the code as it stands, branch by branch, with proofs of what
it computes. Where the code misses what its own comments promise, the model keeps the code, a lemma or
method shows an input on which it misses, and the exact condition is proved.

`dafny verify dfyconfig.toml` verifies the project.

## How the model is built

| files | of |
|---|---|
| `Links.dfy` | linked lists in addressed memory, for all modules that have them |
| `WorkQueue.dfy`, `ThreadPool.dfy` | the unit list and its pool; workers, adders and the closing thread as a step machine over every interleaving |
| `Chunks.dfy`, `Mpool.dfy`, `MpoolRuns.dfy` | chunk lists with eager coalescing as the simple allocator; the arena of header words that refines it lazily; any calls of a client |
| `PageBytes.dfy`, `LeafPage.dfy`, `LeafMap.dfy`, `Twig.dfy` | leaf pages byte by byte; the sorted map they are; twig pages as two rows in one block and a third beside it |
| `CacheSpec.dfy`, `CacheFinds.dfy`, `Ring.dfy`, `BlockCache.dfy` | the block cache as a value and its runs; what lookups find, by the order of adds; the ring and hash chains that refine it |
| `Bits.dfy`, `Chains.dfy`, `LinkedChains.dfy`, `Table.dfy`, `HashTable.dfy`, `Bag.dfy` | bucket sizing on bits; chains as lists and as linked nodes; node pool and rehashing, shared by both; the map and the multiset |
| `MmBlock.dfy` | reference-counted buffers behind handles |
| `Orders.dfy`, `Heap.dfy`, `HeapSort.dfy`, `Merge.dfy` | comparison functions, heap order, sorting and merging on byte offsets |
| `ChunkBytes.dfy`, `ChunkQueue.dfy` | chunks and the bytes they hold; the linked queue with its pool |
| `UIntX.dfy`, `WordScan.dfy` | bit-addressed numbers, word scans |
| `Arithmetic.dfy`, `Bytes.dfy`, `Options.dfy` | products, bytes, possibly null pointers |

Answers of the allocator are parameters (`given`, `mm`, `memory`, `grant`), so every theorem holds for
every pattern of failures; memory that C leaves uninitialised is a parameter too (`junk`). Callbacks for
hashing and comparing are function values with the laws that the source needs: `keycmp` is an
equivalence that the hash respects (`Chains.Agree`), comparison functions are total preorders
(`Orders.TotalOrder`). Integer widths appear where they matter: `free` of the pool modulo 2^32, the loop
counters of the sort as unsigned products read as signed, bucket counts as 64-bit words, the byte count
of the bucket array as 32 bits, item offsets as little-endian 32-bit words.

## Model

| member | source | states |
|---|---|---|
| `WorkQueue.UnitQueue.PoolAlloc` | workqueue/workqueue.c:94-107 | a node comes from the pool if it has one, else from the allocator; the list is untouched and every other node is still in exactly one list |
| `WorkQueue.UnitQueue.PoolFree` | workqueue/workqueue.c:113-122 | a node goes to the pool, or to the system when `free` says the pool is full |
| `WorkQueue.UnitQueue.Unlink` | workqueue/workqueue.c:134-137 | the first node leaves the list and is in no list, `last` is cleared with it when it was the only one |
| `WorkQueue.UnitQueue.Fetch` | workqueue/workqueue.c:128-150 | refines dequeue: nothing exactly if the list is empty, else the first item, and its node moves to the pool; `last` stays the end of the list |
| `WorkQueue.UnitQueue.AddItem` | workqueue/workqueue.c:284-309 | refines enqueue at the end; fails exactly if the pool is empty and the allocator refuses |
| `WorkQueue.UnitQueue.Link` | workqueue/workqueue.c:296-303 | a detached node becomes the end of the list, whether the list was empty or not; the others keep their items |
| `WorkQueue.UnitQueue.constructor` | workqueue/workqueue.c:175-218 | an empty list and an empty pool |
| `WorkQueue.UnitQueue.FreeUnits` | workqueue/workqueue.c:223-247 | every node of list and pool is freed, each once, in that order |
| `ThreadPool.InvRun` | workqueue/workqueue.c:156-169 | in every state of every interleaving: order of items, who runs what, node ownership and closing discipline hold, and no worker has left its loop before the close |
| `ThreadPool.StartsInOrder` | workqueue/workqueue.c:128-150 | items started, then items pending, are the items added: FIFO, each at most once, none lost |
| `ThreadPool.HistoryGrows` | workqueue/workqueue.c:128-169 | along every run the items added, started and finished only grow, and a close is never undone |
| `ThreadPool.OneMoreEach` | workqueue/workqueue.c:156-169 | once the state is closed each worker starts at most one further item, so at most n start in all |
| `ThreadPool.JoinedMeansFinished` | workqueue/workqueue.c:223-247 | when all workers have exited exactly the started items have finished |
| `ThreadPool.ReleaseAccounts` | workqueue/workqueue.c:223-247 | after the release the added items are the finished prefix and the discarded suffix, and every node ever allocated was freed exactly once |
| `ThreadPool.ShutdownIsBounded` | workqueue/workqueue.c:156-169 | after the close the workers take at most three steps each, whatever the adders do |
| `ThreadPool.ShutdownReachable` | workqueue/workqueue.c:156-169 | from every state of a closed pool the workers alone can go on until all have exited, in at most three steps each |
| `ThreadPool.ExitNeedsClose` | workqueue/workqueue.c:156-169 | over every run a worker has exited only if the state is closed |
| `ThreadPool.DrainReachable` | workqueue/workqueue.c:156-169 | from every state of an open queue any one worker alone can go on until the list is empty, in at most three steps for each item |
| `ThreadPool.QuietReachable` | workqueue/workqueue.c:156-169 | from every state the workers alone can go on until none of them is running an item |
| `ThreadPool.AllGetDone` | workqueue/workqueue.c:156-169 | no item is stuck: from every state of an open queue with a worker the workers alone can go on until every item added has been started, in order, and has finished; with a bound on the steps |
| `ThreadPool.AddOutcome` | workqueue/workqueue.c:284-309 | in every state a call past the check stores its item behind all others, unless as many items are pending as ever were and malloc refuses; then nothing changes |
| `ThreadPool.AddsAfterClose` | workqueue/workqueue.c:290-291 | what is added after the close was past the check before it, each call once |
| `ThreadPool.CallsAccount` | workqueue/workqueue.c:284-309 | over every run each call that passed the check has had the lock once or is on its way to it, and no item is added more often than it was called for |
| `ThreadPool.WaitSeesAllStarted` | workqueue/workqueue.c:252-260 | when a wait sees the empty list every added item has started, and all have finished if and only if no worker is running one |
| `ThreadPool.WaitMayReturnEarly` | workqueue/workqueue.c:252-260 | a run in which a wait returns while its item is still running |
| `ThreadPool.NodesAreThePeak` | workqueue/workqueue.c:113-122 | until the release, list and pool together hold exactly as many nodes as items were ever pending at once |
| `ThreadPool.PeakIsReached` | workqueue/workqueue.c:94-107 | that peak is the largest number of pending items in the states of the run so far |
| `ThreadPool.PoolGrowsWithoutLimit` | workqueue/workqueue.c:113-122 | for every number there is a run whose pool holds that many spare nodes, although the source means to stop at 128 |
| `Chunks.FirstFitIsLowest` | mpool/mpool.c:66-120 | first fit answers exactly when some chunk can hold the request, with the address of the lowest such chunk |
| `Chunks.EagerAllocLive` | mpool/mpool.c:66-120 | a served request adds exactly one live block, apart from all others, and moves none |
| `Chunks.LiveDisjoint` | mpool/mpool.c:66-120 | live blocks never overlap, headers included |
| `Chunks.NormMerge` | mpool/mpool.c:93-96 | merging two adjacent free chunks does not change the coalesced list |
| `Chunks.NormNoFreePair` | mpool/mpool.c:82-97 | a coalesced list has no two adjacent free chunks, so its free chunks are the maximal runs |
| `Chunks.NormLive` | mpool/mpool.c:82-97 | coalescing changes no live block |
| `Chunks.NormRelease` | mpool/mpool.c:125-143 | whether neighbours were merged before a release does not show after it |
| `Chunks.ReleaseLive` | mpool/mpool.c:125-143 | a release removes exactly the block named |
| `Mpool.TilingUnique` | mpool/mpool.c:51-61 | the header words determine the chunk list of the arena |
| `Mpool.Pool.constructor` | mpool/mpool.c:51-61 | the arena starts as one free chunk that fills it, and `free` is right |
| `Mpool.Pool.Coalesce` | mpool/mpool.c:82-97 | the merge loop merges free successors until the request fits and no further, or up to a used chunk, or to the end of the arena; live blocks and the coalesced list stay |
| `Mpool.Pool.Take` | mpool/mpool.c:99-114 | marking the chunk and splitting off the rest is what first fit over the coalesced list does, when nothing before fits |
| `Mpool.Pool.Alloc` | mpool/mpool.c:66-120 | the lazy scan answers what first fit over all maximal free runs answers, NULL included, and leaves the same coalesced arena; of the chunks themselves all that were passed are coalesced, the run that serves is merged only as far as needed, the rest is as it was; tiling, `free` and every live payload are kept |
| `Mpool.Pool.Free` | mpool/mpool.c:125-143 | refines the release of any live block, with tiling and all other payloads kept, if and only if a chunk follows it or the word behind the arena has its top bit set, and then the exact list of chunks and value of `free`: a free chunk behind the block is merged with it and nothing else is; otherwise no list of chunks tiles the arena without a block at that address |
| `Mpool.Pool.Shrink` | mpool/mpool.c:171-183 | the block keeps address and payload; it gives up its tail as a free chunk exactly if that is more than two words |
| `Mpool.Pool.Grow` | mpool/mpool.c:202-218 | the block takes over the next free chunk in place and splits off what is more than two words; `free` goes wrong exactly when the growth equals that chunk's payload |
| `Mpool.Pool.Resize` | mpool/mpool.c:168-218 | resizing in place moves no block and changes no payload, and the exact list of chunks it leaves; any live block can shrink, the last chunk included; growth is refused exactly when the next chunk is used, too small or missing |
| `Mpool.Pool.Realloc` | mpool/mpool.c:151-219 | no block means allocate, no size means release, else resize in place, for the last chunk too: the exact change of the live blocks in each case, the words that both sizes share, the tiling, and every block not named with its payload |
| `Mpool.Pool.Replay` | mpool/mpool.c:66-143 | any legal run of allocations and releases keeps step with the eagerly coalescing allocator, has its live blocks, and leaves them separate in memory |
| `Mpool.TiledIsSeparate` | mpool/mpool.c:51-143 | while the headers tile the arena, each live block lies inside it behind a header word of its size, apart from every other block and header |
| `Mpool.Pool.MarkFree` | mpool/mpool.c:132-135 | clearing the used bit is the release of that block; no word but the header changes |
| `Mpool.Pool.MergeNext` | mpool/mpool.c:137-142 | a free next chunk is merged, and nothing changes behind a used one: the exact list of chunks and value of `free`; for the last chunk the word behind the arena is read in its place |
| `Mpool.Overrun` | mpool/mpool.c:138-141 | once the word behind the arena has been added to the last header, every list that tiles the arena has a used chunk there |
| `MpoolRuns.Perform` | mpool/mpool.c:51-219 | one call of a client, or its own write to a block, whatever the word behind the arena holds: the exact change of the live blocks, the named block's words, and everything else kept; not made exactly if the block is not live, or it is the last chunk and the source would take that word for a free chunk to merge with |
| `MpoolRuns.Run` | mpool/mpool.c:51-219 | any sequence of allocations, releases, resizes in place and writes by the client, the last chunk included, carried out on a pool: the arena stays tiled, live blocks stay separate in memory, and a block that no call names stays live with every word of its payload; without resizes `free` stays right |
| `MpoolRuns.Survives` | mpool/mpool.c:51-219 | between any two states of such a run a block that no call in between names is live in both, with the same words |
| `MpoolRuns.HandedOutLasts` | mpool/mpool.c:66-120 | what an allocation hands out stays live and as it left it until a call names it, apart from all other blocks |
| `MpoolRuns.ReleasedIsGone` | mpool/mpool.c:125-143 | after a release no block is live at that address |
| `MpoolRuns.CounterGoesWrong` | mpool/mpool.c:207-210 | in an arena of six words a block of one word that grows to four leaves nothing free and `free` at 2^32 - 4 |
| `MpoolRuns.GrowIntoReleased` | mpool/mpool.c:125-218 | once its neighbour is released a block grows in place up to that neighbour's words and those of the free chunk behind it, and no further |
| `MpoolRuns.LastBlockReleased` | mpool/mpool.c:137-142 | a block that is the whole arena, released while the word behind it is zero, is still there in every tiling |
| `Mpool.DecodeEncode` | mpool/mpool.c:60-60 | used bit and size can be read back from a header word |
| `PageBytes.Move` | btree/btree.c:740-754 | memmove within one page, overlapping or not |
| `LeafPage.MoveOffsets` | btree/btree.c:654-669 | every offset of a row of entries changes by `diff`, nothing else does |
| `LeafPage.Leaf.BodyBytes` | btree/btree.c:635-652 | the sum of the body sizes of a range of items |
| `LeafPage.Leaf.EntryAt` | btree/btree.c:202-237 | in a valid page entry i holds the key, the offset of its body from the end in reverse order, and its size |
| `LeafPage.Leaf.BodyAt` | btree/btree.c:233-234 | the bytes at that offset are the value |
| `LeafPage.Leaf.MakeRoom` | btree/btree.c:738-755 | entries and bodies from the index on move aside byte by byte, with their offsets, and leave room for one entry and one body |
| `LeafPage.Leaf.Fill` | btree/btree.c:758-760 | key, item head and body fill that room, and the page is that of the longer item list |
| `LeafPage.Leaf.Insert` | btree/btree.c:716-772 | the bytes of the page are those of the item list with the new item put in; all other keys and values and the block's header unchanged, `nh_free` the true gap |
| `LeafPage.Leaf.Remove` | btree/btree.c:774-814 | the bytes of the page are those of the item list without the item, header unchanged, `nh_free` the true gap |
| `LeafPage.Leaf.Split` | btree/btree.c:816-862 | left then right hold the original items, both pages valid |
| `LeafPage.Leaf.Merge` | btree/btree.c:864-890 | the page holds its items and then those of the other, which is left empty |
| `LeafPage.Leaf.SplitAndUndo` | btree/btree.c:1646-1655 | merging the halves of a split restores items and `nh_free` |
| `LeafMap.IndexSearch` | btree/btree.c:296-326 | finds the index of an equal key, or the index that splits smaller from larger keys |
| `LeafMap.FindAt` | btree/btree.c:906-923 | in a sorted page the item at a matching index is what the map gives |
| `LeafMap.InsertSorted` | btree/btree.c:716-772 | inserting there keeps the keys strictly sorted |
| `LeafMap.InsertUpdates` | btree/btree.c:716-772 | as a map, the page changes at that key alone |
| `LeafMap.RemoveSorted` | btree/btree.c:774-814 | removing keeps the keys strictly sorted |
| `LeafMap.RemoveDeletes` | btree/btree.c:774-814 | as a map, the page loses that key alone |
| `LeafMap.Lookup` | btree/btree.c:906-938 | the value under a key, read through its entry, or nothing |
| `LeafMap.Put` | btree/btree.c:716-772 | search and insert on a page of bytes: a sorted map updated at one key |
| `LeafMap.Delete` | btree/btree.c:774-814 | search and remove on a page of bytes: a sorted map without that key; room for one entry more is needed only if a matching item is not the last |
| `Twigs.Twig.Insert` | btree/btree.c:387-430 | in the bytes of the block key and disk pointer go in at the same place of their rows and no byte outside the rows changes; in-memory pointers shift with them, the slot itself is not set |
| `Twigs.RowsFit` | btree/btree.c:172-181 | with the fan-out of the tree the header, the row of keys and the row of disk pointers lie side by side within the block |
| `Twigs.MoveSlots` | btree/btree.c:400-403 | memmove of a range of slots up by one: the row shifts, no byte outside it changes |
| `Twigs.PutSlot` | btree/btree.c:405-411 | one slot is overwritten, no byte outside its row changes |
| `Twigs.CopySlots` | btree/btree.c:484-492 | a range of slots goes to the start of the same row of another block, no byte outside that row changes |
| `Twigs.Twig.InsertSlot` | btree/btree.c:400-417 | room is made in a row and the slot is written |
| `Twigs.Twig.Split` | btree/btree.c:470-517 | keys and disk pointers in the bytes, and in-memory pointers, are cut at the same place; the left block keeps its bytes; both counts and `nh_free` right |
| `Twigs.Twig.SplitBytes` | btree/btree.c:484-492 | left row then right row are the original row, for keys and for disk pointers |
| `Twigs.Twig.SplitNodes` | btree/btree.c:494-498 | the in-memory pointers of the upper half go over and are cleared on the left |
| `Twigs.Twig.Merge` | btree/btree.c:519-542 | keys and disk pointers, read from the other block's bytes, are appended; its in-memory pointers are not taken over |
| `Twigs.SplitAndUndo` | btree/btree.c:519-542 | a merge undoes a split for keys, disk pointers and `nh_free`; for in-memory pointers if and only if the upper half had none |
| `Twigs.PointerLost` | btree/btree.c:519-542 | a page of two items whose in-memory pointer is gone after a split and the merge that undoes it |
| `Twigs.Twig.AppendEntry` | btree/btree.c:387-430 | an entry behind the last one, with the in-memory row unchanged |
| `CacheSpec.LookupExact` | btree/btree.c:1137-1158 | over every run a lookup hits exactly if a held block of that number was added since its bucket was last cleared, and returns the newest one |
| `CacheSpec.OwnedOnce` | btree/btree.c:983-1158 | over every run each accepted block is held, was returned by one lookup or was freed: exactly one of these, once |
| `CacheSpec.ClosedOwnedOnce` | btree/btree.c:1079-1102 | after any run and a close each accepted block was returned by one lookup or freed, exactly once |
| `CacheSpec.EvictsOldest` | btree/btree.c:1104-1135 | an add frees a block exactly when all nodes are in use, and then the least recently added one |
| `CacheSpec.RingBounded` | btree/btree.c:983-1008 | the ring never has more than `size` nodes, and always one |
| `CacheSpec.HeldButMissed` | btree/btree.c:1018-1019 | a run after which a held block is not found, because its bucket was cleared |
| `CacheFinds.LookupTakes` | btree/btree.c:1137-1158 | over every run a lookup misses exactly if no block of that number can be found; else it returns the newest of them, takes out that one, and every other block can be found afterwards if and only if it could before and is in another bucket, or something newer in that bucket could be found |
| `CacheFinds.AddPuts` | btree/btree.c:1104-1135 | over every run: when an add is refused; the block added can be found; the others as before, or, if the oldest had to go, by the same rule |
| `CacheFinds.UnhashSpares` | btree/btree.c:1010-1028 | that rule for one held block taken out of the hash table, in terms of the order of adds |
| `CacheFinds.HeadsItsBucket` | btree/btree.c:1018-1019 | a block heads its bucket exactly if it can be found and nothing newer there can |
| `CacheFinds.AddThenLookup` | btree/btree.c:1104-1158 | over every run a lookup right after an add returns the block added |
| `BlockCache.Open` | btree/btree.c:1057-1077 | the opened cache; which failures are reported, and that a missing first node is not |
| `BlockCache.BtCache.Unhash` | btree/btree.c:1010-1028 | the node is cut from its chain; if it heads the chain the whole bucket is cleared |
| `BlockCache.BtCache.Predecessor` | btree/btree.c:1021-1026 | the node whose link leads to the one sought, or none if the chain has it not |
| `BlockCache.BtCache.Eject` | btree/btree.c:1030-1055 | the ring and chains refine handing out one entry; the empty node goes to the end of the ring |
| `BlockCache.BtCache.MoveToEnd` | btree/btree.c:1037-1051 | unlinking a node and linking it before the head makes it last in the ring |
| `BlockCache.BtCache.TakeOver` | btree/btree.c:1112-1119 | the last node becomes the head; its block, if any, is freed and unhashed |
| `BlockCache.BtCache.AddNode` | btree/btree.c:983-1008 | a new node leads the ring, which stays circular in both directions |
| `BlockCache.BtCache.StoreNode` | btree/btree.c:1125-1132 | number and block are stored and the node heads the chain of its bucket |
| `BlockCache.BtCache.Add` | btree/btree.c:1104-1135 | ring, chains and blocks refine the cache as a value, failed allocation included |
| `BlockCache.BtCache.Lookup` | btree/btree.c:1137-1158 | refines the lookup of the cache as a value, with transfer of ownership |
| `BlockCache.BtCache.Close` | btree/btree.c:1079-1102 | once around the ring: every node is freed once, and every block still held, the newest first |
| `Sizing.RoundUpIsLeast` | hashtable/hashtable.c:59-74 | up to 2^63 the least power of two that is at least the size and at least 8; zero above |
| `Bits.MaskIsMod` | hashtable/hashtable.c:124-124 | masking with a power of two less one is the remainder |
| `Tables.Seek` | hashtable/hashtable.c:116-130 | walking the links: the link to the key's node, or the link that ends its chain, and what the table has for the key |
| `Tables.Rehash` | hashtable/hashtable.c:155-164 | relinking every node into the new buckets: the same mapping in the same nodes, every key in its bucket, every chain well linked, no other node's link touched |
| `Tables.MoveNode` | hashtable/hashtable.c:158-163 | one node hung on the end of its new chain through the link that ends it, while the rest of the old chain stays linked |
| `LinkedChains.AllLinkedSnoc` | hashtable/hashtable.c:161-162 | writing a node through the link at the end of a chain, and NULL behind it, appends it to that chain and changes no other |
| `LinkedChains.AllLinkedDrop` | hashtable/hashtable.c:262-263 | writing a node's successor through the link that leads to it cuts out that node and changes no other chain |
| `Tables.Table.Resize` | hashtable/hashtable.c:132-169 | no mapping changes and no node is lost; a failed resize leaves buckets and size as they were |
| `Tables.Table.Lookup` | hashtable/hashtable.c:116-130 | in a valid table the place found is a node exactly if the mapping has the key, with its value |
| `Tables.Table.NodeAlloc` | hashtable/hashtable.c:76-96 | the first node of the linked pool, else what the allocator answers; fields set, every allocated node in exactly one place |
| `Tables.Table.NodeFree` | hashtable/hashtable.c:98-114 | key and value go to their free functions; the node to the front of the pool below 32 nodes, else back to the allocator |
| `Tables.GrowSize` | hashtable/hashtable.c:233-238 | growth always doubles the bucket count |
| `Tables.ShrinkSize` | hashtable/hashtable.c:268-270 | a shrink halves it, down to 8 |
| `Tables.ClearSize` | hashtable/hashtable.c:292-294 | clearing more than 1024 buckets divides them by eight |
| `Tables.Table.MakeRoom` | hashtable/hashtable.c:231-242 | after it has answered 0, used <= size + size/8, so the bound used <= size + size/8 + 1 survives the insert |
| `Tables.Table.AddNode` | hashtable/hashtable.c:244-248 | a new node at the end of its chain adds exactly that key, unless there is no node to be had |
| `Tables.Table.Replace` | hashtable/hashtable.c:226-231 | a new value in the same node, which keeps its key |
| `Tables.Table.Unlink` | hashtable/hashtable.c:261-270 | the node is bypassed through the link that leads to it, its key leaves the mapping, key and value are freed, the node goes to pool or allocator, the table shrinks by the stated rule |
| `Tables.Table.Attach` | hashtable/hashtable.c:244-248 | the new node is written through the link that ends its chain |
| `Tables.Table.Detach` | hashtable/hashtable.c:262-263 | the node is out of its chain, in no list, with its fields as they were |
| `Tables.Table.Clear` | hashtable/hashtable.c:275-297 | the empty mapping, no node in a chain, none lost; every entry's key and value are freed, each once |
| `Tables.Table.Free` | hashtable/hashtable.c:206-217 | every node has gone back to the allocator and every entry's key and value have been freed, once |
| `HashTables.HashTable.Insert` | hashtable/hashtable.c:219-251 | the mapping changes at that key exactly if the answer is 0; when it is -1 or -2, by which failure, when the old value is freed, and that nothing else is |
| `HashTables.HashTable.Remove` | hashtable/hashtable.c:253-273 | answers 0 exactly for a present key, which then is gone, with its stored key and value freed |
| `HashTables.HashTable.Clear` | hashtable/hashtable.c:275-297 | the mapping becomes empty and every entry's key and value are freed, each once |
| `HashTables.HashTable.Lookup` | hashtable/hashtable.c:305-310 | over every run: the value that some call stored for an equal key and no later call stored, removed or cleared |
| `HashTables.HashTable.Contains` | hashtable/hashtable.c:299-303 | over every run: true exactly if there is such a call |
| `HashTables.HashTable.Size` | hashtable/hashtable.c:312-315 | the number of distinct keys |
| `HashTables.LastOneWins` | hashtable/hashtable.c:219-310 | the plain map after any calls, characterised by the last call that touched a key |
| `HashTables.Create` | hashtable/hashtable.c:171-204 | the empty mapping in a rounded number of buckets, or no table exactly if the bucket array is refused |
| `Bags.Bag.Insert` | bag/bag.c:213-242 | one more of that key exactly if the answer is 0; never fails for a present key; when it is -1 or -2 for a new one |
| `Bags.Bag.InsertNew` | bag/bag.c:223-241 | a node with count 1 for a new key, and which failure answers -1 and which -2 |
| `Bags.Bag.TakeOne` | bag/bag.c:253-266 | the count goes down by one and the node goes exactly when it reaches zero |
| `Bags.Bag.Remove` | bag/bag.c:244-269 | one less, 0 exactly for a present key; the node goes with the last one and its key is freed exactly then |
| `Bags.Bag.Clear` | bag/bag.c:271-293 | the empty multiset; every stored key is freed, once |
| `Bags.Bag.Contains` | bag/bag.c:295-300 | the multiplicity, which is the number of inserts less that of successful removes since the last clear |
| `Bags.Bag.Size` | bag/bag.c:309-312 | the number of distinct keys |
| `Bags.Conserved` | bag/bag.c:213-300 | over every run multiplicities are inserts less successful removes, per key and in total |
| `Bags.PutsLessTakes` | bag/bag.c:213-300 | the multiplicity of a key counted over the calls of the run since the last clear |
| `Bags.Create` | bag/bag.c:167-198 | the empty bag, or none exactly if the bucket array is refused |
| `MmBlocks.OthersDoNotShow` | mmblock/mmblock.c:128-190 | over every run, calls on other handles do not change what a handle reads |
| `MmBlocks.CopyIsSnapshot` | mmblock/mmblock.c:135-145 | a copy reads as its original did at that moment, whatever is done to the original afterwards |
| `MmBlocks.MadeShows` | mmblock/mmblock.c:108-126 | a new handle reads the bytes it was made with |
| `MmBlocks.WriteShows` | mmblock/mmblock.c:167-190 | after a write each byte of the range is the byte written, and every other byte of every handle is as it was |
| `MmBlocks.FreedShows` | mmblock/mmblock.c:128-133 | a freed handle is gone and no other changes |
| `MmBlocks.ByteLasts` | mmblock/mmblock.c:108-190 | over every run a byte stays until a write covers it or its handle goes, whatever is done through other handles |
| `MmBlocks.LastWriteCounts` | mmblock/mmblock.c:108-190 | over every run a byte is what the last write that covers it put there |
| `MmBlocks.WriteThenRead` | mmblock/mmblock.c:147-190 | what was written is read back byte by byte, and every other handle reads what it did |
| `MmBlocks.Blocks.Alloc` | mmblock/mmblock.c:108-117 | a new array behind a new handle with count 1, or nothing |
| `MmBlocks.Blocks.Zalloc` | mmblock/mmblock.c:119-126 | an array of zeros; the answer does not tell of a failed allocation |
| `MmBlocks.ZallocWithoutMemory` | mmblock/mmblock.c:119-126 | the answer is yes and there is no block behind the handle |
| `MmBlocks.Blocks.CopyBlock` | mmblock/mmblock.c:139-145 | the handle shares the buffer, its count is the number of its handles |
| `MmBlocks.Blocks.Free` | mmblock/mmblock.c:128-133 | the handle goes; its buffer goes exactly when no other handle has it |
| `MmBlocks.Blocks.Read` | mmblock/mmblock.c:147-165 | the slice of the handle's own array, clipped; an error exactly if the offset is behind its end |
| `MmBlocks.Blocks.Detach` | mmblock/mmblock.c:74-99 | the handle gets a buffer of its own, equal to the shared one outside the range to be written |
| `MmBlocks.Blocks.Write` | mmblock/mmblock.c:167-190 | the handle's own array takes the bytes written, index by index, in that range and no other handle's changes; which failures leave everything unchanged |
| `Heap.SinkStep` | sort-utils/sort.c:72-85 | exchanging with the larger child keeps the heap below |
| `HeapSort.Memswap` | sort-utils/sort.c:33-56 | two byte ranges are exchanged, nothing else changes |
| `HeapSort.FirstParent` | sort-utils/sort.c:66-71 | the first counter, an unsigned product read as signed, is the offset of the last parent, negative for 0 and 1 items |
| `HeapSort.LastItem` | sort-utils/sort.c:88-88 | the second counter is the offset of the last item, negative for 0 items |
| `HeapSort.PickChild` | sort-utils/sort.c:73-82 | the larger child by byte offset, whether the item is smaller, and that no offset wraps around |
| `HeapSort.SiftDown` | sort-utils/sort.c:72-85 | the item sinks to its place: a heap from one item further, a permutation, the rest untouched |
| `HeapSort.Heapify` | sort-utils/sort.c:66-86 | the first loop makes a heap, a permutation of the input |
| `HeapSort.Sort` | sort-utils/sort.c:58-104 | for every item count, item size and total preorder: ascending, and a permutation of the input |
| `HeapSort.MmSort` | sort-utils/sort.c:107-139 | the same under memcmp: of any two items the earlier is equal or has the smaller byte where they first differ; and no other ascending order of these items exists |
| `HeapSort.OneAscending` | sort-utils/sort.c:107-139 | two ascending arrangements of the same items of one size are equal under memcmp |
| `HeapSort.CellsAt` | sort-utils/sort.c:63-105 | item i of a buffer is its bytes from i times the item size on |
| `Memory.MemcmpOrder` | sort-utils/sort.c:107-139 | memcmp is a total preorder |
| `Memory.MemcmpIsBytewise` | sort-utils/sort.c:107-139 | memcmp is negative exactly if at the first differing byte the first string has the smaller one |
| `Merge.OrderTakes` | sort-utils/merge.c:33-67 | every item of both inputs comes out, and no other |
| `Merge.OrderIsStable` | sort-utils/merge.c:45-54 | for sorted inputs the output order is by value, ties from b first, and by position within each input |
| `Merge.MergeItems` | sort-utils/merge.c:33-67 | the first min(rs, as + bs) items of that order are written, the rest of the output is untouched |
| `Merge.MergeLoop` | sort-utils/merge.c:45-54 | when the common loop ends, the output is a prefix of the order and one input or the output is used up |
| `Merge.MmMerge` | sort-utils/merge.c:69-99 | the same result under memcmp with the tail copied in bulk; for inputs ascending byte by byte the output is ascending and holds the smallest items of both, as many as fit |
| `Merge.BulkA` | sort-utils/merge.c:89-93 | the rest of a copied in one piece is what item by item would have written |
| `Merge.BulkB` | sort-utils/merge.c:95-98 | the same for b |
| `Merge.ResultIsUnique` | sort-utils/merge.c:69-99 | two merges with this result wrote the same bytes |
| `Merge.ItemsBag` | sort-utils/merge.c:33-67 | the items in the output order are those of both inputs, each as often |
| `Merge.ResultItems` | sort-utils/merge.c:33-99 | the items in the output buffer are the first ones of that order |
| `Merge.MergeIsSorted` | sort-utils/merge.c:33-99 | for sorted inputs the output with what did not fit behind it is one ascending arrangement of all items of both |
| `ChunkQueues.ChunkQueue.Append` | chunkq/chunkq.c:240-277 | the linked queue grows by exactly the bytes counted; fewer than asked for only if the last chunk is full, the pool is empty and the allocator refused; -1 exactly if that was so for a first chunk |
| `ChunkQueues.ChunkQueue.Read` | chunkq/chunkq.c:206-238 | the oldest bytes come out and exactly those leave; used-up chunks go to the pool or the allocator; -1 exactly without chunks, and there is none left once the last byte has been read |
| `ChunkQueues.ChunkQueue.Peek` | chunkq/chunkq.c:279-313 | the slice at the offset, clipped, without change; -1 exactly at or behind the end |
| `ChunkQueues.ChunkQueue.AtOffset` | chunkq/chunkq.c:105-123 | the chunk that holds a byte of the queue and where it ends |
| `ChunkQueues.ChunkQueue.Clear` | chunkq/chunkq.c:199-204 | the empty queue; which chunks go to the pool and which to the allocator |
| `ChunkQueues.ChunkQueue.ChunkAlloc` | chunkq/chunkq.c:64-85 | the first chunk of the pool, else the allocator's, empty and in no list; the count goes down in 32 bits |
| `ChunkQueues.ChunkQueue.ChunkFree` | chunkq/chunkq.c:87-94 | back to the allocator above the limit, else to the front of the pool; every chunk stays in exactly one place |
| `ChunkQueues.ChunkQueue.Hang` | chunkq/chunkq.c:249-262 | the chunk becomes the end of the list and `tail` |
| `ChunkQueues.ChunkQueue.PopHead` | chunkq/chunkq.c:226-231 | the first chunk leaves the list and is freed; `tail` is cleared with the last one |
| `ChunkQueues.ChunkQueue.TakeOff` | chunkq/chunkq.c:222-234 | the first chunk loses the bytes read, and leaves the list exactly when it is used up |
| `ChunkQueues.ChunkQueue.Free` | chunkq/chunkq.c:191-197 | every chunk has gone back to the allocator if and only if the count was above its limit or there was none; otherwise all are kept and lost |
| `ChunkQueues.LeakOnFree` | chunkq/chunkq.c:191-197 | a queue that has taken one byte and is freed keeps its chunk |
| `ChunkQueues.ChunkQueue.constructor` | chunkq/chunkq.c:181-189 | the empty queue |
| `UIntX.FromU64` | uintx/uintx.c:57-66 | the array stands for the value |
| `UIntX.Test` | uintx/uintx.c:41-41 | bit i of the number, that is the number divided by 2^i, modulo 2 |
| `UIntX.Put` | uintx/uintx.c:43-47 | bit i of the number changes and no other; the number changes by 2^i or not at all |
| `UIntX.BitOfNumber` | uintx/uintx.c:41-41 | bit i in the numbering of the source is bit i of the number |
| `UIntX.Add` | uintx/uintx.c:104-132 | ripple-carry yields the sum when it fits, also when both operands are one array |
| `UIntX.Add64` | uintx/uintx.c:135-139 | the sum with a machine word |
| `UIntX.Inc` | uintx/uintx.c:82-90 | plus one modulo 2^width, and the answer is 1 exactly on wrap-around |
| `UIntX.Dec` | uintx/uintx.c:93-101 | minus one modulo 2^width; the answer is 1 exactly for 256^(n-1), so it tells of the wrap-around if and only if the number was neither 0 nor that |
| `UIntX.DecOnZero` | uintx/uintx.c:100-100 | zero wraps to 255 and the answer is 0 |
| `UIntX.IncDec` | uintx/uintx.c:82-101 | counting up and down, or down and up, restores every byte |
| `UIntX.NumberInjective` | uintx/uintx.c:52-54 | arrays of one width that stand for one number are equal |
| `UIntX.Compare` | uintx/uintx.c:194-248 | the sign of the difference, for any two widths |
| `UIntX.Compare64` | uintx/uintx.c:251-255 | the sign of the difference to a machine word |
| `WordScan.ZeroByte64` | mm-utils/strlen.c:102-102 | the bit trick is nonzero exactly if some byte of the word is zero |
| `WordScan.ZeroByte32` | mm-utils/strlen.c:77-77 | the same for 32 bits |
| `WordScan.ZeroByte16` | mm-utils/strlen.c:54-54 | the same for 16 bits, computed in 32 |
| `WordScan.ByteIs64` | mm-utils/memchr.c:108-112 | after the xor it is nonzero exactly if some byte of the word is the one sought |
| `WordScan.ByteIs32` | mm-utils/memchr.c:82-86 | the same for 32 bits |
| `WordScan.ByteIs16` | mm-utils/memchr.c:56-60 | the same for 16 bits |
| `WordScan.Strlen8` | mm-utils/strlen.c:33-40 | the distance to the first zero byte |
| `WordScan.Strlen16` | mm-utils/strlen.c:42-63 | the same, for every alignment |
| `WordScan.Strlen32` | mm-utils/strlen.c:65-88 | the same, for every alignment |
| `WordScan.Strlen64` | mm-utils/strlen.c:90-117 | the same, for every alignment |
| `WordScan.LengthIsUnique` | mm-utils/strlen.c:33-117 | a string has one such distance, so all four forms agree |
| `WordScan.Memchr8` | mm-utils/memchr.c:38-48 | the first place of the byte among n, or nothing |
| `WordScan.Memchr16` | mm-utils/memchr.c:50-74 | the same, for every buffer and length |
| `WordScan.Memchr32` | mm-utils/memchr.c:76-100 | the same, for every buffer and length |
| `WordScan.Memchr64` | mm-utils/memchr.c:102-126 | the same, for every buffer and length |
| `WordScan.Memchr` | mm-utils/memchr.c:128-135 | the same, whichever form the length selects |
| `WordScan.FirstIsUnique` | mm-utils/memchr.c:38-135 | there is one such place, so all forms agree |

## Left out

- Mpool.Pool.Realloc: the relocating path is not carried out, as in `Mpool.Pool.Resize`; a release or a growth of the last chunk in which the source would write over what lies behind the arena is excluded.
- MpoolRuns.Perform: a call that names no live block is not made, nor one in which the source would merge the last chunk with what lies behind the arena; the walk over the headers that finds this out is the model's own.
- Mpool.Pool.Resize: answers "must move" where the source allocates, copies and frees (mpool/mpool.c:191-199); that copy takes its length from a header word that still carries the used bit. A growth of the last chunk for which the word behind the arena passes for a free chunk of the right size is excluded, because the source then writes behind the arena.
- Mpool.Pool.Replay: compares allocation and release with the eager allocator; resizing in place is not part of that comparison, because what it leaves depends on which neighbours are merged already. `MpoolRuns.Run` covers runs with resizes.
- Mpool.Pool.Alloc: sizes are in words, since the source's split is sound for multiples of four only; the arena is below 2^31 bytes.
- Mpool.Pool.Free: the block is live.
- LeafPage.Leaf.Remove: one entry more than there are behind the removed one has to lie within the page, because the source moves it too.
- LeafMap.Delete: as for `LeafPage.Leaf.Remove`, where a matching item is not the last.
- LeafPage.Leaf.Merge: the superblock's counters, which count moved items again, are not modelled.
- Twigs.Twig.Insert: `nh_items` and `nh_free` are fields beside the bytes, as for leaf pages; the caller's key copy function is taken as memcpy; checksums and dirty flags are not modelled.
- Tables.Table.Resize: a bucket array of 2^29 or more pointers, whose byte count does not fit the allocator's 32 bits, is taken as refused; the source would write behind a block that is too small.
- HashTables.HashTable.Insert: the free functions are taken as given; what was passed to them is recorded, whether they are null is not.
- HashTables.HashTable.Lookup: an absent key and a stored null value are told apart, where the source answers NULL for both.
- MmBlocks.Blocks.Alloc: the handle is not in use; the source would forget the buffer it had.
- MmBlocks.Blocks.Zalloc: the handle is not in use, as for `MmBlocks.Blocks.Alloc`.
- MmBlocks.Blocks.CopyBlock: the destination is not in use; the source would forget the buffer it had.
- MmBlocks.Blocks.Write: a write to a shared buffer stays within its size, because the detach takes the unclipped length; sizes are below 2^31.
- ChunkQueues.ChunkQueue.constructor: chunk sizes are above zero; with size 0 an append takes chunks until memory runs out.
- ChunkQueues.ChunkQueue.Append: the byte counts are not limited to the width of size_t.
- HeapSort.Sort: items are exchanged by `__memswap`, where the source lets the caller pass an exchange function; item size 0, on which the loops do not end, is excluded.
- HeapSort.MmSort: item size 0 is excluded, as for `HeapSort.Sort`.
- UIntX.Compare: widths are multiples of eight, here and in all of `UIntX`; the loops over single surplus bits are not modelled.
- UIntX.Compare64: widths are multiples of eight, as for `UIntX.Compare`.
- UIntX.Add: a is at least as wide as b and the sum fits; otherwise the source writes behind the array. The branches for a narrower a are not modelled.
- UIntX.Add64: numbers have at least 64 bits, so that the bits of the value fit.
- UIntX.FromU64: the value fits the width; otherwise the source writes behind the array.
- WordScan.Strlen64: memory consists of whole words, so that an aligned word around the terminator can be read; likewise for the other widths.
- ThreadPool.ShutdownIsBounded: counts steps of workers; that the scheduler lets them run is not modelled. Sleeping and thread creation are reduced to steps.
- `__leaf_replace`, `__leaf_can_merge`, `__twig_remove` and the operations on the whole tree: the source does not store the replaced value, counts two entries only, or marks its own update as wrong.
- cache/cache.c, mmstream/mmstream.c, queue/queue.c, `chunkq_indexof`, `uintx_is_zero` and the reverse scans, whose code does not do what its name says in general.
- set/set.c, bloom-filter, bitarray, string utilities: easier members of the same kinds.
- Sockets, pollers, files, disk callbacks, checksums and printing.
