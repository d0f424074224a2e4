# Search trees, allocator, trie and join: a verified model

This project models five components of the repository and proves that they do what they are for.

| component | source | files |
|---|---|---|
| concurrent binary search tree with hand-over-hand locks | `concurrency/bst_conc.c`, `concurrency/verif_bst_conc.v` | `BstProtocol`, `BstShape`, `BstSafety`, `BstLiveness`, `BstTermination`, `BstRuns`, `BstAnswers`, `BstFunctional`, `BstSequential` |
| B+ tree with path cursors, and the sequential scan | `verif/btrees/relation_mem.c`, `db_operations_light.c` | `BtreeShape`, `BtreePath`, `BtreePut`, `BtreeCursor`, `BtreeScan` |
| malloc and free | `memmgr/malloc.c`, `memmgr/malloc.h` | `SizeClass`, `MallocShape`, `MallocCarve`, `MallocLedger`, `MallocHeap`, `MallocRuns` |
| trie of eight-byte slices | `index_string.c`, `kvstore.c`, `bordernode.c`, `util.c` | `TrieSlice`, `TrieStore`, `TrieKv` |
| index scan and index join over composite indices | `db_operations_light.c`, `tuple_schema.c`, `inthash.c`, `stringlist.c`, `queue2.c` | `Queue`, `HashChain`, `CompositeIndex`, `JoinSpec`, `JoinMerge`, `JoinPositions`, `IndexJoin`, `JoinIterator`, `RelationJoin` |

`Wrappers` and `Sets` hold the option type and the facts about finite sets that all of them use.
`dafny verify dfyconfig.toml` checks all of it.

## How each component is modelled

**Concurrent search tree.** A box owns a lock and is empty or holds a node. `BstProtocol.Step` is the
step relation: one step is one lock acquisition, one release, or the straight-line code between two
lock operations, by any one of any number of threads. A ghost map gives every box the interval of keys
its subtree may hold; the invariant of `BstSafety` is local to each box, lock and program counter, so
that every step is checked once and all interleavings follow. `BstRuns` states the results over whole
executions: linearizability with its real-time order, safe freeing, freedom from deadlock, and a bound
on the length of every execution. `BstAnswers` says what the answers are, in terms of the operations
alone: what the last update of the key before a lookup has left. The repository's Coq proof of `pushdown_left` is admitted and its
specifications say nothing about results, so these are not restatements of it. `BstSequential` has the
code as loops over a heap of boxes and proves them equal to the functions of `verif_bst_conc.v`.
`BstFunctional` proves what these do to the bindings of a search tree; so the heap stays a search tree,
and each operation has its effect on the map.

**B+ tree.** Nodes are records in a heap map, with fanout 15; a cursor is an object with the two arrays
of the path. A ghost place (key range and height) per node makes consistency a local condition: sorted
keys, separators bounding subtrees, equal leaf depth, 7 to 15 entries except in the root, `First` and
`Last` exactly on the outer spines. A too large node, or an entry still to be placed one level up, is a
state of its own, so that a cascade of splits is one lemma applied per level. The position of a cursor
is the number of keys before it, and cursor moves are arithmetic on positions. `materialize` takes a
null record for the end of the scan; `BtreeScan.Materialize` says what it then delivers, and
`BtreeScan.NullEndsScan` has a relation of two records of which it delivers none. The pointer of entry -1
is `ptr0`, which is where the struct layout puts it (line 422 of the source relies on it).

**malloc and free.** Memory maps addresses to words; WORD and BINS are any numbers (BINS at most 65535,
which is when every bin's block holds a chunk), RANGE, the number of values of `size_t`, any number above
BIGBLOCK, ALIGN is 2. `malloc_large` adds WASTE and WORD to the size; `MallocHeap.NoWrapExactly` says for which
sizes that sum wraps around and the block would be too small, and the methods require that it does not. The answer of `mmap0` is a parameter: null,
or an aligned region disjoint from all others. A ghost ledger records chunks, live blocks, free lists,
regions and successful fills, and `HeapOk` ties it to the memory; every operation keeps it, and so does
a client that writes inside its blocks. `MallocRuns.Run` is any sequence of malloc, free and client
writes, with any answers of `mmap0`: at its end the heap is safe and every block the client holds has
the words last written to it, and no malloc has been refused for which new memory was there. The comment at line 115 states claim 1 as an equivalence; the
sizes are unsigned, so only one direction holds in general, and `SizeClass.ClaimOneExactly` says when
the other does.

**Trie.** Layers and border nodes are objects that own the nodes below them. `Find` is the lookup, and
`put` is the map update for every key and every store. `create_pair` needs no assumption about its keys.
`KV_Put` has two peculiarities, which the model keeps: after inserting under a new slice its loop goes
around once more, and at `kvstore.c:210` the second value is stored under `key` where `sndKey` is meant.
`TrieKv` proves that it is the map update exactly when the key is not empty and does not meet a stored
suffix within a slice; a caller can check both before the call. Meeting means that padding with zeroes to
the end of a slice makes the two equal: the stored key is then gone, the new one has its value, and
`numKeys` counts both. The border nodes of `bordernode.c` have slots for the lengths 1 to 8 only, so that
putting the empty key ends the program at the assertion of line 83 or 89, and so does getting it from a
store with a border node for slice zero. `TrieKv.NeverEmpty` shows that no layer further down is handed an
empty remainder. `TrieKv.KvPuts` and `TrieKv.NoneMeetStored` say what follows for any sequence of puts.
`TrieKv.KvLosesAKey` builds stores that lose a key. It takes at least one full slice: two keys that are
put whole into a store and differ by a zero byte within their first slice go to different slots, and both
stay. `KV_Put` also advances the caller's key struct; what is left in it is an answer of the model, and
`TrieKv.EndsAt` says which remainder that is: the one whose border node has what is stored under the key.

**Index and join.** The queues and hash chains are linked objects, and an index is a table of them: a
hash table or a list, whose entries are queues or, for a composite key, indices on the other attributes.
`index_join_next` takes tuples out of the queue that the index itself holds, so a queue serves only the
first outer tuple of its key: `JoinSpec.JoinIsNestedLoop` says when this is the nested-loop equi-join,
and `RelationJoin.SecondLeftOut` builds relations for which it is not. Merged tuples are written into the
slots that line 237 allocates; these suffice exactly when `JoinMerge.SlotsSuffice` holds of the attribute
lists, which the joins require. `JoinPositions` says by positions which tuples a queue holds and which
pairs a join merges, how often and in which order. `JoinIterator.JoinRelations` is the whole pipeline on tuples. `RelationJoin` has it on relations: the tuples are those that the records
of a B+ tree lead to, in primary-key order, up to a null record.

## Model

| member | source | states |
|---|---|---|
| BstRuns.Linearizable | concurrency/bst_conc.c:60-216 | In every interleaving of any number of operations the order of their effects is a sequential execution of them: replaying it gives the map in the heap and every answer returned so far, each operation taking effect exactly once |
| BstAnswers.LinearizableOutright | concurrency/bst_conc.c:60-216 | At each point of each execution there is an order of the operations that have taken effect, each once, which respects real time; a lookup has answered the value of the last insertion of its key before it, or null if that was a deletion or there was none; and the boxes hold what the last updates have left |
| BstAnswers.StuckAnswers | concurrency/bst_conc.c:60-216 | When no thread can step, every operation has returned with that answer |
| BstAnswers.ReplayAt | concurrency/bst_conc.c:60-216 | After any part of an order a key has the value of its last insertion, unless it was deleted since |
| BstRuns.RealTimeOrder | concurrency/bst_conc.c:60-216 | An operation that has returned before another one is called precedes it in that order |
| BstRuns.RunsAreFinite | concurrency/bst_conc.c:60-216 | A finite set of operations has only finite executions: at most threads * (16 * insertions + 15) steps |
| BstRuns.StuckMeansFinished | concurrency/bst_conc.c:60-216 | An execution in which no thread can step has finished every operation, with the answer that the order of effects gives it, and left every lock free |
| BstRuns.RunsAreMemorySafe | concurrency/bst_conc.c:60-183 | At every point of every execution nothing names an unallocated box, the root stays, there are two boxes per stored key and one more, and at most 1 + 2 * insertions boxes |
| BstRuns.RunsFreeSafely | concurrency/bst_conc.c:163-176 | Whenever a deletion frees two boxes it holds both locks, neither is the root, no other thread can name them, and no child link names them afterwards |
| BstRuns.BoxCount | concurrency/bst_conc.c:68-83 | Each step keeps the number of boxes at one more than twice the number of stored keys |
| BstRuns.RunInv | concurrency/bst_conc.c:60-216 | The invariant holds after any number of steps of any execution |
| BstSafety.StepKeepsInv | concurrency/bst_conc.c:60-216 | Every step keeps tree shape, lock ownership and search ranges; its effect on the map and its answer are those of the operation if it is the step of its effect, and none otherwise |
| BstAnswers.StepAnswers | concurrency/bst_conc.c:99-140 | Box by box, the step of the effect: a lookup answers the value of the box that has its key, or null if none has; after an insertion a box has the key and the value; after a deletion none has the key |
| BstAnswers.StepLeaves | concurrency/bst_conc.c:60-216 | No step makes the box of any other key come, go or change its value |
| BstSafety.InitialInv | concurrency/bst_conc.c:23-33 | The fresh tree satisfies the invariant and holds the empty map |
| BstSafety.FillStep | concurrency/bst_conc.c:67-84 | Filling an empty box keeps the invariant and binds the key |
| BstSafety.WriteStep | concurrency/bst_conc.c:99-103 | Overwriting a value keeps the invariant and rebinds the key |
| BstSafety.TurnStep | concurrency/bst_conc.c:142-152 | A rotation keeps the invariant and leaves the map unchanged, whatever the other threads are doing |
| BstSafety.SpliceStep | concurrency/bst_conc.c:164-176 | The final splice keeps the invariant and removes exactly the deleted key |
| BstLiveness.RangesOnlyWiden | concurrency/bst_conc.c:142-182 | No box that remains allocated has its key interval narrowed by a step, except the box the rotating deletion itself holds locked |
| BstLiveness.NoDeadlock | concurrency/bst_conc.c:60-216 | In every reachable state with an unfinished operation some thread can step |
| BstLiveness.AwaitedIsChild | concurrency/bst_conc.c:86-98 | A thread waits only for the root, or for a child of a box it holds |
| BstLiveness.OwnerWaitsDeeper | concurrency/bst_conc.c:86-98 | The owner of an awaited lock waits, if at all, for a box strictly deeper in the tree |
| BstLiveness.FreeIsSafe | concurrency/bst_conc.c:163-176 | The two boxes freed by a splice are locked by the deleter, unknown to all other threads, and referenced only from the box that is rewritten |
| BstLiveness.NothingDangles | concurrency/bst_conc.c:60-216 | Child links and thread variables name allocated boxes only |
| BstTermination.PotentialDrops | concurrency/bst_conc.c:60-216 | Every step lowers a potential made of the boxes still below each thread and the pending insertions |
| BstTermination.InitialPotential | concurrency/bst_conc.c:60-216 | The potential at the start is bounded by the number of threads and insertions |
| BstShape.TurnContents | concurrency/bst_conc.c:142-152 | turn_left does not change the map the tree stands for |
| BstShape.SpliceContents | concurrency/bst_conc.c:164-176 | Splicing out a node without right subtree removes exactly its key |
| BstShape.AbsentAtNull | concurrency/bst_conc.c:66-67 | A key that belongs to the interval of an empty box is in no node of the tree |
| BstShape.OneParent | concurrency/bst_conc.c:60-216 | No box has two parents, and the root has none |
| BstFunctional.LookupFinds | concurrency/verif_bst_conc.v:27-33 | In a search tree the functional lookup gives the binding at whichever node has the key, or null |
| BstFunctional.InsertBinds | concurrency/verif_bst_conc.v:35-41 | The functional insert keeps the order, and binds one key among the bindings at all nodes, leaving all others |
| BstFunctional.PushdownBinds | concurrency/verif_bst_conc.v:43-47 | The functional pushdown_left joins two ordered trees in order, with the bindings of both and no others |
| BstFunctional.DeleteUnbinds | concurrency/verif_bst_conc.v:49-55 | The functional delete keeps the order, removes exactly one key and leaves all others |
| BstSequential.Treebox.Insert | concurrency/bst_conc.c:60-106 | One thread: the loop ends, the heap holds the functional insert of the old tree, is a search tree again, and its map is the old one with the key bound |
| BstSequential.Treebox.Lookup | concurrency/bst_conc.c:109-140 | One thread: the loop ends and gives the functional lookup, which is the value of the key in the map or null |
| BstSequential.Treebox.TurnLeft | concurrency/bst_conc.c:142-152 | The four assignments exchange the nodes of the two boxes and relink the middle subtree |
| BstSequential.Treebox.PushdownLeft | concurrency/bst_conc.c:154-183 | One thread: the rotations end, and the heap holds the functional pushdown_left in place of the node |
| BstSequential.Treebox.Delete | concurrency/bst_conc.c:185-216 | One thread: the heap holds the functional delete of the old tree, is a search tree again, and its map is the old one without exactly that key |
| BstSequential.PathCommutes | concurrency/verif_bst_conc.v:27-55 | Inserting, deleting and looking up below a search path is doing so in the whole tree |
| BtreeCursor.Cursor.RL_PutRecord | verif/btrees/relation_mem.c:233-245 | From any valid cursor the relation becomes the map update, through any number of splits and a new root; tree and cursor stay valid, and the cursor is one position past the key |
| BtreeCursor.Cursor.PutEntry | verif/btrees/relation_mem.c:682-770 | From a search path with an entry to place, the tree becomes consistent again with the intended contents and the cursor is at the key |
| BtreeCursor.Cursor.SplitLeaf | verif/btrees/relation_mem.c:729-736 | Splitting a full leaf leaves a tree that is consistent but for the returned entry, which is to be placed one level up; the record is stored, and still to be counted |
| BtreeCursor.Cursor.SplitInner | verif/btrees/relation_mem.c:761-768 | Splitting a full inner node hands the middle entry one level up, changing no record |
| BtreeCursor.Cursor.PutRoot | verif/btrees/relation_mem.c:683-702 | A split root gets a new root above it, the new record is counted, and the cursor is led down again to the key |
| BtreeCursor.Relation.SplitNode | verif/btrees/relation_mem.c:514-603 | The entries of a full node and the new one are shared out in order, eight left and the rest right; the middle one goes up |
| BtreeCursor.Relation.constructor | verif/btrees/relation_mem.c:178-198 | A new relation is valid and empty |
| BtreeCursor.CopyEntries | verif/btrees/relation_mem.c:528-540 | The loop copies the node entries with the new one in its place |
| BtreeCursor.ShiftInsert | verif/btrees/relation_mem.c:717-725 | The loop shifts entries right and writes the new one in the gap |
| BtreeCursor.FindChildIndex | verif/btrees/relation_mem.c:1150-1161 | The loop finds the last entry whose key is not above the searched one, or -1 |
| BtreeCursor.FindRecordIndex | verif/btrees/relation_mem.c:1166-1182 | The loop finds the first entry whose key is not below the searched one |
| BtreeShape.StoreRecord | verif/btrees/relation_mem.c:704-728 | Storing a record in the leaf responsible for its key is the map update; only that leaf may become too large by one |
| BtreeShape.SplitChild | verif/btrees/relation_mem.c:514-603 | Splitting a too large node under its parent restores it, keeps the contents, and only the parent may now be too large |
| BtreeShape.SplitTop | verif/btrees/relation_mem.c:683-702 | Splitting a too large root under a new root gives a consistent tree with the same contents |
| BtreeShape.OneParent | verif/btrees/relation_mem.c:110-134 | No node is reached from two places |
| BtreeShape.ChildIndexRange | verif/btrees/relation_mem.c:1150-1161 | findChildIndex gives the one child whose key range contains the key |
| BtreePut.OverPending | verif/btrees/relation_mem.c:761-768 | A pending entry that does not fit splits the node and becomes a pending entry one level up, with the same contents |
| BtreePut.TakePending | verif/btrees/relation_mem.c:739-760 | A pending entry that fits gives a consistent tree with the same contents |
| BtreeCursor.Cursor.GoToKey | verif/btrees/relation_mem.c:316-320 | From every valid cursor the cursor ends as the path that a search from the root takes to the key, at the key's index |
| BtreeCursor.Cursor.AscendToParent | verif/btrees/relation_mem.c:279-292 | Climbing stops at the first node whose own entries tell that it is responsible for the key, or at the root, and no higher |
| BtreePath.NodeParentInRange | verif/btrees/relation_mem.c:249-276 | A node that isNodeParent accepts has the key in its range |
| BtreePath.NodeParentCovers | verif/btrees/relation_mem.c:249-276 | isNodeParent accepts exactly the nodes with entries on both sides of the key, and leaves at the ends of the tree |
| BtreePath.ShortcutIsDescent | verif/btrees/relation_mem.c:279-320 | A search resumed at any node in range, whose path is kept, is the search from the root |
| BtreePath.DescentUnique | verif/btrees/relation_mem.c:1188-1213 | Two searches from the root for one key give the same path |
| BtreeCursor.Cursor.MoveToKey | verif/btrees/relation_mem.c:1188-1213 | The recursion extends the path by the search for the key, down to a leaf |
| BtreeCursor.Cursor.MoveToFirst | verif/btrees/relation_mem.c:1216-1233 | The recursion extends the path to the first leaf below a node |
| BtreeCursor.Cursor.MoveToLast | verif/btrees/relation_mem.c:1235-1252 | The recursion extends the path to the end of the last leaf below a node |
| BtreeCursor.Cursor.MoveToNext | verif/btrees/relation_mem.c:382-402 | To the next entry, or to the start of the leaf that follows in key order, at twice the number of newly opened nodes in level changes |
| BtreeCursor.Cursor.MoveToPrev | verif/btrees/relation_mem.c:404-424 | To the entry before, or to the end of the leaf that precedes in key order |
| BtreeCursor.Cursor.RL_MoveToNext | verif/btrees/relation_mem.c:426-434 | The position in the sorted sequence of records grows by one, unless at its end |
| BtreeCursor.Cursor.RL_MoveToPrevious | verif/btrees/relation_mem.c:436-442 | The position shrinks by one, unless at the start: the inverse of next |
| BtreeCursor.Cursor.RL_MoveToFirst | verif/btrees/relation_mem.c:356-363 | From every valid cursor, in a relation of any size: the position is zero, and the answer says whether there is a record |
| BtreeCursor.Cursor.RL_MoveToKey | verif/btrees/relation_mem.c:322-332 | The position is the number of smaller keys, and the answer says whether the key is there |
| BtreeCursor.Cursor.RL_GetKey | verif/btrees/relation_mem.c:305-314 | The key at the position, an end of leaf standing for the start of the next one |
| BtreeCursor.Cursor.RL_GetRecord | verif/btrees/relation_mem.c:294-303 | The record at the position |
| BtreeCursor.Cursor.IsValid | verif/btrees/relation_mem.c:156-163 | True exactly when the position is before the end |
| BtreeCursor.Cursor.constructor | verif/btrees/relation_mem.c:206-222 | A new cursor is valid, at position zero |
| BtreePath.PositionStep | verif/btrees/relation_mem.c:382-402 | One entry further in a leaf is one record further in the sorted sequence |
| BtreePath.PositionAcross | verif/btrees/relation_mem.c:382-402 | The end of a leaf and the start of the next are the same position |
| BtreePath.NextOpens | verif/btrees/relation_mem.c:382-402 | Moving to the next leaf opens as many nodes as it climbs levels |
| BtreePath.OpenedPath | verif/btrees/relation_mem.c:382-402 | The nodes opened so far, which bound the level changes, are fewer than all nodes |
| BtreePath.SubtreeCount | verif/btrees/relation_mem.c:544-597 | A subtree of height h below the root holds at least 8 to the power h + 1 keys |
| BtreePath.DepthBound | verif/btrees/relation_mem.c:135-146 | A tree of depth d >= 1 has at least 2 * 8^d records |
| BtreePath.DepthFits | verif/btrees/relation_mem.c:135-146 | With fewer than 2^61 records the path fits the cursor's arrays |
| BtreeScan.SeqScan.Next | src/low level algos (Pablo)/db_operations_light.c:100-107 | Delivers the record of the next key in order, and null after the last one |
| BtreeScan.Materialize | src/low level algos (Pablo)/db_operations_light.c:73-107 | A full scan delivers the records in strictly increasing key order, each once: the part of that sequence before its first null record, and so all of them exactly when none is null; with both of seq_scan_init's descents it makes at most 2 * (nodes - 1) level changes |
| BtreeScan.StoppedAtNull | src/low level algos (Pablo)/db_operations_light.c:73-82 | Where the loop stops, what it has delivered is the sorted sequence of records before its first null one |
| BtreeScan.NullEndsScan | src/low level algos (Pablo)/db_operations_light.c:73-82 | A relation the operations build, with a null record under its least key, of which a scan delivers nothing |
| BtreeScan.RankedPrefix | verif/btrees/relation_mem.c:382-402 | Keys met at positions 0, 1, ... are the first keys of the relation in increasing order |
| BtreeScan.RecordsAreValues | verif/btrees/relation_mem.c:1216-1252 | The sorted sequence of records has every record of the relation, as many as there are keys |
| SizeClass.SizeFits | memmgr/malloc.c:115-122 | Claims 1 (left to right) and 2: a small size gets a bin that is large enough, and the smallest such |
| SizeClass.SmallestFitIs | memmgr/malloc.c:18-23 | size2bin gives the one bin whose size is the smallest that is enough |
| SizeClass.BinRoundTrip | memmgr/malloc.c:118-119 | Claim 3: a chunk of a bin's size belongs to that bin |
| SizeClass.BinUnits | memmgr/malloc.c:121-121 | Claim 4: bin size and header together are a whole number of alignment units |
| SizeClass.ClaimOneExactly | memmgr/malloc.c:115-115 | With unsigned sizes the right side of claim 1 holds exactly for the sizes of the bins and the top WORD sizes |
| SizeClass.ClaimOneFails | memmgr/malloc.c:115-115 | A size above every bin for which the right side of claim 1 holds |
| SizeClass.BlocksFit | memmgr/malloc.c:39-41 | A big block gives at least one chunk of bin b, as the loop needs, exactly when b < 65535; the chunks fit, and one more would not |
| MallocCarve.CutTurn | memmgr/malloc.c:42-53 | One turn of the loop keeps the chunks cut so far disjoint, linked, inside the block, with room for the rest |
| MallocCarve.SpacedAligned | memmgr/malloc.c:39-53 | All blocks cut from an aligned region are aligned |
| MallocHeap.Heap.CutBlock | memmgr/malloc.c:39-58 | The loop cuts exactly the given number of adjacent chunks of the size, linked in order and ended by null, and writes nowhere else |
| MallocHeap.Heap.FillBin | memmgr/malloc.c:33-61 | Null, or aligned linked chunks from the first aligned address of the block on, so many that no further one fits behind the last |
| MallocCarve.NoneFitsBehind | memmgr/malloc.c:39-53 | When there are as many chunks as have room, the last one ends less than a chunk with its header before the end of the block |
| MallocHeap.Heap.MallocSmall | memmgr/malloc.c:63-77 | The answer is the head of the list of the smallest bin size that is enough, or the first chunk of a fill when that list is empty, or null when no memory comes either; its size is that bin size; the other lists stay; the heap stays well formed and the contents of live blocks stay; fills are counted |
| MallocHeap.Heap.MallocLarge | memmgr/malloc.c:79-88 | For every size whose sum with the overhead is a value of size_t: null when no memory comes, else a block of exactly the requested size at the first aligned address of a region of its own |
| MallocHeap.Heap.Malloc | memmgr/malloc.c:108-113 | The same answers and sizes for every size of either kind, but those for which that sum wraps around |
| MallocHeap.NoWrapExactly | memmgr/malloc.c:79-88 | The length that is asked for has room for header and block exactly when the sum does not wrap around; when it does, not even the header has room |
| MallocHeap.Heap.FreeSmall | memmgr/malloc.c:91-96 | The block becomes the head of the list of its size, with the former head as its link; the other blocks and lists stay |
| MallocHeap.Heap.Free | memmgr/malloc.c:98-106 | The heap stays well formed without the block, which heads the list of its size; a large one is unmapped with exactly its region and no list changes; null does nothing |
| MallocLedger.Refill | memmgr/malloc.c:63-77 | A fill of an empty bin keeps live blocks, free lists, headers and regions disjoint and well formed, and adds to the bin what the fill produced |
| MallocLedger.Pop | memmgr/malloc.c:74-76 | Taking the head of a bin keeps the heap well formed |
| MallocLedger.Push | memmgr/malloc.c:91-96 | Returning a block to its bin keeps the heap well formed: no list gets a block twice, free plus live stays chunks per fill times fills |
| MallocLedger.MapLarge | memmgr/malloc.c:79-88 | A large block in a fresh region is aligned and apart from everything else |
| MallocLedger.UnmapLarge | memmgr/malloc.c:103-104 | Address and length computed by free are those of the whole region |
| MallocLedger.ReturnsToItsBin | memmgr/malloc.c:91-96 | The header of a small live block names the size of the bin it is returned to |
| MallocLedger.FreeListEnds | memmgr/malloc.c:25-29 | Following the links of a bin visits exactly the free chunks of its size, each once, and ends in null |
| MallocShape.BlockMeta | memmgr/malloc.c:9-11 | Writing inside a live block touches no header and no free link |
| MallocHeap.Heap.ClientWrite | memmgr/malloc.c:9-11 | A client that writes within its blocks keeps the heap well formed |
| MallocRuns.Run | memmgr/malloc.c:63-113 | After any sequence of malloc, free and client writes: the heap is safe; the client holds exactly the blocks answered and not freed since, with the sizes asked for; the last word written to a place in such a block is there; and no malloc was answered with null when mmap0 would have given new memory and the length did not wrap around |
| MallocRuns.HeldBlocks | memmgr/malloc.c:63-113 | The blocks a client knows of are those answered by a malloc and neither freed nor answered again since |
| MallocRuns.LastWriteKnown | memmgr/malloc.c:9-11 | A word written into a held block and not overwritten is still known while the block is not freed |
| MallocRuns.HeapIsSafe | memmgr/malloc.c:25-29 | Live blocks are aligned, as large as asked for and apart from all other chunks and headers; a bin's links lead once through its free chunks to null; free plus live is the fills times the largest number of chunks that a big block has room for |
| MallocRuns.Client.Do | memmgr/malloc.c:98-113 | One call: a malloc answers the head of its list, a new chunk or null, exactly as malloc does on what mmap0 gives; a write changes just its word; and no other call changes a word in a block that stays |
| TrieSlice.GetNextKeySlice | src/btrees and tries (Adewale)/index_string.c:92-106 | The loop packs the first eight bytes, padded with zeroes, most significant first, without overflow |
| TrieSlice.GetNextKeySliceShort | src/btrees and tries (Adewale)/util.c:101-121 | The two loops compute the same for strings of at most eight bytes |
| TrieSlice.KeySliceToStr | src/btrees and tries (Adewale)/util.c:123-137 | Gives back the first len bytes of every string with that slice |
| TrieSlice.PackCompare | src/btrees and tries (Adewale)/index_string.c:92-106 | Slices compare as their bytes do |
| TrieSlice.TrieOrder | src/btrees and tries (Adewale)/index_string.c:92-106 | Comparing slice, then length up to nine, then the remainder is the lexicographic order of byte strings |
| TrieSlice.KeyParts | src/btrees and tries (Adewale)/index_string.c:565-624 | Slice, length up to nine and remainder determine the key |
| TrieStore.Layer.Put | src/btrees and tries (Adewale)/index_string.c:565-624 | For every key and every store, put is the map update: the key has the value, every other key what it had |
| TrieStore.BorderNode.Put | src/btrees and tries (Adewale)/index_string.c:573-614 | The branches of put for a slice that is present, for all keys of the slice |
| TrieStore.CreatePair | src/btrees and tries (Adewale)/index_string.c:515-563 | New layers, as many as the keys share slices, that hold exactly the two keys |
| TrieStore.PairNode | src/btrees and tries (Adewale)/index_string.c:518-541 | Keys with a common slice end up in one node, or one layer down |
| TrieStore.BorderNode.SetPrefixValue | src/btrees and tries (Adewale)/index_string.c:212-215 | Changes the value of the keys of one length only |
| TrieStore.BorderNode.GetPrefixValue | src/btrees and tries (Adewale)/index_string.c:217-220 | Flag and value tell whether a key of that length is there, and its value |
| TrieStore.BorderNode.SetSuffixValue | src/btrees and tries (Adewale)/index_string.c:222-233 | The node now holds one longer key, the one with this suffix |
| TrieStore.BorderNode.TestSuffix | src/btrees and tries (Adewale)/index_string.c:235-244 | True exactly when the node holds the suffix of the key |
| TrieStore.BorderNode.GetSuffixValue | src/btrees and tries (Adewale)/index_string.c:246-257 | The value under the suffix, or null |
| TrieStore.BorderNode.ExportSuffixValue | src/btrees and tries (Adewale)/index_string.c:259-272 | Takes the longer key out; the short ones stay |
| TrieStore.BorderNode.SetLink | src/btrees and tries (Adewale)/index_string.c:278-286 | Longer keys are now those of the next layer; the short ones stay |
| TrieStore.BorderNode.SetValue | src/btrees and tries (Adewale)/index_string.c:301-311 | A key goes to the suffix or to the slot of its length |
| TrieStore.StrEqual | src/btrees and tries (Adewale)/index_string.c:108-120 | True exactly for equal strings |
| TrieKv.KvPut | src/btrees and tries (Adewale)/kvstore.c:163-351 | For every key but the empty one: when it does not meet a stored suffix within a slice, KV_Put is the map update; when it does, one stored key is gone, the new key has that key's value, and nothing else changes. It grows numKeys by one exactly when the key was not there. It leaves the caller's key as it was exactly when it goes down no layer, and always with the remainder whose border node, reached by following the links, has what is stored under the key in a slot or as its suffix |
| TrieKv.KvPair | src/btrees and tries (Adewale)/kvstore.c:190-243 | The layers built for two keys hold what they should, or only the first key with the second value; what is left of the first key is the remainder under which it is held |
| TrieKv.KvPairExact | src/btrees and tries (Adewale)/kvstore.c:203-214 | Both keys end up stored as they should exactly when, padded with zeroes to the end of the slice in which the shorter one ends, they differ |
| TrieKv.MeetingIsPadding | src/btrees and tries (Adewale)/kvstore.c:203-214 | Two keys meet in one border node exactly when padding with zeroes makes them equal up to the end of the slice in which the shorter one ends |
| TrieKv.KvLosesAKey | src/btrees and tries (Adewale)/kvstore.c:163-351 | For every first slice and every remainder of one to seven bytes: after putting the key with a zero byte added and then the key itself into a new store, the first is gone, the second has the first one's value, and numKeys is two |
| TrieKv.KvStore.Put | src/btrees and tries (Adewale)/kvstore.c:163-351 | The program goes on exactly when the key is not empty, and then the store holds the updated map exactly when the key does not clash; what it holds instead; numKeys grows by one exactly for a new key; which remainder of the caller's key is left |
| TrieKv.KvPuts | src/btrees and tries (Adewale)/kvstore.c:163-351 | Any sequence of puts into a new store ends at the first empty key; without one, the store holds what replaying the puts gives, each loss being of a stored key to a new one it meets, and numKeys is the number of stored keys plus the number of losses |
| TrieKv.NothingLost | src/btrees and tries (Adewale)/kvstore.c:163-351 | Replaying puts of which no two different keys meet loses nothing and gives the last value put under each key |
| TrieKv.NoneMeetStored | src/btrees and tries (Adewale)/kvstore.c:163-351 | After puts of which no two different keys meet the store holds the last value put under each key, and numKeys is the number of keys |
| TrieKv.KvPutEmpty | src/btrees and tries (Adewale)/bordernode.c:82-92 | Putting the empty key ends the program, whatever the store |
| TrieKv.NeverEmpty | src/btrees and tries (Adewale)/kvstore.c:311-328 | What is left of a key after any number of layers is the key without as many slices, and not empty |
| TrieKv.OneEnd | src/btrees and tries (Adewale)/kvstore.c:311-328 | The links down to what is stored under a key determine what is left of it |
| TrieKv.KvGet | src/btrees and tries (Adewale)/kvstore.c:384-424 | The value of the key, or null; the program ends exactly for the empty key when there is a border node for its slice |
| TrieKv.BnSetPrefixValue | src/btrees and tries (Adewale)/bordernode.c:82-86 | Changes the value of the keys of one length only; length zero ends the program |
| TrieKv.BnGetPrefixValue | src/btrees and tries (Adewale)/bordernode.c:88-92 | The value of the key of that length, or null; length zero ends the program |
| Queue.Fifo.Put | src/low level algos (Pablo)/queue2.c:10-23 | Appends an element |
| Queue.Fifo.Get | src/low level algos (Pablo)/queue2.c:31-37 | Removes the first element and returns it |
| Queue.Fifo.Empty | src/low level algos (Pablo)/queue2.c:25-29 | True exactly when nothing is queued |
| HashChain.Chain.InsertList | src/low level algos (Pablo)/inthash.c:44-57 | The cell of the key, appended with a null value if there is none; all entries stay as they are |
| HashChain.Chain.Lookup | src/low level algos (Pablo)/stringlist.c:48-55 | The pointer under the key, or null |
| HashChain.Chain.Insert | src/low level algos (Pablo)/stringlist.c:31-46 | The map update, returning what was there |
| HashChain.IntHash.Lookup | src/low level algos (Pablo)/inthash.c:34-42 | The pointer under the key, or null |
| HashChain.IntHash.Insert | src/low level algos (Pablo)/inthash.c:59-65 | The map update, returning what was there; no other key is affected, of the same bucket or not |
| CompositeIndex.FieldTable.Insert | src/low level algos (Pablo)/inthash_schema.c:9-12 | Whichever structure the schema selects, inserting is the map update |
| CompositeIndex.FieldTable.Lookup | src/low level algos (Pablo)/inthash_schema.c:14-17 | Whichever structure the schema selects, looking up is reading the map |
| CompositeIndex.Index.Insert | src/low level algos (Pablo)/tuple_schema.c:26-35 | For keys of any number of components, through the hash table or list of each: the key leads to the value, every other key to what it did |
| CompositeIndex.Index.Lookup | src/low level algos (Pablo)/tuple_schema.c:37-42 | The value a composite key leads to through these tables, or null |
| JoinSpec.GetOffset | src/low level algos (Pablo)/db_operations_light.c:154-168 | The place of the first attribute with the name, or that there is none, or that the program ends |
| IndexJoin.FindOffset | src/low level algos (Pablo)/db_operations_light.c:154-168 | The loop computes that |
| JoinSpec.ProjectionFits | src/low level algos (Pablo)/db_operations_light.c:143-181 | A projection is a key of the schema built from attributes with the same domains |
| JoinSpec.ProjectionAgrees | src/low level algos (Pablo)/db_operations_light.c:175-181 | Two projections are equal exactly when the tuples agree on every pair of attributes |
| IndexJoin.IndexScan | src/low level algos (Pablo)/db_operations_light.c:183-198 | Of the tuples an iterator gives, each key's queue holds those at exactly the positions with that projection, each once, in the order they come |
| JoinPositions.WithKeyPositions | src/low level algos (Pablo)/db_operations_light.c:183-198 | The tuples with a key are those at strictly increasing positions, exactly the positions whose fields are those of the key |
| IndexJoin.IndexTuple | src/low level algos (Pablo)/db_operations_light.c:190-196 | A tuple goes to the end of its key's queue and of no other |
| JoinIterator.JoinEnv.Next | src/low level algos (Pablo)/db_operations_light.c:224-253 | The next of the tuples still to come, which fits its slots, or null exactly when there are none |
| JoinIterator.JoinEnv.Advance | src/low level algos (Pablo)/db_operations_light.c:226-231 | The loop goes on to an outer tuple for which inner ones are waiting, and loses none |
| JoinIterator.JoinEnv.constructor | src/low level algos (Pablo)/db_operations_light.c:217-222 | On an index built by index_scan, what is to come is the merges of each first outer tuple of a key with all matching inner ones |
| JoinIterator.MergeTuples | src/low level algos (Pablo)/db_operations_light.c:233-252 | The outer tuple followed by the inner fields that are not join attributes, each written into a slot that is allocated |
| JoinIterator.JoinRelations | src/low level algos (Pablo)/db_operations_light.c:183-253 | Index scan, join and materialize, on the tuples of two iterators and attribute lists for which the slots suffice: the merges of the first outer tuple of each key with the inner tuples that agree with it, each pair of positions once, in order; and the merges of all pairs that agree exactly when no key with a match occurs twice |
| JoinIterator.Materialize | src/low level algos (Pablo)/db_operations_light.c:73-82 | All tuples of the iterator, in order |
| RelationJoin.TableRowsInOrder | src/low level algos (Pablo)/db_operations_light.c:94-107 | What a scan of a relation gives is one tuple for each key, in increasing order of the keys, up to the first key with a null record |
| RelationJoin.IndexScanTable | src/low level algos (Pablo)/db_operations_light.c:183-198 | On a relation: each key's queue holds the scanned tuples at exactly the positions with that projection, each once, in primary-key order, up to a null record |
| RelationJoin.JoinTables | src/low level algos (Pablo)/db_operations_light.c:183-253 | The join of two relations on attribute lists for which the slots suffice, from the scans of their B+ trees to the materialized result: the pairs of positions that are merged, each once, in order, and the exact condition for these being all pairs of what the scans give that agree |
| RelationJoin.SecondLeftOut | src/low level algos (Pablo)/db_operations_light.c:224-253 | Two relations, built by the operations, whose join is not the nested loop: of two outer tuples with different primary keys and the same join field the second is missing |
| JoinSpec.OutputIsFirstOnly | src/low level algos (Pablo)/db_operations_light.c:224-253 | Draining the queues serves the first outer tuple of each key, and later ones nothing |
| JoinSpec.JoinIsNestedLoop | src/low level algos (Pablo)/db_operations_light.c:224-253 | The join is the nested-loop equi-join exactly when no outer key that has a match is repeated; distinct outer keys suffice |
| JoinSpec.SecondNotServed | src/low level algos (Pablo)/db_operations_light.c:224-253 | Two outer tuples, and an inner one with their key: the nested loop gives two tuples, the join one |
| JoinSpec.FirstOnlyCompared | src/low level algos (Pablo)/db_operations_light.c:224-253 | It never gives more than the nested loop, and as much only under that condition |
| JoinPositions.LoopPlaces | src/low level algos (Pablo)/db_operations_light.c:200-253 | The nested loop merges the pairs of positions that agree on all join attributes, each once, in lexicographic order; the join that serves first tuples, those of them whose outer tuple is the first of its key |
| JoinPositions.DeliversLoop | src/low level algos (Pablo)/db_operations_light.c:200-253 | That order and choice of positions admits just one result, and it is what the loop gives |
| JoinMerge.InNestedLoop | src/low level algos (Pablo)/db_operations_light.c:200-203 | The nested-loop join consists of the merges of the pairs that agree on all join attributes |
| JoinMerge.MergedField | src/low level algos (Pablo)/db_operations_light.c:239-252 | Where each field of the inner tuple that is not a join attribute is in the merged tuple |
| JoinMerge.MergeFits | src/low level algos (Pablo)/db_operations_light.c:234-238 | The slots suffice, with one to spare, when no join attribute is listed twice |
| JoinMerge.SlotsSufficeExactly | src/low level algos (Pablo)/db_operations_light.c:234-252 | A merged tuple fits the slots allocated for it exactly when the join list is longer by at most one than the list of the inner attributes it names |
| JoinMerge.SlotsMayBeFew | src/low level algos (Pablo)/db_operations_light.c:234-252 | One attribute listed three times is a join that is not turned down, and whose two fields are written into one slot |

## Left out

- BtreeCursor.Cursor.RL_PutRecord: requires fewer than 2^61 - 1 records, the bound up to which `DepthFits` proves that the 20 levels of a cursor suffice; the source does not check it.
- BtreeCursor.Relation.SplitNode: a node's entries are a sequence in a heap map and are replaced as a whole; the loops over entry arrays are proved on arrays of their own, and sharing of node memory is not modelled.
- MallocHeap.Heap.Malloc: not for the top sizes, for which `nbytes + WASTE + WORD` wraps around and the source writes a header outside its region; `NoWrapExactly` says which these are. The repository's specification leaves them out too (memmgr/spec_malloc.v:1065).
- TrieKv.KvPut: one layer per recursive call stands for one round of KV_Put's loop. The value is not null, as the source asserts; bordernode.c marks a missing key by a null value where the model has the flags of index_string.c, which is the same for values that are not null.
- TrieStore.BorderNode.SetSuffixValue: suffix strings are values; copying and freeing them is not modelled, and the flag word of a border node is the set of its bits.
- RelationJoin.IndexScanTable: the tuples are collected before the index is built, where the source takes them one by one; the scan of a relation that nobody changes gives the same either way. `JoinTables` drains the outer scan first in the same way.
- JoinIterator.JoinEnv.constructor: the outer iterator is the sequence of tuples it has still to deliver, and attribute lists the program would exit on are excluded by `WellFormed`.
- JoinIterator.JoinRelations: not for attribute lists for which the slots do not suffice (`SlotsSuffice`), where the source writes past its allocation as soon as a tuple is merged.
- MallocRuns.Run: a free of something that is not the client's, a write outside its blocks, or a malloc of one of the top sizes, is not made; what the source does then is undefined.
- Deletion from the B+ tree: all of it is commented out in the source, and RL_DeleteRecord answers False.
- RL_DeleteRelation, RL_MoveToNextValid, RL_MoveToPreviousNotFirst, RL_IsEmpty, RL_NumRecords and printing: wrappers and tear-down.
- Cursors other than the one that updates the relation: they go stale, as in the source.
- The older copy of the B+ tree under src/: its moveToLast descends with moveToFirst.
- tree_free and treebox_free: they take the tree down when no operation is going on.
- Separate allocation of a node and its box, and the order of the frees inside pushdown_left: a node is part of its box, and the frees between two lock operations are one step.
- In lookup the child is read before the parent's lock is released; the model reads it after. The thread holds the child's lock at both points, so no other thread can write in between.
- The C memory model below locks: locks give mutual exclusion, and accesses under a lock take effect in order.
- Failing allocation, exit, pthread, mmap and munmap: foreign calls. A failing malloc of the operating system ends the program.
- Contents of memory below the word: chunk sizes and links are words, and client data is written in words.
- Cursor functions of index_string.c: unfinished, several have no body or call what does not match.
- The order of entries within a layer of the trie: the layer is a map; `TrieSlice.TrieOrder` says what order the B+ tree of a layer gives.
- tuple_schema over a compound first component: get_schema never builds one.
- Str fields hold the string itself, not a pointer to it; key equality is that of strcmp.
- The spare slot of a merged tuple, releasing tuples and queue elements, and the iterator method tables.
- index_int.c, relapps.c, db_seq_scan.c, db_index_join.c, stringlist.c cursors, permuter.c, stringbag.c, printing, benchmarks, makefiles, Clight syntax trees, linking and share theory: thin wrappers, work in progress, or outside the logic modelled here.
