# A verified model of the profiler's data structures and pipeline

The profiler samples stacks through perf ring buffers, resolves addresses through red-black
trees, passes entries through a bounded queue to a database writer, and turns stored stacks
into flame graphs. This project models those parts and proves what they are for. The main
results:

- **Red-black tree.** `rb_erase` and `rb_insert_color` keep every red-black rule and every
  parent link, and change the in-order sequence by exactly the node inserted or removed. After
  any run of insertions and erasures the height is at most 2 log2(n + 1), and every change of
  the run took a number of fix-up rounds within the same bound.
- **Iteration and drain.** `rb_next` and `rb_prev` are neighbours in the in-order sequence,
  post-order visits children first, and erasing each node after fetching its successor visits
  all of them in order.
- **Lookups.** Floor search agrees with a linear scan of the loaded list. Interval search
  agrees with one in every tree shape exactly when the nearest range covers the address or
  none does, so in particular for disjoint ranges.
- **Block cache.** Any history of reads, prefetches and flushes is answered as the plain file
  would answer it. The resident blocks are always the most recently touched distinct blocks of
  that history, in order of last use, and as many as fit unless a load has failed.
- **Queue protocol.** Over all interleavings of producer, consumer and shutdown: first in,
  first out by whole batches, no missed wake-up, and a deadlock is reachable exactly when a
  batch may exceed the capacity.
- **Writer pipeline.** Entries are conserved in order; after a shutdown the writer terminates;
  a stop can lose entries exactly when some are buffered and the writer is not already waiting
  on the empty queue; the pipeline can deadlock exactly when the flush threshold exceeds the
  queue capacity.
- **perf ring buffer and samples.** The loop over ring positions hands over the records of the
  linear stream, each once and unwrapped; decoding inverts encoding, also for cut-off records.
- **Flame graph frames.** At every depth and for every property of the call path, the widths
  of the merged frames add up to the samples. The table that is drawn shows them exactly when
  no line clashes with an earlier one over a key.
- **Memory pool and query.** Destroying the pool is safe exactly when it is full; the hourly
  sweep equals the query over the unsharded log exactly when the end of the window and the
  time zone offset together stay below an hour.

## How the model is built

- Memory is an arena: addresses are numbers, null is 0, and a tree or list is a map from
  addresses to records with the source's link fields. Methods update these maps in place of
  the pointer writes, one write at a time. `RbShape` holds trees and contexts (a tree with a hole) as
  values, `RbMemory` says when memory holds such a tree, `RbTree` holds the algorithms.
  That cells are distinct is witnessed by a ghost map of ranks, one real number per node.
- The mirrored branches of the tree code share one method with a side as parameter.
- Critical sections of the queue are methods on a ring (`ConcurrentQueue`), each proved to be
  a step of the functions in `QueueSpec`; `QueueProtocol` and `Pipeline` are state machines
  over those functions, with sleeping threads and spurious wake-ups explicit.
- Files, symbol lists, map lines, database rows and kernel records are given sequences. What an
  allocator or a file read returns is left open, so that failure is covered.

Where the documentation and the code differ, the code is followed:

- `db_writer_stop` promises that the writer handles all remaining data (`include/database.h`).
  The code can lose the buffered entries; `Pipeline.StopCanLoseIff` says exactly when.
- The producer batch limit of 4096 exceeds the queue capacity of 1024;
  `Pipeline.DeadlockIff` says what follows.
- `perf_event_consume_ring_buffer` drops a completely full ring without reading it;
  `PerfRing.Event.Consume` states both cases.
- `cache_prefetch` of a range that runs past the end of the file reports failure once a piece
  starts behind the end, although the blocks inside the file were loaded;
  `BlockCache.Cache.Prefetch` states both.
- A frame of the flame graph is keyed by function, depth and end time. A line with count zero
  can give two frames the same key; `FlowTable.KeysUniqueIff` and
  `FlowTable.TableShowsSamplesIff` say exactly when, and when samples are hidden.

## Model

| member | source | states |
|---|---|---|
| RbTrees.RbTree.ChangeChild | src/utils/rbtree.c:29-38 | the slot that held the old node, in the parent or the root, holds the new one and nothing else changes |
| RbTrees.RbTree.RotateSetParents | src/utils/rbtree.c:175-181 | the new node takes over parent, colour and slot of the old one, which becomes its child with the given colour |
| RbTrees.RbTree.LinkNode | include/rbtree.h:85-91 | a red leaf hangs in the chosen empty slot, and the in-order sequence has it at the place of that slot |
| RbTrees.RbTree.InsertOuter | src/utils/rbtree.c:263-279 | after the writes of case 3 memory holds the rotated and recoloured tree |
| RbTrees.RbTree.InsertInner | src/utils/rbtree.c:236-279 | after the writes of cases 2 and 3 memory holds the doubly rotated tree |
| RbTrees.RbTree.InsertFlip | src/utils/rbtree.c:214-234 | after the three recolouring writes memory holds the recoloured tree |
| RbTrees.RbTree.InsertColor | src/utils/rbtree.c:183-317 | the tree becomes red-black, the in-order sequence stays, and twice the number of rounds is at most the depth of the node plus two |
| RbTrees.RbTree.EraseRedSibling | src/utils/rbtree.c:337-355 | after the writes of case 1 memory holds the rotated tree with a red parent |
| RbTrees.RbTree.EraseFlip | src/utils/rbtree.c:358-386 | after the writes of case 2 memory holds the tree with a red sibling and a black parent |
| RbTrees.RbTree.EraseOuter | src/utils/rbtree.c:425-446 | after the writes of case 4 memory holds the rotated tree |
| RbTrees.RbTree.EraseInner | src/utils/rbtree.c:387-446 | after the writes of cases 3 and 4 memory holds the doubly rotated tree |
| RbTrees.RbTree.EraseColor | src/utils/rbtree.c:323-502 | a tree that is one black node short at one place becomes red-black with the same in-order sequence, in at most as many rounds as that place is deep |
| RbTrees.RbTree.EraseOneChild | src/utils/rbtree.c:52-75 | splicing out a node with at most one child removes it from the sequence; the result is red-black or one black node short at the returned parent |
| RbTrees.RbTree.EraseTwoChildren | src/utils/rbtree.c:76-141 | so does putting the successor in the place of a node with two children |
| RbTrees.RbTree.EraseStructure | src/utils/rbtree.c:45-145 | the same over all three cases |
| RbTrees.RbTree.Erase | src/utils/rbtree.c:534-540 | for every valid tree and every node in it, the result is a valid red-black tree whose in-order sequence is the old one without that node, after at most as many rounds of the fix-up as the tree was high |
| RbTrees.RbTree.ReplaceNode | src/utils/rbtree.c:646-660 | the new node stands where the old one stood, and the tree stays valid |
| RbShape.Focus | src/utils/rbtree.c:327-334 | a tree with a subtree in a hole is red-black if and only if the subtree is and the context expects its black height and root colour |
| RbShape.EveryPathEqual | src/utils/rbtree.c:327-334 | what the colour rules mean: all ways down from the root agree on the number of black nodes, and none has two red nodes in a row |
| RbShape.FlipKeepsHot | src/utils/rbtree.c:214-234 | colour part of insertion case 1: the one red-red defect moves two levels up |
| RbShape.OuterRotationCools | src/utils/rbtree.c:263-279 | colour and order part of insertion case 3: the rotated tree is red-black with the same sequence |
| RbShape.InnerRotationCools | src/utils/rbtree.c:236-279 | colour and order part of insertion cases 2 and 3: the doubly rotated tree is red-black with the same sequence |
| RbShape.RedSibling | src/utils/rbtree.c:337-355 | colour and order part of erase case 1: the deficit stays, below a red parent with a black sibling |
| RbShape.SiblingFlip | src/utils/rbtree.c:358-386 | colour and order part of erase case 2: the deficit is gone or moves one level up |
| RbShape.OuterNephew | src/utils/rbtree.c:425-446 | colour and order part of erase case 4: the deficit is gone |
| RbShape.InnerNephew | src/utils/rbtree.c:387-446 | colour and order part of erase cases 3 and 4: the deficit is gone |
| RbShape.LogarithmicHeight | src/utils/rbtree.c:323-502 | two to the height of a red-black tree is at most the square of its size plus one |
| RbMemory.Rotated | src/utils/rbtree.c:263-279 | the pointer writes of a rotation turn memory that holds one tree into memory that holds the rotated tree |
| RbMemory.RotatedTwice | src/utils/rbtree.c:387-446 | the same for a double rotation |
| RbMemory.Spliced | src/utils/rbtree.c:52-75 | the pointer writes of a splice turn memory that holds the tree into memory that holds the tree without the node |
| RbMemory.SuccessorMoved | src/utils/rbtree.c:95-141 | so do those that move the successor up |
| RbRuns.EverySlot | include/rbtree.h:85-91 | every empty slot of every tree is the end of some sequence of turns, so runs cover all insertions |
| RbRuns.Apply | src/utils/rbtree.c:528-540 | one insertion or erasure keeps the tree valid, changes the in-order sequence at exactly that node, and takes rounds bounded by the height of the tree |
| RbRuns.Run | src/utils/rbtree.c:528-540 | after any run from the empty root the tree is valid, holds exactly the nodes added and not removed, and has logarithmic height in their number; every change of the run took logarithmically many rounds in the number of nodes held then |
| RbIteration.First | src/utils/rbtree.c:559-570 | the first node of the in-order sequence, or null |
| RbIteration.Last | src/utils/rbtree.c:572-583 | the last one, or null |
| RbIteration.Next | src/utils/rbtree.c:585-615 | the in-order successor, null at the end and for an unlinked node |
| RbIteration.Prev | src/utils/rbtree.c:617-643 | the in-order predecessor, null at the start and for an unlinked node |
| RbIteration.NextThenPrev | src/utils/rbtree.c:585-643 | going forward and back returns to the same node |
| RbIteration.Enumerate | src/utils/rbtree.c:559-615 | repeated next from the first node ends and yields the in-order sequence |
| RbIteration.NextPostorder | src/utils/rbtree.c:695-712 | the next node of the post-order sequence |
| RbIteration.ChildrenFirst | src/utils/rbtree.c:683-720 | in the post-order sequence every node comes before its parent in memory |
| RbIteration.EnumeratePostorder | src/utils/rbtree.c:683-720 | visits every node once, and every node before the one its parent pointer names |
| RbIteration.EraseFirst | src/utils/elf_cache.c:253-260 | erasing a node does not change which node comes next |
| RbIteration.Drain | src/elf/elf.c:188-197 | the drain loop visits every node once in order and leaves the empty tree |
| SortedIndex.Insert | src/elf/elf.c:364-380 | the node goes behind all nodes with keys not above its own, and the tree stays valid |
| SortedIndex.InsertKeepsSorted | src/elf/elf.c:364-380 | insertion by key keeps a weakly sorted sequence sorted |
| SortedIndex.InsertedBehind | src/elf/elf.c:372-376 | the new node stands behind all keys up to its own and before all greater ones |
| SortedIndex.InsertUnique | src/core/kernel_symbol.c:17-40 | fails without change if and only if the key is present, otherwise inserts in order |
| SortedIndex.FindFloor | src/core/kernel_symbol.c:120-147 | the descent returns what a scan of the in-order sequence from the back returns |
| SortedIndex.FloorIsGreatest | src/core/kernel_symbol.c:120-147 | that is an element with the greatest key not above the address, or null if there is none |
| SortedIndex.FindInterval | src/elf/symbol_table.c:46-64 | the descent computes the search on the tree value |
| SortedIndex.SearchSound | src/elf/symbol_table.c:46-64 | what is found contains the address, in any sorted tree |
| SortedIndex.FloorIsFound | src/elf/symbol_table.c:46-64 | an address that its floor covers is found in every sorted tree |
| SortedIndex.AgreesInEveryShapeIff | src/elf/symbol_table.c:46-64 | over a sorted sequence the search agrees with a linear scan in every tree shape if and only if the last range that starts at or below the address covers it, or none does |
| SortedIndex.SearchIsScan | src/elf/symbol_table.c:46-64 | if ranges with different starts are disjoint and ranges with equal starts have equal sizes, the search agrees with a linear scan in every tree, wherever rotations have put duplicates, and finds the range of every covering node |
| SortedIndex.SearchCanMiss | src/elf/symbol_table.c:46-64 | with overlapping ranges an address inside one of them can be missed |
| SortedIndex.BalanceCanHelp | src/elf/symbol_table.c:46-64 | the only red-black shape of three nodes finds a covering middle node whatever its floor covers |
| Symbols.LoadKernelSymbols | src/core/kernel_symbol.c:88-108 | the table holds exactly the first text symbol listed for each address |
| Symbols.BestIsFirstGreatest | src/core/kernel_symbol.c:120-147 | the reference scan picks the first listed symbol of kind t or T at the greatest address not above the query |
| Symbols.FindKernelSymbol | src/core/kernel_symbol.c:120-147 | the name of the first listed symbol of kind t or T at the greatest address not above the query, or the unknown name if there is none |
| Symbols.FreeKernelSymbols | src/core/kernel_symbol.c:152-163 | frees every node once, in address order |
| Symbols.RangeIndex.Add | src/elf/vma.c:194-205 | the index holds one range more and stays sorted |
| Symbols.RangeIndex.Find | src/core/process.c:301-316 | what is found contains the address; something is found if the ranges with the nearest start contain it; for consistent ranges something is found exactly when some range contains it |
| Symbols.FindSymbolName | src/elf/symbol_table.c:87-100 | always the unknown name or that of a range that contains the address, and the latter if the ranges with the nearest start contain it |
| Symbols.DisjointIsConsistent | src/core/process.c:301-316 | pairwise disjoint ranges are consistent |
| Symbols.Resolve | src/elf/vma.c:237-247 | over disjoint ranges the unique containing one is found; the relative address is as far into its part of the file as the address is into the range |
| Symbols.KeepsDistance | src/elf/vma.c:237-247 | two addresses of one area differ by as much as their relative addresses |
| Symbols.TranslatesApart | src/elf/vma.c:237-247 | different addresses of one area, and addresses of areas with disjoint parts of the file, have different relative addresses |
| LruList.List.AddTail | include/elf_cache.h:25-30 | the list of blocks has the node at its end |
| LruList.List.Del | include/elf_cache.h:32-37 | the list of blocks is the old one without the node |
| LruSpec.RecencyMeaning | src/utils/elf_cache.c:187-190 | the reference order: the distinct blocks of a history, each before those touched after its own last touch |
| LruSpec.ExactLru | src/utils/elf_cache.c:169-190 | evicting the oldest block on a miss and moving touched blocks to the end keeps exactly the last k distinct blocks of the history |
| LruSpec.NewestTouch | src/utils/elf_cache.c:169-190 | from the newest blocks of a history, however many, a touch makes the newest blocks of the longer history |
| LruSpec.NewestRoom | src/utils/elf_cache.c:172-182 | an eviction after which the load fails leaves the newest blocks, one fewer |
| BlockCache.FineAt | src/utils/elf_cache.c:169-190 | resident blocks hold file contents on block boundaries, differ in offset, and lie in strictly increasing order of last access |
| BlockCache.Cache.FindBlock | src/utils/elf_cache.c:60-76 | finds the block that starts at the block boundary below the address, exactly when it is resident |
| BlockCache.Cache.Evict | src/utils/elf_cache.c:138-149 | the least recently used block leaves tree and list |
| BlockCache.Cache.CreateBlock | src/utils/elf_cache.c:93-116 | a new block starts with the contents of the file, or nothing is created; the clock advances exactly if there was memory for the block |
| BlockCache.Cache.Access | src/utils/elf_cache.c:169-190 | a hit or a successful load applies the replacement law, only a block that is not resident can fail; tree, list and counter stay in agreement |
| BlockCache.Cache.Read | src/utils/elf_cache.c:152-213 | what is in the buffer is the file from the offset on, up to the end of the request or of the file if the read succeeds, less if a load failed, which happens only at a block that is not resident; it touches the blocks of that range in order |
| BlockCache.Cache.Prefetch | src/utils/elf_cache.c:222-238 | touches the blocks of all pieces as far as it got: to the end of the last piece or of the file unless a load failed at a block that is not resident, also when a piece behind the end of the file makes it report failure |
| FileRanges.LastPieceInside | src/utils/elf_cache.c:222-238 | every piece of a prefetch starts inside the file exactly when the last one does |
| FileRanges.ReachIs | src/utils/elf_cache.c:222-238 | how far a prefetch gets if every load succeeds: to the end of the last piece or of the file |
| FileRanges.BlocksAre | src/utils/elf_cache.c:169-171 | the blocks of a range are those of 4096 bytes from the one with its first byte to the one with its last, in order |
| FileRanges.AlignedPrefetch | src/utils/elf_cache.c:222-238 | from a block boundary on, a prefetch touches each block of its range once, in order |
| BlockCache.Cache.Flush | src/utils/elf_cache.c:250-264 | tree and list become empty and the counter zero |
| BlockCache.Serve | src/utils/elf_cache.c:152-264 | over any history of commands every reply is the plain file's own; a load fails only at a block that is not resident, and where none fails exactly the commands that ask for what the file has succeed; the touched blocks follow from the commands since the last flush, and after every command the resident blocks are the newest of them, as many as fit unless a load has failed since then |
| BlockCache.StatusIsExact | src/utils/elf_cache.c:152-238 | a command that no failing load has stopped succeeds exactly when it asks for what the file has |
| Circular.WindowPush | src/utils/concurrent_queue.c:84-87 | writing the slot behind a window of a ring appends to what the window shows |
| ConcurrentQueue.Ring.Push | src/utils/concurrent_queue.c:70-92 | appends the item and wakes one consumer if there is room and no shutdown, waits if there is no room, is refused after a shutdown |
| ConcurrentQueue.Ring.Pop | src/utils/concurrent_queue.c:97-121 | hands over the first item and wakes one producer if there is one, otherwise waits, or reports the end after a shutdown |
| ConcurrentQueue.Ring.PushBatch | src/utils/concurrent_queue.c:172-208 | appends the whole batch in order and wakes everybody if it fits and there is no shutdown, waits if it does not fit, is refused after a shutdown |
| ConcurrentQueue.Ring.PopBatch | src/utils/concurrent_queue.c:126-167 | moves the smaller of max and the number of items from the front of the queue to the front of the buffer, whose rest is unchanged, and wakes a producer if that is not zero |
| ConcurrentQueue.Ring.SignalShutdown | src/utils/concurrent_queue.c:220-227 | only the flag changes, and everybody is woken |
| QueueProtocol.EveryRunIsSafe | src/utils/concurrent_queue.c:70-227 | after every run: accepted batches in order are the popped items followed by the queue, a thread asleep has a true wait condition, the end was reported only when shut down and empty, and nobody sleeps after a shutdown |
| QueueProtocol.RunKeeps | src/utils/concurrent_queue.c:70-227 | no run rewrites history, nothing is accepted after a shutdown |
| QueueProtocol.FittingPushIsTaken | src/utils/concurrent_queue.c:184-207 | a push that fits is taken at once, whole, and wakes the consumer |
| QueueProtocol.TightPopFills | src/utils/concurrent_queue.c:144-163 | one with less room hands over as many as fit, from the front |
| QueueProtocol.RoomyPopDrains | src/utils/concurrent_queue.c:144-163 | one batch pop with room for all items hands over everything and wakes the producer |
| QueueProtocol.EndMeansDrained | src/utils/concurrent_queue.c:134-139 | once a pop has reported the end, everything accepted was handed over, for good |
| QueueProtocol.NoDeadlock | src/utils/concurrent_queue.c:184-186 | with batches up to the capacity the two threads never sleep at the same time |
| QueueProtocol.OversizedDeadlocks | src/utils/concurrent_queue.c:184-186 | every batch above the capacity puts both threads to sleep |
| QueueProtocol.OversizedNeverReturns | src/utils/concurrent_queue.c:184-186 | and without a shutdown its push never returns and nothing is handed over |
| QueueProtocol.DeadlockIff | src/utils/concurrent_queue.c:184-186 | batches of up to n items can deadlock if and only if n exceeds the capacity |
| Pipeline.Threshold | src/utils/database.c:292-295 | the flush threshold is the configured size from 1 to 4096, and 4096 for every other configured value |
| Pipeline.BatchBuffer.Store | src/utils/database.c:288-298 | the entry is appended within bounds, and a flush is due exactly when the configured number of entries, or 4096 if that is out of range, is reached |
| Pipeline.BatchBuffer.Flush | src/utils/database.c:89-95 | hands over all pending entries and empties the buffer, as the step of the pipeline does |
| Pipeline.EveryRunConserves | src/utils/database.c:272-299 | after every run the entries pushed are those popped, queued and buffered, in order, and between calls the buffer is below the threshold |
| Pipeline.LeftBehind | src/utils/database.c:401-429 | what the exited writer leaves behind is what the producer's buffer held at its last test |
| Pipeline.ExitAfterShutdown | src/utils/database.c:401-429 | if the last test comes after the shutdown, every entry was popped exactly once, in all that follows |
| Pipeline.StopCanLoseIff | src/utils/database.c:229-235 | a stop can lose entries if and only if some are buffered and the writer is about to test the flag or the queue is not empty |
| Pipeline.DeadlockIff | src/utils/database.c:89-95 | the pipeline can deadlock if and only if the threshold exceeds the capacity |
| Pipeline.ConfiguredDeadlockIff | src/utils/database.c:292-297 | in the configured numbers: a deadlock is reachable if and only if the effective batch size exceeds the capacity |
| Pipeline.DefaultNeverDeadlocks | include/config.h:47-48 | with the default of 96 and a queue of 1024 no deadlock is reachable; with the largest accepted size of 4096 one is |
| Pipeline.WriterFinishes | src/utils/database.c:401-429 | after the shutdown the writer always has a step to take until it exits, after a number of steps bounded by what is queued |
| Pipeline.RoomyWriterDrains | src/utils/database.c:401-405 | a writer with room for all queued entries pops them all at once |
| PerfRing.Unwrap | src/perf/perf.c:362-366 | the two copies put the wrapped bytes together in order |
| PerfRing.Event.Deliver | src/perf/perf.c:343-379 | the loop over positions stops exactly behind the last record, or at a header of size zero, and hands over every record once and in order, except one that wraps and exceeds 4096 bytes |
| PerfRing.Event.Consume | src/perf/perf.c:314-385 | what is handed over are the records between tail and head, unless the ring is completely full, when nothing is; the tail ends at the head in both cases |
| PerfRing.Positions | src/perf/perf.c:334-344 | positions of tail and head coincide exactly when the ring is empty or completely full |
| PerfRing.AllDelivered | src/perf/perf.c:361-378 | without records above 4096 bytes none is skipped |
| PerfRing.SkippedIff | src/perf/perf.c:361-370 | a record is skipped exactly if it wraps and has more than 4096 bytes |
| PerfRing.SizeOfHeader | src/perf/perf.c:345-359 | the size is read from bytes 6 and 7 of the header, behind a type of four bytes and flags of two |
| PerfRing.SkipsAtMostOne | src/perf/perf.c:361-378 | one pass skips at most one record, and none if the bytes do not wrap |
| Samples.Callchain.Parse | src/core/handler.c:48-116 | if the bytes begin as a sample does, cut off anywhere or followed by more, then address, process, thread and time are those of the sample as far as the bytes reach, and the chain is the longest prefix of its stack that lies in the bytes and for which there is room, without zero branch sources |
| Samples.FixedFields | src/core/handler.c:61-75 | the fixed fields of an encoded sample decode to their values |
| Samples.ChainRoundTrip | src/core/handler.c:77-115 | the same for the chain as a function of the bytes |
| Samples.FullRoundTrip | src/core/handler.c:97-115 | an uncut record with enough room gives back the whole call chain, or all branch sources that are not zero |
| Bytes.ValueMore | src/core/handler.c:63-74 | numbers are stored least significant byte first |
| Samples.NonZeroMore | src/core/handler.c:91-96 | branch sources are kept in order, except for zero |
| Flow.Graph.Flow | flamegraph.pl:598-632 | frames beyond the common prefix move to the merged table, those of the new stack open at the current time, shared frames stay open |
| Flow.Graph.Run | flamegraph.pl:672-719 | in the end no frame is open, and the table holds the frames of the merge |
| Flow.FramesConserveSamples | flamegraph.pl:672-719 | at each depth, for every property of call paths, frame widths add up to the samples of the stacks with such a path |
| FlowTable.RootSpansAll | flamegraph.pl:711-719 | the frames of the empty name at the root span all samples |
| Flow.FramesDisjointAndNested | flamegraph.pl:598-632 | frames of one depth do not overlap, and every frame below the root lies within a frame of its caller |
| FlowTable.KeysUniqueIff | flamegraph.pl:612-621 | no two frames share a key if and only if no two lines clash: both end a frame of the same function at the same depth, and no samples come after the first |
| FlowTable.PositiveNeverClashes | flamegraph.pl:677-681 | lines with positive counts never clash, over exact sums of the counts |
| FlowTable.TableIsSamplesLessLost | flamegraph.pl:612-621 | the widths in the table are the samples less the widths of overwritten entries, never more |
| FlowTable.TableShowsSamplesIff | flamegraph.pl:612-621 | for each function and depth the widths in the table add up to the samples, if and only if no line clashes with an earlier one that ends a frame with samples |
| FlowTable.ClashHides | flamegraph.pl:612-621 | every clash with a line that ends a frame with samples makes the table show too little for that function and depth |
| FlowTable.TableIsExact | flamegraph.pl:612-621 | if no lines clash, every frame has its own key and the table lists exactly the frames |
| FlowTable.ZeroCountHides | flamegraph.pl:672-719 | on two sorted lines, the second with count zero, the table shows fewer samples for a function than the five it has |
| Mempool.Pool.Alloc | src/utils/mempool.c:86-101 | the chunk on top, or a new one when the pool is empty; never one that a client holds |
| Mempool.Pool.Free | src/utils/mempool.c:116-131 | the chunk goes on top, or is freed exactly when the pool is full |
| Mempool.SafeIffFull | src/utils/mempool.c:58-74 | freeing every slot frees live chunks only, each once and none that is held, if and only if the pool is full |
| Mempool.Pool.Destroy | src/utils/mempool.c:58-74 | with nothing held the pool is full, and every live chunk is freed exactly once |
| Aggregation.Table.Insert | config/query_tool.c:125-147 | the value of the key grows, all others stay, every key stays once in its own slot, and values stay positive if the added one is |
| Aggregation.Table.Foreach | config/query_tool.c:156-164 | prints exactly the entries of the table, so every key once with its value |
| Aggregation.HashMore | config/query_tool.c:92-98 | every character multiplies the hash by 33 and is added, starting from 5381 |
| Aggregation.SelectSum | config/query_tool.c:316-329 | grouping by process, name and stack keeps the number of passing rows of each stack |
| Aggregation.Run | config/query_tool.c:274-340 | opens consecutive local hours once each and prints exactly the stacks with a positive number of rows in those files that lie in the window and have the process and the name that were asked for, with that number |
| Aggregation.CountIfPlaces | config/query_tool.c:316 | a count is the number of places with a row that satisfies the condition |
| Aggregation.OtherProcessesIgnored | config/query_tool.c:311-312 | rows of other processes do not matter to a query for one process |
| Aggregation.OtherNamesIgnored | config/query_tool.c:313-314 | rows with other names do not matter to a query for one name |
| Aggregation.SweepInSeconds | config/query_tool.c:277-280 | the sweep starts at the whole hour at or before its start and looks at every hour up to its end |
| Aggregation.CoversIff | config/query_tool.c:277-280 | the sweep opens the file of every second in the window if and only if the seconds of the end within its hour and the offset of the time zone within its hour add up to less than an hour |
| Aggregation.ShardedIsFlat | config/query_tool.c:277-334 | then the total of every stack is its row count in the unsharded log |
| Aggregation.ShardedCanMiss | config/query_tool.c:277-280 | otherwise a row at the end of the window is missed: the sweep over the files of the log counts none where the log has one |

## Left out

- The packed word of parent and colour, and `rb_red_parent`, which reads it as a pointer: parent and colour are two fields.
- RCU variants, augmented callbacks and leftmost-cached trees: unused or empty in this program.
- 64-bit wrap-around of the ring positions, access counters and address sums; `BlockCache.Cache.Read` requires that its range does not wrap.
- SortedIndex.AgreesInEveryShapeIff: ranges over all search trees; over red-black shapes alone its condition is sufficient but not necessary, as `SortedIndex.BalanceCanHelp` shows.
- The sizes of allocations and `malloc` failure, except for new cache blocks, whose creation may fail, and the fallback of the pool.
- Mempool.Pool.constructor: takes the chunks that the allocator returned; the rollback when one of them cannot be allocated is not modelled.
- `cache_cleanup`, the cache statistics and the table of open ELF files: process-exit teardown and bookkeeping.
- The recursive release of memory maps in `src/elf/vma.c`, the process table and the ELF table: the same chained-map argument as the aggregation, around I/O.
- Null arguments (a missing tree, cache, pool or queue), which the functions turn away at once.
- Several producers or consumers on one queue: the path to the database has one of each.
- Weak memory ordering, latency measurement and histograms; each locked region is one step, and each read of the running flag is one.
- SQLite, hourly rotation inside a batch and the discard of batches on database errors; an entry counts as written when it is popped.
- Flow.Graph.Flow: the difference column of differential flame graphs is not modelled; parsing and sorting of the input lines are not either.
- FlowTable.KeysUniqueIff: times are exact reals; the script adds doubles and prints them with 15 digits in the key, so that a tiny positive count after a large sum can still clash there.
- FlowTable.PositiveNeverClashes: the same, a positive count that the sum of doubles swallows acts like zero.
- Aggregation.Hash: characters are taken as non-negative, while the C code adds signed bytes.
- Aggregation.Run: overflow of the 32-bit counters is not modelled.
- The HTTP server and client, JSON, the ELF and /proc readers, command-line handling, and the SVG and script parts of the flame graph.
